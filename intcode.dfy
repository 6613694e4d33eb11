/**
 * `Core.IntCodeComputer`: an IntCode machine over a dictionary memory of
 * 32-bit words.  Operand reads go through `GetOrAdd(address, 0)`, so an
 * unset cell reads as 0 and is created by the read; fetching an opcode
 * from an unset cell throws.  Arithmetic is unchecked and wraps.
 *
 * The machine's behaviour is given by pure functions on `Machine` values;
 * the class `IntCodeComputer` updates its fields in place and every
 * method is proved to end in the state those functions describe.  An
 * exception is an `Outcome` of `Fail`, returned together with the state
 * the machine had reached when it was thrown.
 */
module IntCode {

  import opened Wrappers
  import opened IntWidths
  import opened IntCodeDecoding

  /**
   * The memory dictionary.  `keys` lists its keys in insertion order, which
   * is the order of the `Memory` array property.
   */
  datatype Store = Store(cells: map<int, int>, keys: seq<int>)

  /** The machine state. */
  datatype Machine = Machine(
    store: Store,
    ip: int,
    steps: int,
    relativeBase: int,
    inputs: seq<int>,
    outputs: seq<int>,
    current: Instruction)

  /** The key list is the dictionary's key set in insertion order. */
  ghost predicate Valid(m: Machine)
  {
    Enumerates(m.store.cells, m.store.keys)
  }

  /**
   * `keys` enumerates the dictionary: its last key is in the dictionary,
   * and the rest of the list enumerates the dictionary without that key.
   */
  ghost predicate Enumerates(cells: map<int, int>, keys: seq<int>)
    decreases |keys|
  {
    if keys == [] then cells == map[]
    else keys[|keys| - 1] in cells && Enumerates(cells - {keys[|keys| - 1]}, keys[..|keys| - 1])
  }

  /** Every key of the dictionary is listed, and listed once. */
  ghost predicate KeysOk(cells: map<int, int>, keys: seq<int>)
  {
    (forall i, j | 0 <= i < j < |keys| :: keys[i] != keys[j]) &&
    (forall i | 0 <= i < |keys| :: keys[i] in cells) &&
    (forall k | k in cells :: k in keys)
  }

  /** An enumeration lists every key of the dictionary exactly once. */
  lemma {:induction false} EnumeratesKeys(cells: map<int, int>, keys: seq<int>)
    requires Enumerates(cells, keys)
    ensures KeysOk(cells, keys)
    decreases |keys|
  {
    if keys != [] {
      var n := |keys| - 1;
      var k, rest, prefix := keys[n], cells - {keys[n]}, keys[..n];
      EnumeratesKeys(rest, prefix);
      forall i | 0 <= i < n ensures keys[i] != k && keys[i] in cells {
        assert prefix[i] == keys[i] && prefix[i] in rest;
      }
      forall x | x in cells ensures x in keys {
        if x != k {
          assert x in rest;
          var j :| 0 <= j < n && prefix[j] == x;
          assert keys[j] == x;
        } else {
          assert keys[n] == x;
        }
      }
    }
  }

  /** Overwriting a key the dictionary has keeps the enumeration. */
  lemma {:induction false} EnumeratesUpdate(cells: map<int, int>, keys: seq<int>, key: int, v: int)
    requires Enumerates(cells, keys) && key in cells
    ensures Enumerates(cells[key := v], keys)
    decreases |keys|
  {
    assert keys != [];
    var n := |keys| - 1;
    var k := keys[n];
    if k == key {
      assert cells[key := v] - {k} == cells - {k};
    } else {
      assert cells[key := v] - {k} == (cells - {k})[key := v];
      EnumeratesUpdate(cells - {k}, keys[..n], key, v);
    }
  }

  /** Adding a new key extends the enumeration at its end. */
  lemma EnumeratesAppend(cells: map<int, int>, keys: seq<int>, key: int, v: int)
    requires Enumerates(cells, keys) && key !in cells
    ensures Enumerates(cells[key := v], keys + [key])
  {
    assert (keys + [key])[..|keys|] == keys;
    assert cells[key := v] - {key} == cells;
  }

  /** The keys `0 .. n-1`, in order, enumerate the dictionary built from the first `n` words. */
  lemma {:induction false} EnumeratesRange(init: seq<int>, n: nat)
    requires n <= |init|
    ensures Enumerates(map i | 0 <= i < n :: init[i], seq(n, i => i))
    decreases n
  {
    if n > 0 {
      EnumeratesRange(init, n - 1);
      assert seq(n, i => i)[..n - 1] == seq(n - 1, i => i);
      assert (map i | 0 <= i < n :: init[i]) - {n - 1} == map i | 0 <= i < n - 1 :: init[i];
    }
  }

  /** The `Memory` property: the dictionary's values in insertion order. */
  function Memory(m: Machine): (r: seq<int>)
    ensures |r| == |m.store.keys|
  {
    seq(|m.store.keys|, i requires 0 <= i < |m.store.keys| => Cell(m.store.cells, m.store.keys[i]))
  }

  /** The machine the one-argument constructor builds. */
  function Initial(init: seq<int>): Machine
  {
    Machine(Store(map i | 0 <= i < |init| :: init[i], seq(|init|, i => i)), 0, 0, 0, [], [], NO_INSTRUCTION)
  }

  /** A new machine's `Memory` is the initial state, cell `i` holding `init[i]`. */
  lemma InitialMemory(init: seq<int>)
    ensures Valid(Initial(init)) && Memory(Initial(init)) == init
    ensures forall i | 0 <= i < |init| :: Peek(Initial(init), i) == init[i]
  {
    EnumeratesRange(init, |init|);
  }

  /** What a cell reads as through `GetOrAdd(key, 0)`. */
  function Peek(m: Machine, key: int): int
  {
    Cell(m.store.cells, key)
  }

  function Cell(memory: map<int, int>, key: int): int
  {
    if key in memory then memory[key] else 0
  }

  /** The dictionary indexer's setter: a new key goes to the end of the key order. */
  function Put(m: Machine, key: int, v: int): Machine
  {
    m.(store := Store(m.store.cells[key := v], if key in m.store.cells then m.store.keys else m.store.keys + [key]))
  }

  /** Setting a cell changes what that cell reads as and nothing else. */
  lemma PutCells(m: Machine, key: int, v: int)
    ensures forall j :: Peek(Put(m, key, v), j) == if j == key then v else Peek(m, j)
  {
  }

  /** Setting a cell keeps the key list in step with the dictionary. */
  lemma PutValid(m: Machine, key: int, v: int)
    requires Valid(m)
    ensures Valid(Put(m, key, v))
  {
    if key in m.store.cells {
      EnumeratesUpdate(m.store.cells, m.store.keys, key, v);
    } else {
      EnumeratesAppend(m.store.cells, m.store.keys, key, v);
    }
  }

  /** In `Memory` an existing key keeps its place and takes the new value; a new key is appended. */
  lemma PutMemory(m: Machine, key: int, v: int)
    requires Valid(m)
    ensures key in m.store.cells ==>
      Put(m, key, v).store.keys == m.store.keys &&
      forall i | 0 <= i < |m.store.keys| :: Memory(Put(m, key, v))[i] == if m.store.keys[i] == key then v else Memory(m)[i]
    ensures key !in m.store.cells ==> Memory(Put(m, key, v)) == Memory(m) + [v]
  {
    if key !in m.store.cells {
      EnumeratesKeys(m.store.cells, m.store.keys);
      assert forall i | 0 <= i < |m.store.keys| :: m.store.keys[i] != key;
      assert Memory(Put(m, key, v)) == Memory(m) + [v];
    }
  }

  /** The side effect of `GetOrAdd(key, 0)`: an absent key is added with value 0. */
  function Touch(m: Machine, key: int): Machine
  {
    if key in m.store.cells then m else Put(m, key, 0)
  }

  /** `GetOrAdd` leaves the cell present and changes what no cell reads as. */
  lemma TouchCells(m: Machine, key: int)
    ensures key in Touch(m, key).store.cells && Agrees(m, Touch(m, key))
  {
    PutCells(m, key, 0);
  }

  lemma TouchValid(m: Machine, key: int)
    requires Valid(m)
    ensures Valid(Touch(m, key))
  {
    PutValid(m, key, 0);
  }

  /** Everything but the memory and the instruction pointer is the same. */
  predicate SameRegisters(a: Machine, b: Machine)
  {
    a.steps == b.steps && a.relativeBase == b.relativeBase && a.inputs == b.inputs &&
    a.outputs == b.outputs && a.current == b.current
  }

  /** Every cell reads the same in both machines. */
  ghost predicate Agrees(a: Machine, b: Machine)
  {
    SameCells(a.store.cells, b.store.cells)
  }

  ghost predicate SameCells(a: map<int, int>, b: map<int, int>)
  {
    forall j :: Cell(a, j) == Cell(b, j)
  }

  /** The constructor's override loop: each pair is written in enumeration order. */
  function Overridden(m: Machine, pairs: seq<(int, int)>): Machine
    decreases |pairs|
  {
    if pairs == [] then m else Overridden(Put(m, pairs[0].0, pairs[0].1), pairs[1..])
  }

  function PairKeys(pairs: seq<(int, int)>): set<int>
  {
    set j | 0 <= j < |pairs| :: pairs[j].0
  }

  lemma PairKeysCons(pairs: seq<(int, int)>)
    requires pairs != []
    ensures PairKeys(pairs) == {pairs[0].0} + PairKeys(pairs[1..])
  {
    forall k | k in PairKeys(pairs) ensures k in {pairs[0].0} + PairKeys(pairs[1..]) {
      var j :| 0 <= j < |pairs| && pairs[j].0 == k;
      if j > 0 { assert pairs[1..][j - 1].0 == k; }
    }
    forall k | k in PairKeys(pairs[1..]) ensures k in PairKeys(pairs) {
      var j :| 0 <= j < |pairs[1..]| && pairs[1..][j].0 == k;
      assert pairs[j + 1].0 == k;
    }
  }

  /** After the overrides every overridden cell holds its new value and every other cell is unchanged. */
  lemma {:induction false} OverriddenCells(m: Machine, pairs: seq<(int, int)>)
    requires forall i, j | 0 <= i < j < |pairs| :: pairs[i].0 != pairs[j].0
    ensures forall j | 0 <= j < |pairs| :: Peek(Overridden(m, pairs), pairs[j].0) == pairs[j].1
    ensures forall k | k !in PairKeys(pairs) :: Peek(Overridden(m, pairs), k) == Peek(m, k)
    decreases |pairs|
  {
    if pairs != [] {
      var m1 := Put(m, pairs[0].0, pairs[0].1);
      PutCells(m, pairs[0].0, pairs[0].1);
      OverriddenCells(m1, pairs[1..]);
      assert forall j | 1 <= j < |pairs| :: pairs[j] == pairs[1..][j - 1];
      PairKeysCons(pairs);
    }
  }

  /** The overrides keep the key list in step with the dictionary; overriding cells that exist keeps the key order. */
  lemma {:induction false} OverriddenValid(m: Machine, pairs: seq<(int, int)>)
    requires Valid(m)
    ensures Valid(Overridden(m, pairs))
    ensures PairKeys(pairs) <= m.store.cells.Keys ==> Overridden(m, pairs).store.keys == m.store.keys
    decreases |pairs|
  {
    if pairs != [] {
      var m1 := Put(m, pairs[0].0, pairs[0].1);
      PutValid(m, pairs[0].0, pairs[0].1);
      OverriddenValid(m1, pairs[1..]);
      PairKeysCons(pairs);
    }
  }

  // ----- operands -----

  /** A machine together with the operand it read, or the exception the read threw. */
  datatype Read = Read(machine: Machine, result: Result<int>)

  /** A machine together with both operands of an instruction, or the exception. */
  datatype PairRead = PairRead(machine: Machine, result: Result<(int, int)>)

  /** A machine together with how its last operation ended. */
  datatype Exec = Exec(machine: Machine, outcome: Outcome)

  /** A machine together with what `RunWith` returned. */
  datatype Ran = Ran(machine: Machine, result: Result<Option<int>>)

  /** `InstructionPointer - (instruction.Location + 1)`, in unchecked arithmetic. */
  function ParamIndex(m: Machine): int
  {
    Wrap32(m.ip - Wrap32(m.current.location + 1))
  }

  /** A mode `GetNextArg` knows how to read. */
  predicate ReadMode(mode: int)
  {
    mode == POSITION || mode == IMMEDIATE || mode == RELATIVE
  }

  /** The value an operand word denotes in a mode that can be read. */
  function Operand(m: Machine, mode: int, word: int): int
  {
    if mode == POSITION then Peek(m, word)
    else if mode == RELATIVE then Peek(m, Wrap32(m.relativeBase + word))
    else word
  }

  /** The operand's mode, when the parameter index is inside the mode array and the mode is known. */
  predicate ModeReadable(m: Machine)
  {
    0 <= ParamIndex(m) < |m.current.modes| && ReadMode(m.current.modes[ParamIndex(m)])
  }

  /**
   * `GetNextArg`: fetch the operand word at the instruction pointer
   * (creating it if unset), advance, then read it by its mode.  A parameter
   * index outside the mode array throws `IndexOutOfRangeException`, an
   * unknown mode `InvalidOperationException`.
   */
  function NextArg(m: Machine): (r: Read)
    ensures r.machine.ip == Wrap32(m.ip + 1) && SameRegisters(m, r.machine)
    ensures ModeReadable(m) ==> r.result == Ok(Operand(m, m.current.modes[ParamIndex(m)], Peek(m, m.ip)))
    ensures !ModeReadable(m) ==> r.result.Err?
  {
    var paramIndex := ParamIndex(m);
    var argument := Peek(m, m.ip);
    var m1 := Touch(m.(ip := Wrap32(m.ip + 1)), m.ip);
    if !(0 <= paramIndex < |m.current.modes|) then Read(m1, Err(IndexOutOfRange))
    else
      var mode := m.current.modes[paramIndex];
      if mode == IMMEDIATE then Read(m1, Ok(argument))
      else if mode == POSITION || mode == RELATIVE then
        var address := if mode == POSITION then argument else Wrap32(m1.relativeBase + argument);
        Read(Touch(m1, address), Ok(Peek(m1, address)))
      else Read(m1, Err(InvalidOperation))
  }

  /** `EvaluateInstruction`'s two operands, read left to right. */
  function EvalPair(m: Machine): (r: PairRead)
    ensures SameRegisters(m, r.machine)
  {
    var a := NextArg(m);
    if a.result.Err? then PairRead(a.machine, Err(a.result.error))
    else
      var b := NextArg(a.machine);
      if b.result.Err? then PairRead(b.machine, Err(b.result.error))
      else PairRead(b.machine, Ok((a.result.value, b.result.value)))
  }

  // ----- instructions -----

  /** The value the two-operand instructions compute, with unchecked `+` and `*`. */
  function Alu(op: int, a: int, b: int): int
  {
    if op == ADD then Wrap32(a + b)
    else if op == MUL then Wrap32(a * b)
    else if op == LESS_THAN then (if a < b then 1 else 0)
    else (if a == b then 1 else 0)
  }

  /**
   * `ExecuteInstruction(instruction, Func<int, int, int>)`: evaluate both
   * operands, then write to the raw address in the next word.
   */
  function Binary(m: Machine, op: int): Exec
  {
    var p := EvalPair(m);
    if p.result.Err? then Exec(p.machine, Fail(p.result.error))
    else Exec(WriteNext(p.machine, Alu(op, p.result.value.0, p.result.value.1)), Pass)
  }

  /** `_memory[_memory.GetOrAdd(InstructionPointer++, 0)] = v`: the raw address in the next word receives `v`. */
  function WriteNext(m: Machine, v: int): Machine
  {
    Put(Touch(m.(ip := Wrap32(m.ip + 1)), m.ip), Peek(m, m.ip), v)
  }

  /**
   * `ExecuteInstruction(Func<int>)` with `GetInput`: the address word is
   * fetched first, then the input queue is dequeued, which throws when empty.
   */
  function Input(m: Machine): Exec
  {
    var location := Peek(m, m.ip);
    var m1 := Touch(m.(ip := Wrap32(m.ip + 1)), m.ip);
    if m1.inputs == [] then Exec(m1, Fail(InvalidOperation))
    else Exec(Put(m1.(inputs := m1.inputs[1..]), location, m1.inputs[0]), Pass)
  }

  /** `ExecuteInstruction(instruction, Action<int>)`: output the operand, or add it to the relative base. */
  function Action(m: Machine, op: int): Exec
  {
    var a := NextArg(m);
    var m1 := a.machine;
    if a.result.Err? then Exec(m1, Fail(a.result.error))
    else if op == STORE then Exec(m1.(outputs := m1.outputs + [a.result.value]), Pass)
    else Exec(m1.(relativeBase := Wrap32(m1.relativeBase + a.result.value)), Pass)
  }

  /** The conditional jumps: both operands are read, then the pointer is set to the second when the first tests as required. */
  function Jump(m: Machine, ifTrue: bool): Exec
  {
    var p := EvalPair(m);
    if p.result.Err? then Exec(p.machine, Fail(p.result.error))
    else if (p.result.value.0 != 0) == ifTrue then Exec(p.machine.(ip := p.result.value.1), Pass)
    else Exec(p.machine, Pass)
  }

  /** The instruction that the word at the instruction pointer decodes to. */
  function Fetched(m: Machine): Instruction
    requires m.ip in m.store.cells
  {
    Decoded(m.store.cells[m.ip], m.ip)
  }

  /** The machine after the fetch: step counted, pointer past the opcode, instruction current. */
  function AfterFetch(m: Machine): Machine
    requires m.ip in m.store.cells
  {
    m.(steps := Wrap32(m.steps + 1), ip := Wrap32(m.ip + 1), current := Fetched(m))
  }

  /** The switch of `ExecuteStep` on the opcode of the instruction just fetched. */
  function Execute(a: Machine): (r: Exec)
    ensures r.machine.steps == a.steps && r.machine.current == a.current
  {
    var op := a.current.opcode;
    if op == ADD || op == MUL || op == LESS_THAN || op == EQUALS then Binary(a, op)
    else if op == LOAD then Input(a)
    else if op == STORE || op == SET_RELATIVE_BASE then Action(a, op)
    else if op == JMP_IF_TRUE || op == JMP_IF_FALSE then Jump(a, op == JMP_IF_TRUE)
    else if op == HALT then Exec(a, Pass)
    else Exec(a, Fail(InvalidOperation))
  }

  /**
   * `ExecuteStep`: count the step, fetch and decode the word at the
   * instruction pointer (throwing if it is unset), then dispatch on the opcode.
   */
  function Step(m: Machine): Exec
  {
    if m.ip !in m.store.cells then Exec(m.(steps := Wrap32(m.steps + 1)), Fail(KeyNotFound))
    else Execute(AfterFetch(m))
  }

  /** `Run(maxSteps)`: step until the budget is spent or the current instruction is Halt; an exception ends the run. */
  function RunSteps(m: Machine, n: int): Exec
    decreases n, 0
  {
    if n <= 0 || m.current.opcode == HALT then Exec(m, Pass)
    else RunAfter(Step(m), n - 1)
  }

  /** The rest of `Run` after a step: an exception ends the run, otherwise it goes on with `n` steps left. */
  function RunAfter(s: Exec, n: int): Exec
    decreases n, 1
  {
    if s.outcome.Fail? then s else RunSteps(s.machine, n)
  }

  /**
   * The loop of `RunWith`: step until Halt, returning the front of the
   * output queue as soon as a step was an output instruction.  `fuel`
   * bounds a loop the source leaves unbounded.
   */
  function RunUntilOutput(m: Machine, fuel: nat): Ran
    decreases fuel, 0
  {
    if m.current.opcode == HALT then Ran(m, Ok(None))
    else if fuel == 0 then Ran(m, Err(OutOfFuel))
    else RunUntilOutputAfter(Step(m), fuel - 1)
  }

  /**
   * The rest of `RunWith` after a step: an exception ends it; after Store
   * the front of the output queue is dequeued and returned; otherwise the
   * loop goes on.
   */
  function RunUntilOutputAfter(s: Exec, fuel: nat): Ran
    decreases fuel, 1
  {
    var m1 := s.machine;
    if s.outcome.Fail? then Ran(m1, Err(s.outcome.error))
    else if m1.current.opcode == STORE then
      if m1.outputs == [] then Ran(m1, Err(InvalidOperation))
      else Ran(m1.(outputs := m1.outputs[1..]), Ok(Some(m1.outputs[0])))
    else RunUntilOutput(m1, fuel)
  }

  /** `RunWith(input)`: enqueue the input, then run until an output or Halt. */
  function RunWithInput(m: Machine, input: int, fuel: nat): Ran
  {
    RunUntilOutput(m.(inputs := m.inputs + [input]), fuel)
  }

  // ----- the memory across a step -----

  /** Reading an operand creates cells but changes what no cell reads as. */
  lemma NextArgCells(m: Machine)
    ensures Agrees(m, NextArg(m).machine)
  {
    var m0 := m.(ip := Wrap32(m.ip + 1));
    TouchCells(m0, m.ip);
    var m1 := Touch(m0, m.ip);
    TouchCells(m1, Peek(m, m.ip));
    TouchCells(m1, Wrap32(m1.relativeBase + Peek(m, m.ip)));
  }

  lemma EvalPairCells(m: Machine)
    ensures Agrees(m, EvalPair(m).machine)
  {
    NextArgCells(m);
    NextArgCells(NextArg(m).machine);
  }

  /** Reading an operand keeps the key list in step with the dictionary. */
  lemma NextArgValid(m: Machine)
    requires Valid(m)
    ensures Valid(NextArg(m).machine)
  {
    var m0 := m.(ip := Wrap32(m.ip + 1));
    var m1 := Touch(m0, m.ip);
    assert Valid(m1) by { TouchValid(m0, m.ip); }
    forall address ensures Valid(Touch(m1, address)) {
      TouchValid(m1, address);
    }
  }

  lemma EvalPairValid(m: Machine)
    requires Valid(m)
    ensures Valid(EvalPair(m).machine)
  {
    NextArgValid(m);
    NextArgValid(NextArg(m).machine);
  }

  lemma BinaryValid(a: Machine, op: int)
    requires Valid(a)
    ensures Valid(Binary(a, op).machine)
  {
    EvalPairValid(a);
    var p := EvalPair(a);
    if p.result.Ok? {
      WriteNextValid(p.machine, Alu(op, p.result.value.0, p.result.value.1));
    }
  }

  lemma WriteNextValid(m: Machine, v: int)
    requires Valid(m)
    ensures Valid(WriteNext(m, v))
  {
    var m1 := m.(ip := Wrap32(m.ip + 1));
    TouchValid(m1, m.ip);
    PutValid(Touch(m1, m.ip), Peek(m, m.ip), v);
  }

  /** The write-back moves past the address word and changes only the cell it names. */
  lemma WriteNextCells(m: Machine, v: int)
    ensures var r := WriteNext(m, v);
      r.ip == Wrap32(m.ip + 1) && SameRegisters(m, r) &&
      forall j :: Peek(r, j) == if j == Peek(m, m.ip) then v else Peek(m, j)
  {
    var m1 := m.(ip := Wrap32(m.ip + 1));
    TouchCells(m1, m.ip);
    PutCells(Touch(m1, m.ip), Peek(m, m.ip), v);
  }

  lemma InputValid(a: Machine)
    requires Valid(a)
    ensures Valid(Input(a).machine)
  {
    var a1 := a.(ip := Wrap32(a.ip + 1));
    TouchValid(a1, a.ip);
    var a2 := Touch(a1, a.ip);
    if a2.inputs != [] {
      PutValid(a2.(inputs := a2.inputs[1..]), Peek(a, a.ip), a2.inputs[0]);
    }
  }

  /** A step keeps the key list in step with the dictionary. */
  lemma StepValid(m: Machine)
    requires Valid(m)
    ensures Valid(Step(m).machine)
  {
    if m.ip in m.store.cells {
      var a := AfterFetch(m);
      var op := a.current.opcode;
      if op == ADD || op == MUL || op == LESS_THAN || op == EQUALS {
        assert Valid(Binary(a, op).machine) by { BinaryValid(a, op); }
      } else if op == LOAD {
        assert Valid(Input(a).machine) by { InputValid(a); }
      } else if op == STORE || op == SET_RELATIVE_BASE {
        assert Valid(NextArg(a).machine) by { NextArgValid(a); }
      } else if op == JMP_IF_TRUE || op == JMP_IF_FALSE {
        assert Valid(EvalPair(a).machine) by { EvalPairValid(a); }
      }
    }
  }

  // ----- the effect of each instruction -----

  /** The machine just after a fetch: the pointer is one past the instruction's location. */
  predicate Fresh(a: Machine)
  {
    a.ip == Wrap32(a.current.location + 1) && |a.current.modes| == 4
  }

  /** Operand `k` of a freshly fetched instruction, read by its mode from the `k`-th word after the opcode. */
  function OperandOf(a: Machine, k: int): int
    requires 0 <= k < |a.current.modes|
  {
    Operand(a, a.current.modes[k], Peek(a, Wrap32(a.ip + k)))
  }

  /** Operand `k` of the instruction at the instruction pointer. */
  function OperandAt(m: Machine, k: int): int
    requires m.ip in m.store.cells && 0 <= k < 4
  {
    OperandOf(AfterFetch(m), k)
  }

  /** Machines whose cells read the same and whose relative bases agree read every operand the same. */
  lemma OperandAgrees(a: Machine, b: Machine, mode: int, word: int)
    requires Agrees(a, b) && a.relativeBase == b.relativeBase
    ensures Operand(a, mode, word) == Operand(b, mode, word)
  {
  }

  /** Reading both operands of a freshly fetched instruction whose first two modes are known. */
  lemma EvalPairReads(a: Machine)
    requires Fresh(a) && ReadMode(a.current.modes[0]) && ReadMode(a.current.modes[1])
    ensures var p := EvalPair(a);
      p.result == Ok((OperandOf(a, 0), OperandOf(a, 1))) &&
      p.machine.ip == Wrap32(a.ip + 2) && Agrees(a, p.machine) && SameRegisters(a, p.machine)
  {
    var loc := a.current.location;
    var a1 := NextArg(a).machine;
    assert ParamIndex(a) == 0;
    assert NextArg(a).result == Ok(OperandOf(a, 0));
    assert Agrees(a, a1) by { NextArgCells(a); }
    assert ParamIndex(a1) == 1 by {
      Wrap32Add(loc + 1, 1);
      Wrap32Sub(loc + 1, 1);
    }
    assert Agrees(a1, NextArg(a1).machine) by { NextArgCells(a1); }
    assert Wrap32(a1.ip + 1) == Wrap32(a.ip + 2) by { Wrap32Add(a.ip + 1, 1); }
    assert Peek(a1, a1.ip) == Peek(a, Wrap32(a.ip + 1));
    OperandAgrees(a, a1, a.current.modes[1], Peek(a, Wrap32(a.ip + 1)));
  }

  /** A binary instruction once fetched: the result lands at the raw address in the third word. */
  lemma BinaryEffect(a: Machine, op: int)
    requires Fresh(a) && ReadMode(a.current.modes[0]) && ReadMode(a.current.modes[1])
    ensures var e := Binary(a, op);
      e.outcome == Pass && e.machine.ip == Wrap32(a.ip + 3) && SameRegisters(a, e.machine) &&
      forall j :: Peek(e.machine, j) == if j == Peek(a, Wrap32(a.ip + 2)) then Alu(op, OperandOf(a, 0), OperandOf(a, 1)) else Peek(a, j)
  {
    EvalPairReads(a);
    var p := EvalPair(a);
    WriteNextCells(p.machine, Alu(op, OperandOf(a, 0), OperandOf(a, 1)));
    Wrap32Add(a.ip + 2, 1);
  }

  /** Load once fetched: the front of the input queue lands at the raw address in the next word. */
  lemma InputEffect(a: Machine)
    ensures var e := Input(a);
      e.machine.ip == Wrap32(a.ip + 1) && e.machine.steps == a.steps && e.machine.current == a.current &&
      e.machine.outputs == a.outputs && e.machine.relativeBase == a.relativeBase &&
      (a.inputs == [] ==> e.outcome == Fail(InvalidOperation) && e.machine.inputs == [] && Agrees(a, e.machine)) &&
      (a.inputs != [] ==>
        e.outcome == Pass && e.machine.inputs == a.inputs[1..] &&
        forall j :: Peek(e.machine, j) == if j == Peek(a, a.ip) then a.inputs[0] else Peek(a, j))
  {
    var a1 := a.(ip := Wrap32(a.ip + 1));
    TouchCells(a1, a.ip);
    var a2 := Touch(a1, a.ip);
    if a.inputs != [] {
      PutCells(a2.(inputs := a2.inputs[1..]), Peek(a, a.ip), a.inputs[0]);
    }
  }

  /** Store and SetRelativeBase once fetched: the operand is output, or added to the relative base. */
  lemma ActionEffect(a: Machine, op: int)
    requires Fresh(a) && ReadMode(a.current.modes[0])
    ensures var e := Action(a, op);
      e.outcome == Pass && e.machine.ip == Wrap32(a.ip + 1) && Agrees(a, e.machine) &&
      e.machine.steps == a.steps && e.machine.current == a.current && e.machine.inputs == a.inputs &&
      (op == STORE ==> e.machine.outputs == a.outputs + [OperandOf(a, 0)] && e.machine.relativeBase == a.relativeBase) &&
      (op != STORE ==> e.machine.outputs == a.outputs && e.machine.relativeBase == Wrap32(a.relativeBase + OperandOf(a, 0)))
  {
    assert ParamIndex(a) == 0;
    NextArgCells(a);
  }

  /** A conditional jump once fetched: taken, the pointer becomes the second operand; otherwise it passes both. */
  lemma JumpEffect(a: Machine, ifTrue: bool)
    requires Fresh(a) && ReadMode(a.current.modes[0]) && ReadMode(a.current.modes[1])
    ensures var e := Jump(a, ifTrue);
      var taken := (OperandOf(a, 0) != 0) == ifTrue;
      e.outcome == Pass && Agrees(a, e.machine) && SameRegisters(a, e.machine) &&
      e.machine.ip == if taken then OperandOf(a, 1) else Wrap32(a.ip + 2)
  {
    EvalPairReads(a);
  }

  /** Operand word `k` of the instruction at `m.ip` sits at the wrapped address `m.ip + 1 + k`. */
  lemma AfterFetchSlots(m: Machine)
    requires m.ip in m.store.cells
    ensures Fresh(AfterFetch(m))
    ensures Wrap32(AfterFetch(m).ip + 1) == Wrap32(m.ip + 2)
    ensures Wrap32(AfterFetch(m).ip + 2) == Wrap32(m.ip + 3)
    ensures Wrap32(AfterFetch(m).ip + 3) == Wrap32(m.ip + 4)
  {
    Wrap32Add(m.ip + 1, 1);
    Wrap32Add(m.ip + 1, 2);
    Wrap32Add(m.ip + 1, 3);
  }

  /**
   * Add, Mul, LessThan and Equals read two operands by their modes, write
   * the result to the raw address in the third word whatever its mode, and
   * advance the pointer by four.  Every other cell reads as before.
   */
  lemma StepArithmetic(m: Machine)
    requires m.ip in m.store.cells
    requires Fetched(m).opcode in {ADD, MUL, LESS_THAN, EQUALS}
    requires ReadMode(Fetched(m).modes[0]) && ReadMode(Fetched(m).modes[1])
    ensures var s := Step(m);
      var dest := Peek(m, Wrap32(m.ip + 3));
      s.outcome == Pass && s.machine.ip == Wrap32(m.ip + 4) && SameRegisters(AfterFetch(m), s.machine) &&
      forall j :: Peek(s.machine, j) == if j == dest then Alu(Fetched(m).opcode, OperandAt(m, 0), OperandAt(m, 1)) else Peek(m, j)
  {
    var a := AfterFetch(m);
    assert Step(m) == Binary(a, a.current.opcode);
    AfterFetchSlots(m);
    BinaryEffect(a, a.current.opcode);
    assert Peek(a, Wrap32(a.ip + 2)) == Peek(m, Wrap32(m.ip + 3));
  }

  /**
   * Load writes the front of the input queue to the raw address in the next
   * word and advances by two; with an empty queue it throws after the
   * address word was fetched.
   */
  lemma StepInput(m: Machine)
    requires m.ip in m.store.cells && Fetched(m).opcode == LOAD
    ensures var s := Step(m);
      var dest := Peek(m, Wrap32(m.ip + 1));
      s.machine.ip == Wrap32(m.ip + 2) && s.machine.steps == Wrap32(m.steps + 1) && s.machine.current == Fetched(m) &&
      s.machine.outputs == m.outputs && s.machine.relativeBase == m.relativeBase &&
      (m.inputs == [] ==> s.outcome == Fail(InvalidOperation) && s.machine.inputs == [] && Agrees(m, s.machine)) &&
      (m.inputs != [] ==>
        s.outcome == Pass && s.machine.inputs == m.inputs[1..] &&
        forall j :: Peek(s.machine, j) == if j == dest then m.inputs[0] else Peek(m, j))
  {
    var a := AfterFetch(m);
    assert Step(m) == Input(a);
    AfterFetchSlots(m);
    InputEffect(a);
  }

  /** Store appends its operand to the output queue; SetRelativeBase adds it to the relative base. Both advance by two. */
  lemma StepAction(m: Machine)
    requires m.ip in m.store.cells && Fetched(m).opcode in {STORE, SET_RELATIVE_BASE}
    requires ReadMode(Fetched(m).modes[0])
    ensures var s := Step(m);
      var x := OperandAt(m, 0);
      s.outcome == Pass && s.machine.ip == Wrap32(m.ip + 2) && Agrees(m, s.machine) &&
      s.machine.steps == Wrap32(m.steps + 1) && s.machine.current == Fetched(m) && s.machine.inputs == m.inputs &&
      (Fetched(m).opcode == STORE ==> s.machine.outputs == m.outputs + [x] && s.machine.relativeBase == m.relativeBase) &&
      (Fetched(m).opcode == SET_RELATIVE_BASE ==> s.machine.outputs == m.outputs && s.machine.relativeBase == Wrap32(m.relativeBase + x))
  {
    var a := AfterFetch(m);
    assert Step(m) == Action(a, a.current.opcode);
    AfterFetchSlots(m);
    ActionEffect(a, a.current.opcode);
  }

  /** JmpIfTrue and JmpIfFalse set the pointer to the second operand when the first is nonzero, resp. zero; otherwise they advance by three. */
  lemma StepJump(m: Machine)
    requires m.ip in m.store.cells && Fetched(m).opcode in {JMP_IF_TRUE, JMP_IF_FALSE}
    requires ReadMode(Fetched(m).modes[0]) && ReadMode(Fetched(m).modes[1])
    ensures var s := Step(m);
      var taken := (OperandAt(m, 0) != 0) == (Fetched(m).opcode == JMP_IF_TRUE);
      s.outcome == Pass && Agrees(m, s.machine) && SameRegisters(AfterFetch(m), s.machine) &&
      s.machine.ip == if taken then OperandAt(m, 1) else Wrap32(m.ip + 3)
  {
    var a := AfterFetch(m);
    assert Step(m) == Jump(a, a.current.opcode == JMP_IF_TRUE);
    AfterFetchSlots(m);
    JumpEffect(a, a.current.opcode == JMP_IF_TRUE);
  }

  /** Halt only counts the step, moves past itself and becomes the current instruction. */
  lemma StepHalt(m: Machine)
    requires m.ip in m.store.cells && Fetched(m).opcode == HALT
    ensures Step(m) == Exec(AfterFetch(m), Pass)
  {
  }

  /** Fetching from an unset cell throws `KeyNotFoundException` after the step was counted. */
  lemma StepUnsetFetch(m: Machine)
    requires m.ip !in m.store.cells
    ensures Step(m) == Exec(m.(steps := Wrap32(m.steps + 1)), Fail(KeyNotFound))
  {
  }

  /** An opcode outside the instruction set throws `InvalidOperationException`. */
  lemma StepUnknownOpcode(m: Machine)
    requires m.ip in m.store.cells
    requires Fetched(m).opcode !in {ADD, MUL, LOAD, STORE, JMP_IF_TRUE, JMP_IF_FALSE, LESS_THAN, EQUALS, SET_RELATIVE_BASE, HALT}
    ensures Step(m) == Exec(AfterFetch(m), Fail(InvalidOperation))
  {
  }

  /** An instruction whose first operand has an unknown mode throws `InvalidOperationException`. */
  lemma StepUnknownMode(m: Machine)
    requires m.ip in m.store.cells
    requires Fetched(m).opcode in {ADD, MUL, STORE, JMP_IF_TRUE, JMP_IF_FALSE, LESS_THAN, EQUALS, SET_RELATIVE_BASE}
    requires !ReadMode(Fetched(m).modes[0])
    ensures Step(m).outcome == Fail(InvalidOperation)
  {
    var a := AfterFetch(m);
    AfterFetchSlots(m);
    assert ParamIndex(a) == 0;
    assert NextArg(a).result == Err(InvalidOperation);
  }

  // ----- properties of runs -----

  /** A step is counted in the step count, in unchecked arithmetic. */
  lemma StepCounts(m: Machine)
    ensures Step(m).machine.steps == Wrap32(m.steps + 1)
  {
  }

  /**
   * `Run(n)` executes at most `n` steps, each counted in the step count,
   * and stops early without an exception only at Halt.
   */
  lemma {:induction false} RunStepBound(m: Machine, n: int)
    requires 0 <= m.steps && m.steps + (if n > 0 then n else 0) < TWO_31
    ensures var r := RunSteps(m, n);
      m.steps <= r.machine.steps <= m.steps + (if n > 0 then n else 0) &&
      (r.outcome == Pass && r.machine.steps < m.steps + n ==> r.machine.current.opcode == HALT)
    decreases n, 0
  {
    if n > 0 && m.current.opcode != HALT {
      assert Step(m).machine.steps == m.steps + 1 by { StepCounts(m); }
      RunAfterBound(Step(m), n - 1);
    }
  }

  /** The same bound for the rest of a run after a step. */
  lemma {:induction false} RunAfterBound(s: Exec, n: int)
    requires 0 <= s.machine.steps && s.machine.steps + (if n > 0 then n else 0) < TWO_31
    ensures var r := RunAfter(s, n);
      s.machine.steps <= r.machine.steps <= s.machine.steps + (if n > 0 then n else 0) &&
      (r.outcome == Pass && r.machine.steps < s.machine.steps + n ==> r.machine.current.opcode == HALT)
    decreases n, 1
  {
    if s.outcome.Pass? {
      RunStepBound(s.machine, n);
    }
  }

  /** A run keeps the key list in step with the dictionary. */
  lemma {:induction false} RunStepsValid(m: Machine, n: int)
    requires Valid(m)
    ensures Valid(RunSteps(m, n).machine)
    decreases n, 0
  {
    if n > 0 && m.current.opcode != HALT {
      var s := Step(m);
      StepValid(m);
      assert RunSteps(m, n) == RunAfter(s, n - 1);
      if s.outcome.Pass? {
        RunStepsValid(s.machine, n - 1);
        assert RunAfter(s, n - 1) == RunSteps(s.machine, n - 1);
      }
    } else {
      assert RunSteps(m, n) == Exec(m, Pass);
    }
  }

  lemma {:induction false} RunAfterValid(s: Exec, n: int)
    requires Valid(s.machine)
    ensures Valid(RunAfter(s, n).machine)
    decreases n, 1
  {
    if s.outcome.Pass? {
      RunStepsValid(s.machine, n);
    }
  }

  /** After a step that did not fail, the outputs grew by one value exactly when the step was Store. */
  lemma StepOutputs(m: Machine)
    ensures OutputsAfter(Step(m), m.outputs)
  {
    var s := Step(m);
    if s.outcome.Pass? && s.machine.current.opcode == STORE {
      var a := NextArg(AfterFetch(m)).result;
      assert s.machine.outputs == m.outputs + [a.value];
    }
  }

  /** A step that did not fail appended one value to the output queue `outs` if it was Store, and none otherwise. */
  ghost predicate OutputsAfter(s: Exec, outs: seq<int>)
  {
    s.outcome.Pass? ==>
      (s.machine.current.opcode == STORE ==> exists w :: s.machine.outputs == outs + [w]) &&
      (s.machine.current.opcode != STORE ==> s.machine.outputs == outs)
  }

  /**
   * `RunWith` returns null only at Halt, before anything was output; a
   * value it returns is the front of the output queue once the first
   * Store of the run has appended to it.
   */
  lemma {:induction false} RunUntilOutputResult(m: Machine, fuel: nat)
    ensures var r := RunUntilOutput(m, fuel);
      (r.result == Ok(None) ==> r.machine.current.opcode == HALT && r.machine.outputs == m.outputs) &&
      (r.result.Ok? && r.result.value.Some? ==>
        r.machine.current.opcode == STORE && exists w :: m.outputs + [w] == [r.result.value.value] + r.machine.outputs)
    decreases fuel, 0
  {
    if m.current.opcode != HALT && fuel > 0 {
      StepOutputs(m);
      RunUntilOutputAfterResult(Step(m), m.outputs, fuel - 1);
    }
  }

  /** The same for the rest of the loop after a step that started from the output queue `outs`. */
  lemma {:induction false} RunUntilOutputAfterResult(s: Exec, outs: seq<int>, fuel: nat)
    requires OutputsAfter(s, outs)
    ensures var r := RunUntilOutputAfter(s, fuel);
      (r.result == Ok(None) ==> r.machine.current.opcode == HALT && r.machine.outputs == outs) &&
      (r.result.Ok? && r.result.value.Some? ==>
        r.machine.current.opcode == STORE && exists w :: outs + [w] == [r.result.value.value] + r.machine.outputs)
    decreases fuel, 1
  {
    var m1 := s.machine;
    if s.outcome.Pass? && m1.current.opcode == STORE && m1.outputs != [] {
      var w :| m1.outputs == outs + [w];
      assert outs + [w] == [m1.outputs[0]] + m1.outputs[1..];
    } else if s.outcome.Pass? && m1.current.opcode != STORE {
      RunUntilOutputResult(m1, fuel);
    }
  }

  /** With an empty output queue, the value `RunWith` returns is the first one output and the queue is empty again. */
  lemma RunWithFirstOutput(m: Machine, input: int, fuel: nat)
    requires m.outputs == []
    ensures var r := RunWithInput(m, input, fuel);
      r.result.Ok? && r.result.value.Some? ==> r.machine.outputs == []
  {
    RunUntilOutputResult(m.(inputs := m.inputs + [input]), fuel);
  }

  // ----- the machine object -----

  /** `Core.IntCodeComputer` with its fields; the public properties are the fields and `Memory(State())`. */
  class IntCodeComputer {
    var memory: map<int, int>
    var keys: seq<int>
    var ip: int
    var steps: int
    var relativeBase: int
    var inputs: seq<int>
    var outputs: seq<int>
    var current: Instruction

    function State(): Machine
      reads this
    {
      Machine(Store(memory, keys), ip, steps, relativeBase, inputs, outputs, current)
    }

    /** `IntCodeComputer(initialState)`. */
    constructor (initialState: seq<int>)
      ensures State() == Initial(initialState)
    {
      memory := map i | 0 <= i < |initialState| :: initialState[i];
      keys := seq(|initialState|, i => i);
      ip, steps, relativeBase := 0, 0, 0;
      inputs, outputs := [], [];
      current := NO_INSTRUCTION;
    }

    /** `IntCodeComputer(initialState, firstInput)`. */
    constructor WithInput(initialState: seq<int>, firstInput: int)
      ensures State() == Initial(initialState).(inputs := [firstInput])
    {
      memory := map i | 0 <= i < |initialState| :: initialState[i];
      keys := seq(|initialState|, i => i);
      ip, steps, relativeBase := 0, 0, 0;
      inputs, outputs := [firstInput], [];
      current := NO_INSTRUCTION;
    }

    /** `IntCodeComputer(initialState, stateOverride)`, the dictionary given as its pairs in enumeration order. */
    constructor WithOverride(initialState: seq<int>, stateOverride: seq<(int, int)>)
      ensures State() == Overridden(Initial(initialState), stateOverride)
    {
      memory := map i | 0 <= i < |initialState| :: initialState[i];
      keys := seq(|initialState|, i => i);
      ip, steps, relativeBase := 0, 0, 0;
      inputs, outputs := [], [];
      current := NO_INSTRUCTION;
      new;
      var i := 0;
      while i < |stateOverride|
        invariant 0 <= i <= |stateOverride|
        invariant Overridden(State(), stateOverride[i..]) == Overridden(Initial(initialState), stateOverride)
      {
        assert stateOverride[i..][1..] == stateOverride[i + 1..];
        SetCell(stateOverride[i].0, stateOverride[i].1);
        i := i + 1;
      }
    }

    /** `_memory[key] = v`. */
    method SetCell(key: int, v: int)
      modifies this
      ensures State() == Put(old(State()), key, v)
    {
      if key !in memory {
        keys := keys + [key];
      }
      memory := memory[key := v];
    }

    /** `_memory.GetOrAdd(key, 0)`. */
    method GetOrAdd(key: int) returns (v: int)
      modifies this
      ensures State() == Touch(old(State()), key) && v == Peek(old(State()), key)
    {
      if key in memory {
        v := memory[key];
      } else {
        SetCell(key, 0);
        v := 0;
      }
    }

    /** `GetNextArg(_currentInstruction)`. */
    method GetNextArg() returns (r: Result<int>)
      modifies this
      ensures Read(State(), r) == NextArg(old(State()))
    {
      var paramIndex := Wrap32(ip - Wrap32(current.location + 1));
      var at := ip;
      ip := Wrap32(ip + 1);
      var argument := GetOrAdd(at);
      if !(0 <= paramIndex < |current.modes|) {
        return Err(IndexOutOfRange);
      }
      var mode := current.modes[paramIndex];
      if mode == POSITION {
        var v := GetOrAdd(argument);
        r := Ok(v);
      } else if mode == IMMEDIATE {
        r := Ok(argument);
      } else if mode == RELATIVE {
        var v := GetOrAdd(Wrap32(relativeBase + argument));
        r := Ok(v);
      } else {
        r := Err(InvalidOperation);
      }
    }

    /** `EvaluateInstruction`: both operands, left to right. */
    method EvaluateInstruction() returns (r: Result<(int, int)>)
      modifies this
      ensures PairRead(State(), r) == EvalPair(old(State()))
    {
      var a := GetNextArg();
      if a.Err? {
        return Err(a.error);
      }
      var b := GetNextArg();
      if b.Err? {
        return Err(b.error);
      }
      r := Ok((a.value, b.value));
    }

    /** `ExecuteInstruction(instruction, Func<int, int, int>)`. */
    method ExecuteInstruction(op: int) returns (o: Outcome)
      modifies this
      ensures Exec(State(), o) == Binary(old(State()), op)
    {
      var ab := EvaluateInstruction();
      if ab.Err? {
        return Fail(ab.error);
      }
      WriteNextCell(Alu(op, ab.value.0, ab.value.1));
      o := Pass;
    }

    /** The store half of `ExecuteInstruction(instruction, Func<int, int, int>)`. */
    method WriteNextCell(v: int)
      modifies this
      ensures State() == WriteNext(old(State()), v)
    {
      var at := ip;
      ip := Wrap32(ip + 1);
      var location := GetOrAdd(at);
      SetCell(location, v);
    }

    /** `ExecuteInstruction(GetInput)`. */
    method ExecuteInput() returns (o: Outcome)
      modifies this
      ensures Exec(State(), o) == Input(old(State()))
    {
      var at := ip;
      ip := Wrap32(ip + 1);
      var location := GetOrAdd(at);
      if inputs == [] {
        return Fail(InvalidOperation);
      }
      var v := inputs[0];
      inputs := inputs[1..];
      SetCell(location, v);
      o := Pass;
    }

    /** `ExecuteInstruction(instruction, Action<int>)` with `SetOutput` or `_relativeBase += a`. */
    method ExecuteAction(op: int) returns (o: Outcome)
      modifies this
      ensures Exec(State(), o) == Action(old(State()), op)
    {
      var a := GetNextArg();
      if a.Err? {
        return Fail(a.error);
      }
      if op == STORE {
        outputs := outputs + [a.value];
      } else {
        relativeBase := Wrap32(relativeBase + a.value);
      }
      o := Pass;
    }

    /** `EvaluateInstruction` with the jump lambdas. */
    method ExecuteJump(ifTrue: bool) returns (o: Outcome)
      modifies this
      ensures Exec(State(), o) == Jump(old(State()), ifTrue)
    {
      var ab := EvaluateInstruction();
      if ab.Err? {
        return Fail(ab.error);
      }
      if (ab.value.0 != 0) == ifTrue {
        ip := ab.value.1;
      }
      o := Pass;
    }

    /** The switch of `ExecuteStep`. */
    method Dispatch() returns (o: Outcome)
      modifies this
      ensures Exec(State(), o) == Execute(old(State()))
    {
      var op := current.opcode;
      if op == ADD || op == MUL || op == LESS_THAN || op == EQUALS {
        o := ExecuteInstruction(op);
      } else if op == LOAD {
        o := ExecuteInput();
      } else if op == STORE || op == SET_RELATIVE_BASE {
        o := ExecuteAction(op);
      } else if op == JMP_IF_TRUE || op == JMP_IF_FALSE {
        o := ExecuteJump(op == JMP_IF_TRUE);
      } else if op == HALT {
        o := Pass;
      } else {
        o := Fail(InvalidOperation);
      }
    }

    /** `ExecuteStep`. */
    method ExecuteStep() returns (o: Outcome)
      modifies this
      ensures Exec(State(), o) == Step(old(State()))
    {
      steps := Wrap32(steps + 1);
      if ip !in memory {
        return Fail(KeyNotFound);
      }
      var ins := Decode(memory[ip], ip);
      ip := Wrap32(ip + 1);
      current := ins;
      o := Dispatch();
    }

    /** `Run(maxSteps)`. */
    method Run(maxSteps: int) returns (o: Outcome)
      modifies this
      ensures Exec(State(), o) == RunSteps(old(State()), maxSteps)
    {
      var n := maxSteps;
      o := Pass;
      while n > 0 && current.opcode != HALT
        invariant RunSteps(State(), n) == RunSteps(old(State()), maxSteps)
        invariant o == Pass
        decreases n
      {
        o := ExecuteStep();
        if o.Fail? {
          return;
        }
        n := n - 1;
      }
    }

    /** `RunWith(input)`; the loop is cut off after `fuel` steps. */
    method RunWith(input: int, fuel: nat) returns (r: Result<Option<int>>)
      modifies this
      ensures Ran(State(), r) == RunWithInput(old(State()), input, fuel)
    {
      inputs := inputs + [input];
      r := RunUntilOutputLoop(fuel);
    }

    /** The loop of `RunWith`. */
    method RunUntilOutputLoop(fuel: nat) returns (r: Result<Option<int>>)
      modifies this
      ensures Ran(State(), r) == RunUntilOutput(old(State()), fuel)
    {
      var f := fuel;
      while current.opcode != HALT
        invariant RunUntilOutput(State(), f) == RunUntilOutput(old(State()), fuel)
        decreases f
      {
        if f == 0 {
          return Err(OutOfFuel);
        }
        var o := ExecuteStep();
        if o.Fail? {
          return Err(o.error);
        }
        if current.opcode == STORE {
          if outputs == [] {
            return Err(InvalidOperation);
          }
          r := Ok(Some(outputs[0]));
          outputs := outputs[1..];
          return;
        }
        f := f - 1;
      }
      r := Ok(None);
    }
  }
}
