/**
 * The older `IntCodeComputer` in the repository root: an IntCode machine
 * over a fixed array of 32-bit words.  The array never grows, so a read or
 * a write outside it throws `IndexOutOfRangeException`; only position and
 * immediate modes exist; inputs are read from a list through a cursor.
 *
 * Two-operand instructions and Load are written `Memory[Memory[IP++]] =
 * value`, and C# evaluates the left-hand side first: the destination is the
 * word right after the opcode, and the operands come from the two words
 * after it, read with modes 1 and 2.  The bounds check of the store itself
 * happens when the value is stored, after the right-hand side ran.
 *
 * As in `IntCode`, the behaviour is given by functions on `Machine` values
 * and the class `ArrayIntCodeComputer` is proved to follow them.
 */
module ArrayIntCode {

  import opened Wrappers
  import opened IntWidths
  import opened IntCodeDecoding
  import IntCode

  /** The machine state: the memory array's contents and the other fields. */
  datatype Machine = Machine(
    memory: seq<int>,
    ip: int,
    steps: int,
    inputs: seq<int>,
    inputIdx: nat,
    outputs: seq<int>)

  /** How a step ended: the loop goes on, `return` at Halt, or an exception. */
  datatype Status = Running | Halted | Threw(error: Error)

  /** A machine together with the word it read, or the exception the read threw. */
  datatype Read = Read(machine: Machine, result: Result<int>)

  /** A machine together with both operands of an instruction, or the exception. */
  datatype PairRead = PairRead(machine: Machine, result: Result<(int, int)>)

  /** A machine together with how its last operation ended. */
  datatype Exec = Exec(machine: Machine, status: Status)

  /** A fresh machine over a copy of `init`. */
  function Initial(init: seq<int>): Machine
  {
    Machine(init, 0, 0, [], 0, [])
  }

  /** `Memory[address]`. */
  function At(m: Machine, address: int): Result<int>
  {
    if 0 <= address < |m.memory| then Ok(m.memory[address]) else Err(IndexOutOfRange)
  }

  /** `Memory[InstructionPointer++]`: the pointer moves on before the read is checked. */
  function NextWord(m: Machine): Read
  {
    Read(m.(ip := m.ip + 1), At(m, m.ip))
  }

  /** `Memory[address] = v`. */
  function Write(m: Machine, address: int, v: int): Exec
  {
    if 0 <= address < |m.memory| then Exec(m.(memory := m.memory[address := v]), Running)
    else Exec(m, Threw(IndexOutOfRange))
  }

  /**
   * `GetNextArg(instruction)`: the word at the pointer, read by the mode its
   * distance from the opcode selects.  Only position and immediate modes
   * are known.
   */
  function NextArg(m: Machine, ins: Instruction): Read
  {
    var paramIndex := m.ip - (ins.location + 1);
    var w := NextWord(m);
    if w.result.Err? then w
    else if !(0 <= paramIndex < |ins.modes|) then Read(w.machine, Err(IndexOutOfRange))
    else if ins.modes[paramIndex] == POSITION then Read(w.machine, At(w.machine, w.result.value))
    else if ins.modes[paramIndex] == IMMEDIATE then w
    else Read(w.machine, Err(InvalidOperation))
  }

  /** `EvaluateInstruction`'s two operands, read left to right. */
  function EvalPair(m: Machine, ins: Instruction): PairRead
  {
    var x := NextArg(m, ins);
    if x.result.Err? then PairRead(x.machine, Err(x.result.error))
    else
      var y := NextArg(x.machine, ins);
      if y.result.Err? then PairRead(y.machine, Err(y.result.error))
      else PairRead(y.machine, Ok((x.result.value, y.result.value)))
  }

  /**
   * `ExecuteInstruction(instruction, Func<int, int, int>)` as written: the
   * destination word first, then both operands, then the store.
   */
  function Binary(a: Machine, ins: Instruction, op: int): Exec
  {
    var d := NextWord(a);
    if d.result.Err? then Exec(d.machine, Threw(d.result.error))
    else
      var p := EvalPair(d.machine, ins);
      if p.result.Err? then Exec(p.machine, Threw(p.result.error))
      else Write(p.machine, d.result.value, IntCode.Alu(op, p.result.value.0, p.result.value.1))
  }

  /**
   * `ExecuteInstruction(GetInput)`: the destination word, then
   * `Inputs[_inputIdx++]`, whose cursor moves on even when the list is
   * exhausted and the indexer throws.
   */
  function Input(a: Machine): Exec
  {
    var d := NextWord(a);
    if d.result.Err? then Exec(d.machine, Threw(d.result.error))
    else
      var m1 := d.machine.(inputIdx := a.inputIdx + 1);
      if a.inputIdx >= |a.inputs| then Exec(m1, Threw(ArgumentOutOfRange))
      else Write(m1, d.result.value, a.inputs[a.inputIdx])
  }

  /** The Store case: `SetOutput(Memory[Memory[IP++]])`, in position mode whatever the mode digit. */
  function Output(a: Machine): Exec
  {
    var w := NextWord(a);
    if w.result.Err? then Exec(w.machine, Threw(w.result.error))
    else
      var v := At(w.machine, w.result.value);
      if v.Err? then Exec(w.machine, Threw(v.error))
      else Exec(w.machine.(outputs := a.outputs + [v.value]), Running)
  }

  /** The jump lambdas: both operands are read, then the pointer is set to the second when the first tests as required. */
  function Jump(a: Machine, ins: Instruction, ifTrue: bool): Exec
  {
    var p := EvalPair(a, ins);
    if p.result.Err? then Exec(p.machine, Threw(p.result.error))
    else if (p.result.value.0 != 0) == ifTrue then Exec(p.machine.(ip := p.result.value.1), Running)
    else Exec(p.machine, Running)
  }

  /** `GetInstruction()`: the word at the pointer, decoded. */
  function Fetched(m: Machine): Instruction
    requires 0 <= m.ip < |m.memory|
  {
    Decoded(m.memory[m.ip], m.ip)
  }

  /** The machine after the fetch: step counted, pointer past the opcode. */
  function AfterFetch(m: Machine): Machine
  {
    m.(steps := Wrap32(m.steps + 1), ip := m.ip + 1)
  }

  /** The switch of the `Run` loop on the fetched opcode. */
  function Execute(a: Machine, ins: Instruction): Exec
  {
    var op := ins.opcode;
    if op == ADD || op == MUL || op == LESS_THAN || op == EQUALS then Binary(a, ins, op)
    else if op == LOAD then Input(a)
    else if op == STORE then Output(a)
    else if op == JMP_IF_TRUE || op == JMP_IF_FALSE then Jump(a, ins, op == JMP_IF_TRUE)
    else if op == HALT then Exec(a, Halted)
    else Exec(a, Threw(InvalidOperation))
  }

  /**
   * One pass of the `Run` loop: count the step, fetch the word at the
   * pointer (throwing outside the array, before the pointer moves), then
   * dispatch on its opcode.
   */
  function Step(m: Machine): Exec
  {
    if 0 <= m.ip < |m.memory| then Execute(AfterFetch(m), Fetched(m))
    else Exec(m.(steps := Wrap32(m.steps + 1)), Threw(IndexOutOfRange))
  }

  /** `Run(maxSteps)`: at most `n` passes; Halt returns and an exception ends the run. */
  function RunSteps(m: Machine, n: int): Exec
    decreases n, 0
  {
    if n <= 0 then Exec(m, Running)
    else RunAfter(Step(m), n - 1)
  }

  /** The rest of `Run` after a pass, with `n` passes left. */
  function RunAfter(s: Exec, n: int): Exec
    decreases n, 1
  {
    if s.status.Running? then RunSteps(s.machine, n) else s
  }

  // ----- the constructors' memory -----

  /** The copy of the initial state with the override pairs written in order. */
  function Overridden(memory: seq<int>, pairs: seq<(int, int)>): (r: seq<int>)
    requires forall k | 0 <= k < |pairs| :: 0 <= pairs[k].0 < |memory|
    ensures |r| == |memory|
  {
    if pairs == [] then memory
    else Overridden(memory, pairs[..|pairs| - 1])[pairs[|pairs| - 1].0 := pairs[|pairs| - 1].1]
  }

  /** The keys of a dictionary's pairs are distinct. */
  predicate DistinctKeys(pairs: seq<(int, int)>)
  {
    forall j, k | 0 <= j < k < |pairs| :: pairs[j].0 != pairs[k].0
  }

  /** Every overridden cell holds its pair's value; every other cell keeps the initial word. */
  lemma {:induction false} OverriddenCells(memory: seq<int>, pairs: seq<(int, int)>)
    requires forall k | 0 <= k < |pairs| :: 0 <= pairs[k].0 < |memory|
    requires DistinctKeys(pairs)
    ensures forall k | 0 <= k < |pairs| :: Overridden(memory, pairs)[pairs[k].0] == pairs[k].1
    ensures forall i | 0 <= i < |memory| && (forall k | 0 <= k < |pairs| :: pairs[k].0 != i) ::
      Overridden(memory, pairs)[i] == memory[i]
  {
    if pairs != [] {
      var init := pairs[..|pairs| - 1];
      assert forall k | 0 <= k < |init| :: init[k] == pairs[k];
      OverriddenCells(memory, init);
    }
  }

  // ----- the effect of one step -----

  /** The opcode at the pointer and the `k` words after it lie inside the array. */
  predicate WordsInside(m: Machine, k: nat)
  {
    0 <= m.ip && m.ip + k < |m.memory|
  }

  /** Word `k` after the opcode. */
  function Word(m: Machine, k: nat): int
    requires WordsInside(m, k)
  {
    m.memory[m.ip + k]
  }

  /** The mode digit of operand `k` of the instruction at the pointer. */
  function ModeOf(m: Machine, k: nat): int
    requires WordsInside(m, 0) && k < 4
  {
    Fetched(m).modes[k]
  }

  /** A word can be read with a mode: an immediate, or a position inside the array. */
  predicate OperandOk(memory: seq<int>, mode: int, word: int)
  {
    mode == IMMEDIATE || (mode == POSITION && 0 <= word < |memory|)
  }

  /** The value a word denotes when read with a mode. */
  function OperandValue(memory: seq<int>, mode: int, word: int): int
    requires OperandOk(memory, mode, word)
  {
    if mode == IMMEDIATE then word else memory[word]
  }

  /** Word `k + 1` can be read with mode `k`. */
  predicate Readable(m: Machine, k: nat)
    requires WordsInside(m, k + 1) && k < 4
  {
    OperandOk(m.memory, ModeOf(m, k), Word(m, k + 1))
  }

  /** The value word `k + 1` denotes when read with mode `k`. */
  function Arg(m: Machine, k: nat): int
    requires WordsInside(m, k + 1) && k < 4 && Readable(m, k)
  {
    OperandValue(m.memory, ModeOf(m, k), Word(m, k + 1))
  }

  /** Neither the input cursor nor the outputs moved. */
  predicate SameIo(a: Machine, b: Machine)
  {
    b.inputs == a.inputs && b.inputIdx == a.inputIdx && b.outputs == a.outputs
  }

  /** Reading operand `k` of `ins` from a pointer `k` words past its first operand. */
  lemma NextArgReads(m: Machine, ins: Instruction, k: nat)
    requires m.ip == ins.location + 1 + k && k < |ins.modes|
    requires 0 <= m.ip < |m.memory| && OperandOk(m.memory, ins.modes[k], m.memory[m.ip])
    ensures NextArg(m, ins) == Read(m.(ip := m.ip + 1), Ok(OperandValue(m.memory, ins.modes[k], m.memory[m.ip])))
  {
  }

  /** Reading operands `k` and `k + 1` of `ins` from a pointer `k` words past its first operand. */
  lemma EvalPairReads(m: Machine, ins: Instruction, k: nat)
    requires m.ip == ins.location + 1 + k && k + 1 < |ins.modes|
    requires 0 <= m.ip && m.ip + 1 < |m.memory|
    requires OperandOk(m.memory, ins.modes[k], m.memory[m.ip])
    requires OperandOk(m.memory, ins.modes[k + 1], m.memory[m.ip + 1])
    ensures EvalPair(m, ins) == PairRead(m.(ip := m.ip + 2), Ok((
      OperandValue(m.memory, ins.modes[k], m.memory[m.ip]),
      OperandValue(m.memory, ins.modes[k + 1], m.memory[m.ip + 1]))))
  {
    NextArgReads(m, ins, k);
    NextArgReads(m.(ip := m.ip + 1), ins, k + 1);
  }

  /**
   * Add, Mul, LessThan and Equals as written: the destination is the word
   * right after the opcode, the operands are words two and three read with
   * modes 1 and 2, and the pointer moves on by four.  A destination outside
   * the array throws once both operands were read.
   */
  lemma StepArithmetic(m: Machine)
    requires WordsInside(m, 3) && Fetched(m).opcode in {ADD, MUL, LESS_THAN, EQUALS}
    requires Readable(m, 1) && Readable(m, 2)
    ensures var s := Step(m);
      var dest := Word(m, 1);
      var v := IntCode.Alu(Fetched(m).opcode, Arg(m, 1), Arg(m, 2));
      s.machine.ip == m.ip + 4 && s.machine.steps == Wrap32(m.steps + 1) && SameIo(m, s.machine) &&
      (0 <= dest < |m.memory| ==> s.status == Running && s.machine.memory == m.memory[dest := v]) &&
      (!(0 <= dest < |m.memory|) ==> s.status == Threw(IndexOutOfRange) && s.machine.memory == m.memory)
  {
    var a, ins := AfterFetch(m), Fetched(m);
    assert Step(m) == Binary(a, ins, ins.opcode);
    EvalPairReads(NextWord(a).machine, ins, 1);
  }

  /** An operand with a mode other than position or immediate throws `InvalidOperationException`. */
  lemma StepUnknownMode(m: Machine)
    requires WordsInside(m, 3) && Fetched(m).opcode in {ADD, MUL, LESS_THAN, EQUALS}
    requires ModeOf(m, 1) != POSITION && ModeOf(m, 1) != IMMEDIATE
    ensures Step(m).status == Threw(InvalidOperation)
  {
    var a, ins := AfterFetch(m), Fetched(m);
    assert Step(m) == Binary(a, ins, ins.opcode);
  }

  /**
   * Load writes the input under the cursor to the address in the next word
   * and advances the cursor; an exhausted list throws
   * `ArgumentOutOfRangeException`, after the cursor moved.
   */
  lemma StepInput(m: Machine)
    requires WordsInside(m, 1) && Fetched(m).opcode == LOAD
    ensures var s := Step(m);
      var dest := Word(m, 1);
      s.machine.ip == m.ip + 2 && s.machine.steps == Wrap32(m.steps + 1) &&
      s.machine.inputs == m.inputs && s.machine.inputIdx == m.inputIdx + 1 && s.machine.outputs == m.outputs &&
      (m.inputIdx >= |m.inputs| ==> s.status == Threw(ArgumentOutOfRange) && s.machine.memory == m.memory) &&
      (m.inputIdx < |m.inputs| && 0 <= dest < |m.memory| ==>
        s.status == Running && s.machine.memory == m.memory[dest := m.inputs[m.inputIdx]]) &&
      (m.inputIdx < |m.inputs| && !(0 <= dest < |m.memory|) ==>
        s.status == Threw(IndexOutOfRange) && s.machine.memory == m.memory)
  {
    assert Step(m) == Input(AfterFetch(m));
  }

  /** Store outputs the word the next word points at, whatever its mode digit says. */
  lemma StepOutput(m: Machine)
    requires WordsInside(m, 1) && Fetched(m).opcode == STORE
    ensures var s := Step(m);
      var at := Word(m, 1);
      s.machine.ip == m.ip + 2 && s.machine.steps == Wrap32(m.steps + 1) && s.machine.memory == m.memory &&
      s.machine.inputs == m.inputs && s.machine.inputIdx == m.inputIdx &&
      (0 <= at < |m.memory| ==> s.status == Running && s.machine.outputs == m.outputs + [m.memory[at]]) &&
      (!(0 <= at < |m.memory|) ==> s.status == Threw(IndexOutOfRange) && s.machine.outputs == m.outputs)
  {
    assert Step(m) == Output(AfterFetch(m));
  }

  /** JmpIfTrue and JmpIfFalse set the pointer to the second operand when the first is nonzero, resp. zero; otherwise they advance by three. */
  lemma StepJump(m: Machine)
    requires WordsInside(m, 2) && Fetched(m).opcode in {JMP_IF_TRUE, JMP_IF_FALSE}
    requires Readable(m, 0) && Readable(m, 1)
    ensures var s := Step(m);
      var taken := (Arg(m, 0) != 0) == (Fetched(m).opcode == JMP_IF_TRUE);
      s.status == Running && s.machine.memory == m.memory && SameIo(m, s.machine) &&
      s.machine.steps == Wrap32(m.steps + 1) &&
      s.machine.ip == if taken then Arg(m, 1) else m.ip + 3
  {
    var a, ins := AfterFetch(m), Fetched(m);
    assert Step(m) == Jump(a, ins, ins.opcode == JMP_IF_TRUE);
    EvalPairReads(a, ins, 0);
  }

  /** Halt counts its step, moves past itself and returns. */
  lemma StepHalt(m: Machine)
    requires WordsInside(m, 0) && Fetched(m).opcode == HALT
    ensures Step(m) == Exec(AfterFetch(m), Halted)
  {
  }

  /** A pointer outside the array throws `IndexOutOfRangeException` at the fetch, after the step was counted. */
  lemma StepOutsideMemory(m: Machine)
    requires !WordsInside(m, 0)
    ensures Step(m) == Exec(m.(steps := Wrap32(m.steps + 1)), Threw(IndexOutOfRange))
  {
  }

  /** An opcode outside the instruction set throws `InvalidOperationException`. */
  lemma StepUnknownOpcode(m: Machine)
    requires WordsInside(m, 0)
    requires Fetched(m).opcode !in {ADD, MUL, LOAD, STORE, JMP_IF_TRUE, JMP_IF_FALSE, LESS_THAN, EQUALS, HALT}
    ensures Step(m) == Exec(AfterFetch(m), Threw(InvalidOperation))
  {
  }

  // ----- properties of runs -----

  /**
   * `b` is a later state of the machine that `a` was: the array has the
   * same length, the input list is the same and the cursor has not moved
   * back, and the outputs only grew.
   */
  predicate Follows(a: Machine, b: Machine)
  {
    |b.memory| == |a.memory| && b.inputs == a.inputs && a.inputIdx <= b.inputIdx && a.outputs <= b.outputs
  }

  lemma NextWordFollows(m: Machine)
    ensures Follows(m, NextWord(m).machine)
  {
  }

  lemma NextArgFollows(m: Machine, ins: Instruction)
    ensures Follows(m, NextArg(m, ins).machine)
  {
  }

  lemma EvalPairFollows(m: Machine, ins: Instruction)
    ensures Follows(m, EvalPair(m, ins).machine)
  {
    NextArgFollows(m, ins);
    NextArgFollows(NextArg(m, ins).machine, ins);
  }

  /** Each instruction, once fetched, keeps the machine a later state of itself. */
  lemma ExecuteFollows(a: Machine, ins: Instruction)
    ensures Follows(a, Execute(a, ins).machine) && Execute(a, ins).machine.steps == a.steps
  {
    var op := ins.opcode;
    if op == ADD || op == MUL || op == LESS_THAN || op == EQUALS {
      EvalPairFollows(NextWord(a).machine, ins);
      assert Follows(a, Binary(a, ins, op).machine);
    } else if op == JMP_IF_TRUE || op == JMP_IF_FALSE {
      EvalPairFollows(a, ins);
      assert Follows(a, Jump(a, ins, op == JMP_IF_TRUE).machine);
    } else if op == LOAD {
      assert Follows(a, Input(a).machine);
    } else if op == STORE {
      assert Follows(a, Output(a).machine);
    }
  }

  /** A step never resizes the memory, never rewinds the input cursor and only appends outputs. */
  lemma StepFollows(m: Machine)
    ensures Follows(m, Step(m).machine)
  {
    if WordsInside(m, 0) {
      var a := AfterFetch(m);
      assert Step(m) == Execute(a, Fetched(m));
      ExecuteFollows(a, Fetched(m));
    }
  }

  /** Every pass counts itself in `StepCount`, in unchecked arithmetic. */
  lemma StepCounts(m: Machine)
    ensures Step(m).machine.steps == Wrap32(m.steps + 1)
  {
    if WordsInside(m, 0) {
      var a := AfterFetch(m);
      assert Step(m) == Execute(a, Fetched(m));
      ExecuteFollows(a, Fetched(m));
    }
  }

  /** A run does the same as its steps. */
  lemma {:induction false} RunStepsFollows(m: Machine, n: int)
    ensures Follows(m, RunSteps(m, n).machine)
    decreases n, 0
  {
    if n > 0 {
      StepFollows(m);
      RunAfterFollows(Step(m), n - 1);
    }
  }

  lemma {:induction false} RunAfterFollows(s: Exec, n: int)
    ensures Follows(s.machine, RunAfter(s, n).machine)
    decreases n, 1
  {
    if s.status.Running? {
      RunStepsFollows(s.machine, n);
    }
  }

  /** A step that returned was the Halt right before the pointer, and changed nothing else. */
  lemma StepHalted(m: Machine)
    requires Step(m).status == Halted
    ensures var h := Step(m).machine;
      WordsInside(m, 0) && Fetched(m).opcode == HALT && h == AfterFetch(m)
  {
  }

  /** The pointer of a halted machine is one past a Halt instruction. */
  predicate HaltedAt(m: Machine)
  {
    1 <= m.ip <= |m.memory| && Decoded(m.memory[m.ip - 1], m.ip - 1).opcode == HALT
  }

  /**
   * `Run(n)` makes at most `n` passes, each counted in `StepCount`, and
   * makes all `n` unless it returned at a Halt or threw.
   */
  lemma {:induction false} RunStepBound(m: Machine, n: int)
    requires 0 <= m.steps && m.steps + (if n > 0 then n else 0) < TWO_31
    ensures var r := RunSteps(m, n);
      m.steps <= r.machine.steps <= m.steps + (if n > 0 then n else 0) &&
      (r.status == Running ==> r.machine.steps == m.steps + (if n > 0 then n else 0))
    decreases n, 0
  {
    if n > 0 {
      assert Step(m).machine.steps == m.steps + 1 by { StepCounts(m); }
      RunAfterBound(Step(m), n - 1);
    }
  }

  lemma {:induction false} RunAfterBound(s: Exec, n: int)
    requires 0 <= s.machine.steps && s.machine.steps + (if n > 0 then n else 0) < TWO_31
    ensures var r := RunAfter(s, n);
      s.machine.steps <= r.machine.steps <= s.machine.steps + (if n > 0 then n else 0) &&
      (r.status == Running ==> r.machine.steps == s.machine.steps + (if n > 0 then n else 0))
    decreases n, 1
  {
    if s.status.Running? {
      RunStepBound(s.machine, n);
    }
  }

  /** A run that returned before its budget was spent stopped right after a Halt. */
  lemma {:induction false} RunHalted(m: Machine, n: int)
    ensures RunSteps(m, n).status == Halted ==> HaltedAt(RunSteps(m, n).machine)
    decreases n, 0
  {
    if n > 0 {
      StepHaltedAt(m);
      RunAfterHalted(Step(m), n - 1);
    }
  }

  /** A step that returned leaves the pointer right after the Halt it fetched. */
  lemma StepHaltedAt(m: Machine)
    ensures Step(m).status == Halted ==> HaltedAt(Step(m).machine)
  {
    if Step(m).status == Halted {
      StepHalted(m);
    }
  }

  lemma {:induction false} RunAfterHalted(s: Exec, n: int)
    requires s.status == Halted ==> HaltedAt(s.machine)
    ensures RunAfter(s, n).status == Halted ==> HaltedAt(RunAfter(s, n).machine)
    decreases n, 1
  {
    if s.status.Running? {
      RunHalted(s.machine, n);
    }
  }

  // ----- the evidently intended order -----

  /**
   * Two-operand instructions in the order the dictionary machine uses:
   * both operands first, from the first two words with modes 0 and 1, then
   * the destination from the third word.
   */
  function BinaryOperandsFirst(a: Machine, ins: Instruction, op: int): Exec
  {
    var p := EvalPair(a, ins);
    if p.result.Err? then Exec(p.machine, Threw(p.result.error))
    else
      var d := NextWord(p.machine);
      if d.result.Err? then Exec(d.machine, Threw(d.result.error))
      else Write(d.machine, d.result.value, IntCode.Alu(op, p.result.value.0, p.result.value.1))
  }

  /** In that order the operands are words one and two and the destination is word three. */
  lemma OperandsFirstArithmetic(m: Machine)
    requires WordsInside(m, 3) && Readable(m, 0) && Readable(m, 1)
    requires 0 <= Word(m, 3) < |m.memory|
    ensures var s := BinaryOperandsFirst(AfterFetch(m), Fetched(m), Fetched(m).opcode);
      s.status == Running && s.machine.ip == m.ip + 4 && SameIo(m, s.machine) &&
      s.machine.memory == m.memory[Word(m, 3) := IntCode.Alu(Fetched(m).opcode, Arg(m, 0), Arg(m, 1))]
  {
    EvalPairReads(AfterFetch(m), Fetched(m), 0);
  }

  /** `{ 2, 4, 4, 5, 99, 0 }`, which should square the word at index 4 into index 5. */
  function SquareProgram(): seq<int>
  {
    [2, 4, 4, 5, 99, 0]
  }

  /** A machine about to run the square program from its start. */
  predicate AtSquareProgram(m: Machine)
  {
    m.memory == SquareProgram() && m.ip == 0
  }

  /** The first word of the program is Mul with all modes position. */
  lemma SquareProgramFetch(m: Machine)
    requires AtSquareProgram(m)
    ensures WordsInside(m, 3) && Fetched(m) == Instruction(MUL, [0, 0, 0, 0], 0)
  {
    assert m.memory[m.ip] == 2;
    DecodeEncode(MUL, [0, 0, 0, 0], 0);
    assert Encode(MUL, [0, 0, 0, 0]) == 2;
    assert Fetched(m) == Decoded(2, 0);
  }

  /** As written, Mul takes index 4 as its destination and multiplies the words at 4 and 5, writing 0 over the Halt. */
  lemma SquareProgramFirstStep(m: Machine)
    requires AtSquareProgram(m)
    ensures var s := Step(m);
      s.status == Running && s.machine.memory == [2, 4, 4, 5, 0, 0] && s.machine.ip == 4
  {
    SquareProgramFetch(m);
    assert Readable(m, 1) && Arg(m, 1) == 99;
    assert Readable(m, 2) && Arg(m, 2) == 0;
    StepArithmetic(m);
  }

  /** The overwritten Halt is now opcode 0, which throws. */
  lemma SquareProgramSecondStep(m: Machine)
    requires m.memory == [2, 4, 4, 5, 0, 0] && m.ip == 4
    ensures Step(m).status == Threw(InvalidOperation)
  {
    assert m.memory[m.ip] == 0;
    assert Fetched(m).opcode == 0 by {
      assert Div(0, 100) == 0;
    }
    StepUnknownOpcode(m);
  }

  /** So the program, run as written, throws on its second pass instead of halting. */
  lemma SquareProgramAsWritten(m: Machine)
    requires AtSquareProgram(m)
    ensures RunSteps(m, 2).status == Threw(InvalidOperation)
  {
    SquareProgramFirstStep(m);
    var s := Step(m);
    SquareProgramSecondStep(s.machine);
    assert RunSteps(m, 2) == RunAfter(s, 1);
    assert RunSteps(s.machine, 1) == RunAfter(Step(s.machine), 0);
  }

  /** With the operands read first, the same word squares 99 into index 5. */
  lemma SquareProgramOperandsFirst(m: Machine)
    requires AtSquareProgram(m)
    ensures BinaryOperandsFirst(AfterFetch(m), Fetched(m), MUL).machine.memory == [2, 4, 4, 5, 99, 9801]
  {
    SquareProgramFetch(m);
    assert Readable(m, 0) && Arg(m, 0) == 99;
    assert Readable(m, 1) && Arg(m, 1) == 99;
    OperandsFirstArithmetic(m);
  }

  // ----- the machine object -----

  /** The root `IntCodeComputer` with its fields; `Memory` is the array, never replaced after construction. */
  class ArrayIntCodeComputer {
    const memory: array<int>
    var ip: int
    var steps: int
    var inputs: seq<int>
    var inputIdx: nat
    var outputs: seq<int>

    function State(): Machine
      reads this, memory
    {
      Machine(memory[..], ip, steps, inputs, inputIdx, outputs)
    }

    /** `IntCodeComputer(initialState)`: the memory is a new array holding a copy of the initial state. */
    constructor (initialState: array<int>)
      ensures State() == Initial(initialState[..]) && fresh(memory)
    {
      memory := new int[initialState.Length](i requires 0 <= i < initialState.Length reads initialState => initialState[i]);
      ip, steps := 0, 0;
      inputs, inputIdx, outputs := [], 0, [];
    }

    /**
     * `IntCodeComputer(initialState, stateOverride)`, the dictionary given
     * as its pairs in enumeration order, every key inside the array.
     */
    constructor WithOverride(initialState: array<int>, stateOverride: seq<(int, int)>)
      requires forall k | 0 <= k < |stateOverride| :: 0 <= stateOverride[k].0 < initialState.Length
      ensures State() == Initial(Overridden(initialState[..], stateOverride)) && fresh(memory)
    {
      memory := new int[initialState.Length](i requires 0 <= i < initialState.Length reads initialState => initialState[i]);
      ip, steps := 0, 0;
      inputs, inputIdx, outputs := [], 0, [];
      new;
      var i := 0;
      while i < |stateOverride|
        invariant 0 <= i <= |stateOverride|
        invariant State() == Initial(Overridden(initialState[..], stateOverride[..i]))
      {
        assert stateOverride[..i + 1][..i] == stateOverride[..i];
        memory[stateOverride[i].0] := stateOverride[i].1;
        i := i + 1;
      }
      assert stateOverride[..i] == stateOverride;
    }

    /** `Memory[InstructionPointer++]`. */
    method NextWordRead() returns (r: Result<int>)
      modifies this
      ensures Read(State(), r) == NextWord(old(State()))
    {
      var at := ip;
      ip := ip + 1;
      if 0 <= at < memory.Length {
        r := Ok(memory[at]);
      } else {
        r := Err(IndexOutOfRange);
      }
    }

    /** `Memory[address] = v`. */
    method WriteCell(address: int, v: int) returns (o: Status)
      modifies memory
      ensures Exec(State(), o) == Write(old(State()), address, v)
    {
      if 0 <= address < memory.Length {
        memory[address] := v;
        o := Running;
      } else {
        o := Threw(IndexOutOfRange);
      }
    }

    /** `GetNextArg(instruction)`. */
    method GetNextArg(ins: Instruction) returns (r: Result<int>)
      modifies this
      ensures Read(State(), r) == NextArg(old(State()), ins)
    {
      var paramIndex := ip - (ins.location + 1);
      var argument := NextWordRead();
      if argument.Err? {
        return argument;
      }
      if !(0 <= paramIndex < |ins.modes|) {
        return Err(IndexOutOfRange);
      }
      var mode := ins.modes[paramIndex];
      if mode == POSITION {
        if 0 <= argument.value < memory.Length {
          r := Ok(memory[argument.value]);
        } else {
          r := Err(IndexOutOfRange);
        }
      } else if mode == IMMEDIATE {
        r := argument;
      } else {
        r := Err(InvalidOperation);
      }
    }

    /** `EvaluateInstruction`: both operands, left to right. */
    method EvaluateInstruction(ins: Instruction) returns (r: Result<(int, int)>)
      modifies this
      ensures PairRead(State(), r) == EvalPair(old(State()), ins)
    {
      var x := GetNextArg(ins);
      if x.Err? {
        return Err(x.error);
      }
      var y := GetNextArg(ins);
      if y.Err? {
        return Err(y.error);
      }
      r := Ok((x.value, y.value));
    }

    /** `ExecuteInstruction(instruction, Func<int, int, int>)`. */
    method ExecuteInstruction(ins: Instruction, op: int) returns (o: Status)
      modifies this, memory
      ensures Exec(State(), o) == Binary(old(State()), ins, op)
    {
      var location := NextWordRead();
      if location.Err? {
        return Threw(location.error);
      }
      var xy := EvaluateInstruction(ins);
      if xy.Err? {
        return Threw(xy.error);
      }
      o := WriteCell(location.value, IntCode.Alu(op, xy.value.0, xy.value.1));
    }

    /** `ExecuteInstruction(GetInput)`. */
    method ExecuteInput() returns (o: Status)
      modifies this, memory
      ensures Exec(State(), o) == Input(old(State()))
    {
      var location := NextWordRead();
      if location.Err? {
        return Threw(location.error);
      }
      var idx := inputIdx;
      inputIdx := inputIdx + 1;
      if idx >= |inputs| {
        return Threw(ArgumentOutOfRange);
      }
      o := WriteCell(location.value, inputs[idx]);
    }

    /** The Store case of `Run`. */
    method StoreOutput() returns (o: Status)
      modifies this
      ensures Exec(State(), o) == Output(old(State()))
    {
      var arg0 := NextWordRead();
      if arg0.Err? {
        return Threw(arg0.error);
      }
      if !(0 <= arg0.value < memory.Length) {
        return Threw(IndexOutOfRange);
      }
      outputs := outputs + [memory[arg0.value]];
      o := Running;
    }

    /** `EvaluateInstruction` with the jump lambdas. */
    method ExecuteJump(ins: Instruction, ifTrue: bool) returns (o: Status)
      modifies this
      ensures Exec(State(), o) == Jump(old(State()), ins, ifTrue)
    {
      var xy := EvaluateInstruction(ins);
      if xy.Err? {
        return Threw(xy.error);
      }
      if (xy.value.0 != 0) == ifTrue {
        ip := xy.value.1;
      }
      o := Running;
    }

    /** The body of the `Run` loop: count, fetch with `GetInstruction`, and switch. */
    method RunOnce() returns (o: Status)
      modifies this, memory
      ensures Exec(State(), o) == Step(old(State()))
    {
      steps := Wrap32(steps + 1);
      if !(0 <= ip < memory.Length) {
        return Threw(IndexOutOfRange);
      }
      var ins := Decode(memory[ip], ip);
      ip := ip + 1;
      var op := ins.opcode;
      if op == ADD || op == MUL || op == LESS_THAN || op == EQUALS {
        o := ExecuteInstruction(ins, op);
      } else if op == LOAD {
        o := ExecuteInput();
      } else if op == STORE {
        o := StoreOutput();
      } else if op == JMP_IF_TRUE || op == JMP_IF_FALSE {
        o := ExecuteJump(ins, op == JMP_IF_TRUE);
      } else if op == HALT {
        o := Halted;
      } else {
        o := Threw(InvalidOperation);
      }
    }

    /** `Run(maxSteps)`: returns normally at Halt or when the budget is spent, and throws otherwise. */
    method Run(maxSteps: int) returns (o: Outcome)
      modifies this, memory
      ensures var r := RunSteps(old(State()), maxSteps);
        State() == r.machine && o == if r.status.Threw? then Fail(r.status.error) else Pass
    {
      var n := maxSteps;
      while n > 0
        invariant RunSteps(State(), n) == RunSteps(old(State()), maxSteps)
        decreases n
      {
        var s := RunOnce();
        n := n - 1;
        if !s.Running? {
          return if s.Threw? then Fail(s.error) else Pass;
        }
      }
      o := Pass;
    }
  }
}
