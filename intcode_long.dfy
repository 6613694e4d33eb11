/**
 * `LongCodeComputer`: the IntCode machine over 64-bit words.  The state has
 * the shape of `Core.IntCodeComputer`'s (addresses, the instruction
 * pointer, the step count and the relative base stay 32-bit `int`s), so
 * the machine value, the memory dictionary and its lemmas are the ones of
 * module `IntCode`; what differs is the instruction semantics:
 *
 *  - every operand word is narrowed to `int` by an unchecked `(int)` cast
 *    before it is used, immediate values included;
 *  - Add and Mul are `checked`: a result outside the 64-bit range throws
 *    `OverflowException` instead of wrapping;
 *  - destination addresses go through `GetNextAddr`, so a write honours
 *    relative mode and refuses immediate mode;
 *  - jump targets and the new relative base are narrowed to `int`.
 *
 * Memory values, inputs and outputs are 64-bit; the functions below do not
 * need that bound, and the checked arithmetic keeps it for what they write.
 */
module LongCode {

  import opened Wrappers
  import opened IntWidths
  import opened IntCodeDecoding
  import IntCode

  // ----- operands and destinations -----

  /** The `(int)` cast of the operand word at the instruction pointer. */
  function Word(m: IntCode.Machine): int
  {
    Wrap32(IntCode.Peek(m, m.ip))
  }

  /** The value an operand denotes in a readable mode, the word already narrowed. */
  function Operand(m: IntCode.Machine, mode: int, argument: int): int
  {
    if mode == POSITION then IntCode.Peek(m, argument)
    else if mode == RELATIVE then IntCode.Peek(m, Wrap32(m.relativeBase + argument))
    else argument
  }

  /**
   * `GetNextArg`: fetch the operand word (creating it if unset), advance,
   * narrow the word to `int` and read it by its mode.
   */
  function NextArg(m: IntCode.Machine): (r: IntCode.Read)
    ensures r.machine.ip == Wrap32(m.ip + 1) && IntCode.SameRegisters(m, r.machine)
    ensures IntCode.ModeReadable(m) ==> r.result == Ok(Operand(m, m.current.modes[IntCode.ParamIndex(m)], Word(m)))
    ensures !IntCode.ModeReadable(m) ==> r.result.Err?
  {
    var paramIndex := IntCode.ParamIndex(m);
    var argument := Word(m);
    var m1 := IntCode.Touch(m.(ip := Wrap32(m.ip + 1)), m.ip);
    if !(0 <= paramIndex < |m.current.modes|) then IntCode.Read(m1, Err(IndexOutOfRange))
    else
      var mode := m.current.modes[paramIndex];
      if mode == IMMEDIATE then IntCode.Read(m1, Ok(argument))
      else if mode == POSITION || mode == RELATIVE then
        var address := if mode == POSITION then argument else Wrap32(m1.relativeBase + argument);
        IntCode.Read(IntCode.Touch(m1, address), Ok(IntCode.Peek(m1, address)))
      else IntCode.Read(m1, Err(InvalidOperation))
  }

  /** A mode `GetNextAddr` accepts: immediate mode has no address. */
  predicate WriteMode(mode: int)
  {
    mode == POSITION || mode == RELATIVE
  }

  /** The address a destination word denotes: the raw word, or the word plus the relative base. */
  function Address(m: IntCode.Machine, mode: int, argument: int): int
  {
    if mode == POSITION then argument else Wrap32(m.relativeBase + argument)
  }

  /**
   * `GetNextAddr`: fetch the destination word (creating it if unset),
   * advance, and turn it into an address by its mode; any other mode,
   * immediate included, throws `InvalidOperationException`.
   */
  function NextAddr(m: IntCode.Machine): (r: IntCode.Read)
    ensures r.machine.ip == Wrap32(m.ip + 1) && IntCode.SameRegisters(m, r.machine)
    ensures r.machine == IntCode.Touch(m.(ip := Wrap32(m.ip + 1)), m.ip)
    ensures (0 <= IntCode.ParamIndex(m) < |m.current.modes| && WriteMode(m.current.modes[IntCode.ParamIndex(m)])) <==> r.result.Ok?
    ensures r.result.Ok? ==> r.result.value == Address(m, m.current.modes[IntCode.ParamIndex(m)], Word(m))
    ensures r.result.Err? && 0 <= IntCode.ParamIndex(m) < |m.current.modes| ==> r.result.error == InvalidOperation
  {
    var paramIndex := IntCode.ParamIndex(m);
    var argument := Word(m);
    var m1 := IntCode.Touch(m.(ip := Wrap32(m.ip + 1)), m.ip);
    if !(0 <= paramIndex < |m.current.modes|) then IntCode.Read(m1, Err(IndexOutOfRange))
    else
      var mode := m.current.modes[paramIndex];
      if mode == POSITION then IntCode.Read(m1, Ok(argument))
      else if mode == RELATIVE then IntCode.Read(m1, Ok(Wrap32(m1.relativeBase + argument)))
      else IntCode.Read(m1, Err(InvalidOperation))
  }

  /** `EvaluateInstruction`'s two operands, read left to right. */
  function EvalPair(m: IntCode.Machine): (r: IntCode.PairRead)
    ensures IntCode.SameRegisters(m, r.machine)
  {
    var a := NextArg(m);
    if a.result.Err? then IntCode.PairRead(a.machine, Err(a.result.error))
    else
      var b := NextArg(a.machine);
      if b.result.Err? then IntCode.PairRead(b.machine, Err(b.result.error))
      else IntCode.PairRead(b.machine, Ok((a.result.value, b.result.value)))
  }

  // ----- instructions -----

  /** A `checked` 64-bit result: the value itself, or `OverflowException` outside the range. */
  function Checked64(x: int): (r: Result<int>)
    ensures r.Ok? <==> IsInt64(x)
    ensures r.Ok? ==> r.value == x
    ensures r.Err? ==> r.error == Overflow
  {
    if IsInt64(x) then Ok(x) else Err(Overflow)
  }

  /** The value the two-operand instructions compute; `+` and `*` are checked. */
  function Alu(op: int, a: int, b: int): Result<int>
  {
    if op == ADD then Checked64(a + b)
    else if op == MUL then Checked64(a * b)
    else if op == LESS_THAN then Ok(if a < b then 1 else 0)
    else Ok(if a == b then 1 else 0)
  }

  /**
   * `ExecuteInstruction(instruction, Func<long, long, long>)`: both operands
   * are read and the action runs (a checked overflow throws here), and only
   * then is the destination word fetched and turned into an address.
   */
  function Binary(m: IntCode.Machine, op: int): IntCode.Exec
  {
    var p := EvalPair(m);
    if p.result.Err? then IntCode.Exec(p.machine, Fail(p.result.error))
    else Complete(p.machine, Alu(op, p.result.value.0, p.result.value.1))
  }

  /** After the operands: a failed checked action throws, a value is written back. */
  function Complete(m: IntCode.Machine, v: Result<int>): IntCode.Exec
  {
    if v.Err? then IntCode.Exec(m, Fail(v.error)) else WriteTo(m, v.value)
  }

  /** `var resultAddress = GetNextAddr(...); _memory[resultAddress] = v;`. */
  function WriteTo(m: IntCode.Machine, v: int): IntCode.Exec
  {
    var d := NextAddr(m);
    if d.result.Err? then IntCode.Exec(d.machine, Fail(d.result.error))
    else IntCode.Exec(IntCode.Put(d.machine, d.result.value, v), Pass)
  }

  /**
   * `ExecuteInstruction(GetInput)`: the destination address comes first,
   * then the input queue is dequeued, which throws when empty.
   */
  function Input(m: IntCode.Machine): IntCode.Exec
  {
    var d := NextAddr(m);
    var m1 := d.machine;
    if d.result.Err? then IntCode.Exec(m1, Fail(d.result.error))
    else if m1.inputs == [] then IntCode.Exec(m1, Fail(InvalidOperation))
    else IntCode.Exec(IntCode.Put(m1.(inputs := m1.inputs[1..]), d.result.value, m1.inputs[0]), Pass)
  }

  /**
   * `ExecuteInstruction(instruction, Action<long>)`: output the operand, or
   * set the relative base to `(int)(_relativeBase + a)`, a 64-bit sum cast to `int`.
   */
  function Action(m: IntCode.Machine, op: int): IntCode.Exec
  {
    var a := NextArg(m);
    var m1 := a.machine;
    if a.result.Err? then IntCode.Exec(m1, Fail(a.result.error))
    else if op == STORE then IntCode.Exec(m1.(outputs := m1.outputs + [a.result.value]), Pass)
    else IntCode.Exec(m1.(relativeBase := Wrap32(Wrap64(m1.relativeBase + a.result.value))), Pass)
  }

  /** The conditional jumps: the target is the second operand cast to `int`. */
  function Jump(m: IntCode.Machine, ifTrue: bool): IntCode.Exec
  {
    var p := EvalPair(m);
    if p.result.Err? then IntCode.Exec(p.machine, Fail(p.result.error))
    else if (p.result.value.0 != 0) == ifTrue then IntCode.Exec(p.machine.(ip := Wrap32(p.result.value.1)), Pass)
    else IntCode.Exec(p.machine, Pass)
  }

  /** The switch of `ExecuteStep` on the opcode of the instruction just fetched. */
  function Execute(a: IntCode.Machine): (r: IntCode.Exec)
    ensures r.machine.steps == a.steps && r.machine.current == a.current
  {
    var op := a.current.opcode;
    if op == ADD || op == MUL || op == LESS_THAN || op == EQUALS then Binary(a, op)
    else if op == LOAD then Input(a)
    else if op == STORE || op == SET_RELATIVE_BASE then Action(a, op)
    else if op == JMP_IF_TRUE || op == JMP_IF_FALSE then Jump(a, op == JMP_IF_TRUE)
    else if op == HALT then IntCode.Exec(a, Pass)
    else IntCode.Exec(a, Fail(InvalidOperation))
  }

  /** `ExecuteStep`: count the step, fetch and decode (throwing on an unset cell), then dispatch. */
  function Step(m: IntCode.Machine): IntCode.Exec
  {
    if m.ip !in m.store.cells then IntCode.Exec(m.(steps := Wrap32(m.steps + 1)), Fail(KeyNotFound))
    else Execute(IntCode.AfterFetch(m))
  }

  /** `Run(maxSteps)`: step until the budget is spent or the current instruction is Halt; an exception ends the run. */
  function RunSteps(m: IntCode.Machine, n: int): IntCode.Exec
    decreases n, 0
  {
    if n <= 0 || m.current.opcode == HALT then IntCode.Exec(m, Pass)
    else RunAfter(Step(m), n - 1)
  }

  /** The rest of `Run` after a step. */
  function RunAfter(s: IntCode.Exec, n: int): IntCode.Exec
    decreases n, 1
  {
    if s.outcome.Fail? then s else RunSteps(s.machine, n)
  }

  /** The loop of `RunWith`, cut off after `fuel` steps. */
  function RunUntilOutput(m: IntCode.Machine, fuel: nat): IntCode.Ran
    decreases fuel, 0
  {
    if m.current.opcode == HALT then IntCode.Ran(m, Ok(None))
    else if fuel == 0 then IntCode.Ran(m, Err(OutOfFuel))
    else RunUntilOutputAfter(Step(m), fuel - 1)
  }

  /** The rest of `RunWith` after a step: after Store the front of the output queue is dequeued and returned. */
  function RunUntilOutputAfter(s: IntCode.Exec, fuel: nat): IntCode.Ran
    decreases fuel, 1
  {
    var m1 := s.machine;
    if s.outcome.Fail? then IntCode.Ran(m1, Err(s.outcome.error))
    else if m1.current.opcode == STORE then
      if m1.outputs == [] then IntCode.Ran(m1, Err(InvalidOperation))
      else IntCode.Ran(m1.(outputs := m1.outputs[1..]), Ok(Some(m1.outputs[0])))
    else RunUntilOutput(m1, fuel)
  }

  /** `RunWith(input)`: enqueue the input, then run until an output or Halt. */
  function RunWithInput(m: IntCode.Machine, input: int, fuel: nat): IntCode.Ran
  {
    RunUntilOutput(m.(inputs := m.inputs + [input]), fuel)
  }

  // ----- the memory across a step -----

  /** Reading an operand creates cells but changes what no cell reads as. */
  lemma NextArgCells(m: IntCode.Machine)
    ensures IntCode.Agrees(m, NextArg(m).machine)
  {
    var m0 := m.(ip := Wrap32(m.ip + 1));
    IntCode.TouchCells(m0, m.ip);
    var m1 := IntCode.Touch(m0, m.ip);
    IntCode.TouchCells(m1, Word(m));
    IntCode.TouchCells(m1, Wrap32(m1.relativeBase + Word(m)));
  }

  lemma NextArgValid(m: IntCode.Machine)
    requires IntCode.Valid(m)
    ensures IntCode.Valid(NextArg(m).machine)
  {
    var m0 := m.(ip := Wrap32(m.ip + 1));
    var m1 := IntCode.Touch(m0, m.ip);
    assert IntCode.Valid(m1) by { IntCode.TouchValid(m0, m.ip); }
    forall address ensures IntCode.Valid(IntCode.Touch(m1, address)) {
      IntCode.TouchValid(m1, address);
    }
  }

  lemma EvalPairValid(m: IntCode.Machine)
    requires IntCode.Valid(m)
    ensures IntCode.Valid(EvalPair(m).machine)
  {
    NextArgValid(m);
    NextArgValid(NextArg(m).machine);
  }

  lemma WriteToValid(m: IntCode.Machine, v: int)
    requires IntCode.Valid(m)
    ensures IntCode.Valid(WriteTo(m, v).machine)
  {
    var d := NextAddr(m);
    IntCode.TouchValid(m.(ip := Wrap32(m.ip + 1)), m.ip);
    if d.result.Ok? {
      IntCode.PutValid(d.machine, d.result.value, v);
    }
  }

  lemma BinaryValid(a: IntCode.Machine, op: int)
    requires IntCode.Valid(a)
    ensures IntCode.Valid(Binary(a, op).machine)
  {
    EvalPairValid(a);
    var p := EvalPair(a);
    if p.result.Ok? {
      var v := Alu(op, p.result.value.0, p.result.value.1);
      if v.Ok? {
        WriteToValid(p.machine, v.value);
      }
    }
  }

  lemma InputValid(a: IntCode.Machine)
    requires IntCode.Valid(a)
    ensures IntCode.Valid(Input(a).machine)
  {
    var d := NextAddr(a);
    IntCode.TouchValid(a.(ip := Wrap32(a.ip + 1)), a.ip);
    var m1 := d.machine;
    if d.result.Ok? && m1.inputs != [] {
      IntCode.PutValid(m1.(inputs := m1.inputs[1..]), d.result.value, m1.inputs[0]);
    }
  }

  /** A step keeps the key list in step with the dictionary. */
  lemma StepValid(m: IntCode.Machine)
    requires IntCode.Valid(m)
    ensures IntCode.Valid(Step(m).machine)
  {
    if m.ip in m.store.cells {
      var a := IntCode.AfterFetch(m);
      var op := a.current.opcode;
      if op == ADD || op == MUL || op == LESS_THAN || op == EQUALS {
        assert IntCode.Valid(Binary(a, op).machine) by { BinaryValid(a, op); }
      } else if op == LOAD {
        assert IntCode.Valid(Input(a).machine) by { InputValid(a); }
      } else if op == STORE || op == SET_RELATIVE_BASE {
        assert IntCode.Valid(NextArg(a).machine) by { NextArgValid(a); }
      } else if op == JMP_IF_TRUE || op == JMP_IF_FALSE {
        assert IntCode.Valid(EvalPair(a).machine) by { EvalPairValid(a); }
      }
    }
  }

  // ----- the effect of each instruction -----

  /** Operand `k` of a freshly fetched instruction: its word narrowed to `int`, read by its mode. */
  function OperandOf(a: IntCode.Machine, k: int): int
    requires 0 <= k < |a.current.modes|
  {
    Operand(a, a.current.modes[k], Wrap32(IntCode.Peek(a, Wrap32(a.ip + k))))
  }

  /** Operand `k` of the instruction at the instruction pointer. */
  function OperandAt(m: IntCode.Machine, k: int): int
    requires m.ip in m.store.cells && 0 <= k < 4
  {
    OperandOf(IntCode.AfterFetch(m), k)
  }

  /** The destination of a freshly fetched instruction whose `k`-th word is an address. */
  function AddressOf(a: IntCode.Machine, k: int): int
    requires 0 <= k < |a.current.modes|
  {
    Address(a, a.current.modes[k], Wrap32(IntCode.Peek(a, Wrap32(a.ip + k))))
  }

  lemma OperandAgrees(a: IntCode.Machine, b: IntCode.Machine, mode: int, argument: int)
    requires IntCode.Agrees(a, b) && a.relativeBase == b.relativeBase
    ensures Operand(a, mode, argument) == Operand(b, mode, argument)
  {
  }

  /** Reading both operands of a freshly fetched instruction whose first two modes are known. */
  lemma EvalPairReads(a: IntCode.Machine)
    requires IntCode.Fresh(a) && IntCode.ReadMode(a.current.modes[0]) && IntCode.ReadMode(a.current.modes[1])
    ensures var p := EvalPair(a);
      p.result == Ok((OperandOf(a, 0), OperandOf(a, 1))) &&
      p.machine.ip == Wrap32(a.ip + 2) && IntCode.Agrees(a, p.machine) && IntCode.SameRegisters(a, p.machine)
  {
    var loc := a.current.location;
    var a1 := NextArg(a).machine;
    assert IntCode.ParamIndex(a) == 0;
    assert NextArg(a).result == Ok(OperandOf(a, 0));
    assert IntCode.Agrees(a, a1) by { NextArgCells(a); }
    assert IntCode.ParamIndex(a1) == 1 by {
      Wrap32Add(loc + 1, 1);
      Wrap32Sub(loc + 1, 1);
    }
    assert IntCode.Agrees(a1, NextArg(a1).machine) by { NextArgCells(a1); }
    assert Wrap32(a1.ip + 1) == Wrap32(a.ip + 2) by { Wrap32Add(a.ip + 1, 1); }
    assert Word(a1) == Wrap32(IntCode.Peek(a, Wrap32(a.ip + 1)));
    OperandAgrees(a, a1, a.current.modes[1], Word(a1));
  }

  /**
   * The write-back after the operands: a failed action leaves the machine as
   * it is; otherwise the destination word is fetched, and with a mode that
   * has an address only that cell changes.
   */
  lemma CompleteCells(m: IntCode.Machine, v: Result<int>)
    requires 0 <= IntCode.ParamIndex(m) < |m.current.modes|
    ensures var e := Complete(m, v);
      var mode := m.current.modes[IntCode.ParamIndex(m)];
      IntCode.SameRegisters(m, e.machine) &&
      (v.Err? ==> e == IntCode.Exec(m, Fail(v.error))) &&
      (v.Ok? && WriteMode(mode) ==>
        e.outcome == Pass && e.machine.ip == Wrap32(m.ip + 1) &&
        forall j :: IntCode.Peek(e.machine, j) == if j == Address(m, mode, Word(m)) then v.value else IntCode.Peek(m, j)) &&
      (v.Ok? && !WriteMode(mode) ==>
        e.outcome == Fail(InvalidOperation) && e.machine.ip == Wrap32(m.ip + 1) && IntCode.Agrees(m, e.machine))
  {
    var m1 := m.(ip := Wrap32(m.ip + 1));
    IntCode.TouchCells(m1, m.ip);
    var d := NextAddr(m);
    if v.Ok? && d.result.Ok? {
      IntCode.PutCells(d.machine, d.result.value, v.value);
    }
  }

  /**
   * A binary instruction once fetched: a result outside the 64-bit range
   * throws before the destination word is fetched; otherwise it lands at
   * the third word's address.
   */
  lemma BinaryEffect(a: IntCode.Machine, op: int)
    requires IntCode.Fresh(a) && IntCode.ReadMode(a.current.modes[0]) && IntCode.ReadMode(a.current.modes[1])
    ensures var e := Binary(a, op);
      var v := Alu(op, OperandOf(a, 0), OperandOf(a, 1));
      IntCode.SameRegisters(a, e.machine) &&
      (v.Err? ==> e.outcome == Fail(Overflow) && e.machine.ip == Wrap32(a.ip + 2) && IntCode.Agrees(a, e.machine)) &&
      (v.Ok? && WriteMode(a.current.modes[2]) ==>
        e.outcome == Pass && e.machine.ip == Wrap32(a.ip + 3) &&
        forall j :: IntCode.Peek(e.machine, j) == if j == AddressOf(a, 2) then v.value else IntCode.Peek(a, j)) &&
      (v.Ok? && !WriteMode(a.current.modes[2]) ==>
        e.outcome == Fail(InvalidOperation) && e.machine.ip == Wrap32(a.ip + 3) && IntCode.Agrees(a, e.machine))
  {
    var p := EvalPair(a);
    var v := Alu(op, OperandOf(a, 0), OperandOf(a, 1));
    assert p.result == Ok((OperandOf(a, 0), OperandOf(a, 1))) by { EvalPairReads(a); }
    assert Binary(a, op) == Complete(p.machine, v);
    assert p.machine.ip == Wrap32(a.ip + 2) && IntCode.Agrees(a, p.machine) && IntCode.SameRegisters(a, p.machine) by {
      EvalPairReads(a);
    }
    AfterPair(a, p.machine);
    assert v.Err? ==> v.error == Overflow;
    CompleteCells(p.machine, v);
  }

  /** A machine that has read both operands of a freshly fetched instruction sits at its third word, every cell as before. */
  lemma AfterPair(a: IntCode.Machine, pm: IntCode.Machine)
    requires IntCode.Fresh(a) && pm.ip == Wrap32(a.ip + 2) && IntCode.Agrees(a, pm) && IntCode.SameRegisters(a, pm)
    ensures IntCode.ParamIndex(pm) == 2 && Wrap32(pm.ip + 1) == Wrap32(a.ip + 3)
    ensures Address(pm, a.current.modes[2], Word(pm)) == AddressOf(a, 2)
  {
    var loc := a.current.location;
    Wrap32Add(loc + 1, 2);
    Wrap32Sub(loc + 1, 2);
    Wrap32Add(a.ip + 2, 1);
  }

  /** Load once fetched: the front of the input queue lands at the first word's address. */
  lemma InputEffect(a: IntCode.Machine)
    requires IntCode.Fresh(a)
    ensures var e := Input(a);
      var dest := AddressOf(a, 0);
      e.machine.ip == Wrap32(a.ip + 1) && e.machine.steps == a.steps && e.machine.current == a.current &&
      e.machine.outputs == a.outputs && e.machine.relativeBase == a.relativeBase &&
      (!WriteMode(a.current.modes[0]) ==> e.outcome == Fail(InvalidOperation) && IntCode.Agrees(a, e.machine)) &&
      (WriteMode(a.current.modes[0]) && a.inputs == [] ==> e.outcome == Fail(InvalidOperation) && IntCode.Agrees(a, e.machine)) &&
      (WriteMode(a.current.modes[0]) && a.inputs != [] ==>
        e.outcome == Pass && e.machine.inputs == a.inputs[1..] &&
        forall j :: IntCode.Peek(e.machine, j) == if j == dest then a.inputs[0] else IntCode.Peek(a, j))
  {
    assert IntCode.ParamIndex(a) == 0;
    var a1 := a.(ip := Wrap32(a.ip + 1));
    IntCode.TouchCells(a1, a.ip);
    var d := NextAddr(a);
    if d.result.Ok? && a.inputs != [] {
      IntCode.PutCells(d.machine.(inputs := a.inputs[1..]), d.result.value, a.inputs[0]);
    }
  }

  /** Store and SetRelativeBase once fetched: the operand is output, or added to the relative base. */
  lemma ActionEffect(a: IntCode.Machine, op: int)
    requires IntCode.Fresh(a) && IntCode.ReadMode(a.current.modes[0])
    ensures var e := Action(a, op);
      e.outcome == Pass && e.machine.ip == Wrap32(a.ip + 1) && IntCode.Agrees(a, e.machine) &&
      e.machine.steps == a.steps && e.machine.current == a.current && e.machine.inputs == a.inputs &&
      (op == STORE ==> e.machine.outputs == a.outputs + [OperandOf(a, 0)] && e.machine.relativeBase == a.relativeBase) &&
      (op != STORE ==>
        e.machine.outputs == a.outputs && e.machine.relativeBase == Wrap32(Wrap64(a.relativeBase + OperandOf(a, 0))))
  {
    assert IntCode.ParamIndex(a) == 0;
    NextArgCells(a);
  }

  /** A conditional jump once fetched: taken, the pointer becomes the second operand cast to `int`. */
  lemma JumpEffect(a: IntCode.Machine, ifTrue: bool)
    requires IntCode.Fresh(a) && IntCode.ReadMode(a.current.modes[0]) && IntCode.ReadMode(a.current.modes[1])
    ensures var e := Jump(a, ifTrue);
      var taken := (OperandOf(a, 0) != 0) == ifTrue;
      e.outcome == Pass && IntCode.Agrees(a, e.machine) && IntCode.SameRegisters(a, e.machine) &&
      e.machine.ip == if taken then Wrap32(OperandOf(a, 1)) else Wrap32(a.ip + 2)
  {
    EvalPairReads(a);
  }

  /**
   * Add and Mul are checked: when the exact sum or product leaves the
   * 64-bit range the step throws `OverflowException` and writes nothing;
   * otherwise it lands at the third word's address (relative mode honoured)
   * and the pointer advances by four.
   */
  lemma StepArithmetic(m: IntCode.Machine)
    requires m.ip in m.store.cells
    requires IntCode.Fetched(m).opcode in {ADD, MUL, LESS_THAN, EQUALS}
    requires IntCode.ReadMode(IntCode.Fetched(m).modes[0]) && IntCode.ReadMode(IntCode.Fetched(m).modes[1])
    ensures var s := Step(m);
      var v := Alu(IntCode.Fetched(m).opcode, OperandAt(m, 0), OperandAt(m, 1));
      IntCode.SameRegisters(IntCode.AfterFetch(m), s.machine) &&
      (v.Err? ==> s.outcome == Fail(Overflow) && IntCode.Agrees(m, s.machine)) &&
      (v.Ok? && WriteMode(IntCode.Fetched(m).modes[2]) ==>
        s.outcome == Pass && s.machine.ip == Wrap32(m.ip + 4) &&
        forall j :: IntCode.Peek(s.machine, j) == if j == AddressOf(IntCode.AfterFetch(m), 2) then v.value else IntCode.Peek(m, j)) &&
      (v.Ok? && !WriteMode(IntCode.Fetched(m).modes[2]) ==> s.outcome == Fail(InvalidOperation) && IntCode.Agrees(m, s.machine))
  {
    var a := IntCode.AfterFetch(m);
    assert Step(m) == Binary(a, a.current.opcode);
    IntCode.AfterFetchSlots(m);
    BinaryEffect(a, a.current.opcode);
  }

  /** The checked sum and product fail exactly when the exact value leaves the 64-bit range. */
  lemma CheckedArithmetic(a: int, b: int)
    ensures Alu(ADD, a, b) == (if IsInt64(a + b) then Ok(a + b) else Err(Overflow))
    ensures Alu(MUL, a, b) == (if IsInt64(a * b) then Ok(a * b) else Err(Overflow))
    ensures IsInt64(a) && IsInt64(b) ==> Alu(LESS_THAN, a, b).Ok? && Alu(EQUALS, a, b).Ok?
  {
  }

  /** Load writes the front of the input queue to the first word's address; immediate mode throws. */
  lemma StepInput(m: IntCode.Machine)
    requires m.ip in m.store.cells && IntCode.Fetched(m).opcode == LOAD
    ensures var s := Step(m);
      var a := IntCode.AfterFetch(m);
      s.machine.ip == Wrap32(m.ip + 2) && s.machine.steps == Wrap32(m.steps + 1) && s.machine.current == IntCode.Fetched(m) &&
      s.machine.outputs == m.outputs && s.machine.relativeBase == m.relativeBase &&
      (!WriteMode(IntCode.Fetched(m).modes[0]) || m.inputs == [] ==> s.outcome == Fail(InvalidOperation) && IntCode.Agrees(m, s.machine)) &&
      (WriteMode(IntCode.Fetched(m).modes[0]) && m.inputs != [] ==>
        s.outcome == Pass && s.machine.inputs == m.inputs[1..] &&
        forall j :: IntCode.Peek(s.machine, j) == if j == AddressOf(a, 0) then m.inputs[0] else IntCode.Peek(m, j))
  {
    var a := IntCode.AfterFetch(m);
    assert Step(m) == Input(a);
    IntCode.AfterFetchSlots(m);
    InputEffect(a);
  }

  /** SetRelativeBase adds its operand to the relative base, the 64-bit sum cast to `int`; Store outputs it. */
  lemma StepAction(m: IntCode.Machine)
    requires m.ip in m.store.cells && IntCode.Fetched(m).opcode in {STORE, SET_RELATIVE_BASE}
    requires IntCode.ReadMode(IntCode.Fetched(m).modes[0])
    ensures var s := Step(m);
      var x := OperandAt(m, 0);
      s.outcome == Pass && s.machine.ip == Wrap32(m.ip + 2) && IntCode.Agrees(m, s.machine) &&
      s.machine.steps == Wrap32(m.steps + 1) && s.machine.current == IntCode.Fetched(m) && s.machine.inputs == m.inputs &&
      (IntCode.Fetched(m).opcode == STORE ==> s.machine.outputs == m.outputs + [x] && s.machine.relativeBase == m.relativeBase) &&
      (IntCode.Fetched(m).opcode == SET_RELATIVE_BASE ==>
        s.machine.outputs == m.outputs && s.machine.relativeBase == Wrap32(Wrap64(m.relativeBase + x)))
  {
    var a := IntCode.AfterFetch(m);
    assert Step(m) == Action(a, a.current.opcode);
    IntCode.AfterFetchSlots(m);
    ActionEffect(a, a.current.opcode);
  }

  /** The jumps set the pointer to the second operand cast to `int` when the first tests as required. */
  lemma StepJump(m: IntCode.Machine)
    requires m.ip in m.store.cells && IntCode.Fetched(m).opcode in {JMP_IF_TRUE, JMP_IF_FALSE}
    requires IntCode.ReadMode(IntCode.Fetched(m).modes[0]) && IntCode.ReadMode(IntCode.Fetched(m).modes[1])
    ensures var s := Step(m);
      var taken := (OperandAt(m, 0) != 0) == (IntCode.Fetched(m).opcode == JMP_IF_TRUE);
      s.outcome == Pass && IntCode.Agrees(m, s.machine) && IntCode.SameRegisters(IntCode.AfterFetch(m), s.machine) &&
      s.machine.ip == if taken then Wrap32(OperandAt(m, 1)) else Wrap32(m.ip + 3)
  {
    var a := IntCode.AfterFetch(m);
    assert Step(m) == Jump(a, a.current.opcode == JMP_IF_TRUE);
    IntCode.AfterFetchSlots(m);
    JumpEffect(a, a.current.opcode == JMP_IF_TRUE);
  }

  /** Halt counts the step and becomes current; an unset fetch and an unknown opcode throw as in the int machine. */
  lemma StepHaltOrUnknown(m: IntCode.Machine)
    ensures m.ip !in m.store.cells ==> Step(m) == IntCode.Exec(m.(steps := Wrap32(m.steps + 1)), Fail(KeyNotFound))
    ensures m.ip in m.store.cells && IntCode.Fetched(m).opcode == HALT ==> Step(m) == IntCode.Exec(IntCode.AfterFetch(m), Pass)
    ensures (m.ip in m.store.cells &&
        IntCode.Fetched(m).opcode !in {ADD, MUL, LOAD, STORE, JMP_IF_TRUE, JMP_IF_FALSE, LESS_THAN, EQUALS, SET_RELATIVE_BASE, HALT}) ==>
      Step(m) == IntCode.Exec(IntCode.AfterFetch(m), Fail(InvalidOperation))
  {
  }

  // ----- operand narrowing -----

  /** Every operand word goes through `(int)`: an immediate operand is the word's low 32 bits, sign-extended. */
  lemma ImmediateNarrowed(a: IntCode.Machine)
    requires IntCode.Fresh(a) && a.current.modes[0] == IMMEDIATE
    ensures NextArg(a).result == Ok(Wrap32(IntCode.Peek(a, a.ip)))
    ensures IsInt32(IntCode.Peek(a, a.ip)) ==> NextArg(a).result == Ok(IntCode.Peek(a, a.ip))
  {
    assert IntCode.ParamIndex(a) == 0;
  }

  const TWO_50: int := 0x4_0000_0000_0000

  /** The program of the large-number example: output the immediate 2^50, then halt. */
  function LargeNumberProgram(): seq<int>
  {
    [104, TWO_50, 99]
  }

  /**
   * The first step of the large-number program outputs 0, not 2^50: the
   * immediate word is cast to `int` before it is output.
   */
  lemma LargeImmediateTruncated()
    ensures var m := IntCode.Initial(LargeNumberProgram());
      Step(m).outcome == Pass && Step(m).machine.outputs == [0] && LargeNumberProgram()[1] != 0
  {
    var m := IntCode.Initial(LargeNumberProgram());
    assert IntCode.Peek(m, 1) == TWO_50 && 0 in m.store.cells && m.ip == 0 && m.outputs == [];
    assert IntCode.Fetched(m) == Instruction(STORE, [1, 0, 0, 0], 0) by { LargeNumberFetch(); }
    assert Wrap32(TWO_50) == 0;
    StoreImmediate(m);
  }

  /** Store with an immediate operand outputs the operand word cast to `int`. */
  lemma StoreImmediate(m: IntCode.Machine)
    requires m.ip in m.store.cells && IntCode.Fetched(m) == Instruction(STORE, [1, 0, 0, 0], m.ip)
    ensures Step(m).outcome == Pass && Step(m).machine.outputs == m.outputs + [Wrap32(IntCode.Peek(m, Wrap32(m.ip + 1)))]
  {
    StepAction(m);
  }

  /** The first word of the large-number program decodes to Store with an immediate operand. */
  lemma LargeNumberFetch()
    ensures IntCode.Fetched(IntCode.Initial(LargeNumberProgram())) == Instruction(STORE, [1, 0, 0, 0], 0)
  {
    var m := IntCode.Initial(LargeNumberProgram());
    assert IntCode.Peek(m, 0) == 104;
    DecodeEncode(STORE, [1, 0, 0, 0], 0);
    assert Encode(STORE, [1, 0, 0, 0]) == 104;
  }

  /**
   * The operand read the large-number example evidently expects: an
   * immediate operand keeps its whole 64-bit word; only words used as
   * addresses are cast to `int`.
   */
  function WideOperand(m: IntCode.Machine, mode: int, word: int): int
  {
    if mode == POSITION then IntCode.Peek(m, Wrap32(word))
    else if mode == RELATIVE then IntCode.Peek(m, Wrap32(m.relativeBase + Wrap32(word)))
    else word
  }

  /** The intended read returns every immediate word unchanged and agrees with the narrowing read whenever the word fits in `int`. */
  lemma WideOperandKeepsImmediates(m: IntCode.Machine, mode: int, word: int)
    ensures WideOperand(m, IMMEDIATE, word) == word
    ensures IsInt32(word) && IntCode.ReadMode(mode) ==> WideOperand(m, mode, word) == Operand(m, mode, Wrap32(word))
    ensures mode == POSITION || mode == RELATIVE ==> WideOperand(m, mode, word) == Operand(m, mode, Wrap32(word))
  {
  }

  /**
   * The large-number example under the intended read: the Store operand of
   * `104, 2^50, 99` is 2^50, where the narrowing read yields 0.
   */
  lemma LargeImmediateKeptWide()
    ensures var m := IntCode.Initial(LargeNumberProgram());
      IntCode.Fetched(m).opcode == STORE &&
      WideOperand(m, IntCode.Fetched(m).modes[0], IntCode.Peek(m, m.ip + 1)) == TWO_50 &&
      Operand(m, IntCode.Fetched(m).modes[0], Wrap32(IntCode.Peek(m, m.ip + 1))) == 0
  {
    var m := IntCode.Initial(LargeNumberProgram());
    LargeNumberFetch();
    assert IntCode.Peek(m, 1) == TWO_50;
    assert Wrap32(TWO_50) == 0;
  }

  // ----- properties of runs -----

  lemma StepCounts(m: IntCode.Machine)
    ensures Step(m).machine.steps == Wrap32(m.steps + 1)
  {
  }

  /** `Run(n)` executes at most `n` steps, each counted, and stops early without an exception only at Halt. */
  lemma {:induction false} RunStepBound(m: IntCode.Machine, n: int)
    requires 0 <= m.steps && m.steps + (if n > 0 then n else 0) < TWO_31
    ensures var r := RunSteps(m, n);
      m.steps <= r.machine.steps <= m.steps + (if n > 0 then n else 0) &&
      (r.outcome == Pass && r.machine.steps < m.steps + n ==> r.machine.current.opcode == HALT)
    decreases n, 0
  {
    if n > 0 && m.current.opcode != HALT {
      assert Step(m).machine.steps == m.steps + 1 by { StepCounts(m); }
      RunAfterBound(Step(m), n - 1);
    }
  }

  lemma {:induction false} RunAfterBound(s: IntCode.Exec, n: int)
    requires 0 <= s.machine.steps && s.machine.steps + (if n > 0 then n else 0) < TWO_31
    ensures var r := RunAfter(s, n);
      s.machine.steps <= r.machine.steps <= s.machine.steps + (if n > 0 then n else 0) &&
      (r.outcome == Pass && r.machine.steps < s.machine.steps + n ==> r.machine.current.opcode == HALT)
    decreases n, 1
  {
    if s.outcome.Pass? {
      RunStepBound(s.machine, n);
    }
  }

  /** A run keeps the key list in step with the dictionary. */
  lemma {:induction false} RunStepsValid(m: IntCode.Machine, n: int)
    requires IntCode.Valid(m)
    ensures IntCode.Valid(RunSteps(m, n).machine)
    decreases n, 0
  {
    if n > 0 && m.current.opcode != HALT {
      var s := Step(m);
      StepValid(m);
      assert RunSteps(m, n) == RunAfter(s, n - 1);
      if s.outcome.Pass? {
        RunStepsValid(s.machine, n - 1);
        assert RunAfter(s, n - 1) == RunSteps(s.machine, n - 1);
      }
    } else {
      assert RunSteps(m, n) == IntCode.Exec(m, Pass);
    }
  }

  lemma {:induction false} RunAfterValid(s: IntCode.Exec, n: int)
    requires IntCode.Valid(s.machine)
    ensures IntCode.Valid(RunAfter(s, n).machine)
    decreases n, 1
  {
    if s.outcome.Pass? {
      RunStepsValid(s.machine, n);
    }
  }

  /** After a step that did not fail, the outputs grew by one value exactly when the step was Store. */
  lemma StepOutputs(m: IntCode.Machine)
    ensures IntCode.OutputsAfter(Step(m), m.outputs)
  {
    var s := Step(m);
    if s.outcome.Pass? && s.machine.current.opcode == STORE {
      var a := NextArg(IntCode.AfterFetch(m)).result;
      assert s.machine.outputs == m.outputs + [a.value];
    }
  }

  /** `RunWith` returns null only at Halt with nothing output; a value it returns is the first output of the run. */
  lemma {:induction false} RunUntilOutputResult(m: IntCode.Machine, fuel: nat)
    ensures var r := RunUntilOutput(m, fuel);
      (r.result == Ok(None) ==> r.machine.current.opcode == HALT && r.machine.outputs == m.outputs) &&
      (r.result.Ok? && r.result.value.Some? ==>
        r.machine.current.opcode == STORE && exists w :: m.outputs + [w] == [r.result.value.value] + r.machine.outputs)
    decreases fuel, 0
  {
    if m.current.opcode != HALT && fuel > 0 {
      StepOutputs(m);
      RunUntilOutputAfterResult(Step(m), m.outputs, fuel - 1);
    }
  }

  lemma {:induction false} RunUntilOutputAfterResult(s: IntCode.Exec, outs: seq<int>, fuel: nat)
    requires IntCode.OutputsAfter(s, outs)
    ensures var r := RunUntilOutputAfter(s, fuel);
      (r.result == Ok(None) ==> r.machine.current.opcode == HALT && r.machine.outputs == outs) &&
      (r.result.Ok? && r.result.value.Some? ==>
        r.machine.current.opcode == STORE && exists w :: outs + [w] == [r.result.value.value] + r.machine.outputs)
    decreases fuel, 1
  {
    var m1 := s.machine;
    if s.outcome.Pass? && m1.current.opcode == STORE && m1.outputs != [] {
      var w :| m1.outputs == outs + [w];
      assert outs + [w] == [m1.outputs[0]] + m1.outputs[1..];
    } else if s.outcome.Pass? && m1.current.opcode != STORE {
      RunUntilOutputResult(m1, fuel);
    }
  }

  // ----- the machine object -----

  /** `LongCodeComputer` with its fields; `Memory` is `Memory(State())`. */
  class LongCodeComputer {
    var memory: map<int, int>
    var keys: seq<int>
    var ip: int
    var steps: int
    var relativeBase: int
    var inputs: seq<int>
    var outputs: seq<int>
    var current: Instruction

    function State(): IntCode.Machine
      reads this
    {
      IntCode.Machine(IntCode.Store(memory, keys), ip, steps, relativeBase, inputs, outputs, current)
    }

    /** `LongCodeComputer(initialState)`. */
    constructor (initialState: seq<int>)
      ensures State() == IntCode.Initial(initialState)
    {
      memory := map i | 0 <= i < |initialState| :: initialState[i];
      keys := seq(|initialState|, i => i);
      ip, steps, relativeBase := 0, 0, 0;
      inputs, outputs := [], [];
      current := NO_INSTRUCTION;
    }

    /** `LongCodeComputer(initialState, firstInput)`. */
    constructor WithInput(initialState: seq<int>, firstInput: int)
      ensures State() == IntCode.Initial(initialState).(inputs := [firstInput])
    {
      memory := map i | 0 <= i < |initialState| :: initialState[i];
      keys := seq(|initialState|, i => i);
      ip, steps, relativeBase := 0, 0, 0;
      inputs, outputs := [firstInput], [];
      current := NO_INSTRUCTION;
    }

    /** `LongCodeComputer(initialState, stateOverride)`, the dictionary given as its pairs in enumeration order. */
    constructor WithOverride(initialState: seq<int>, stateOverride: seq<(int, int)>)
      ensures State() == IntCode.Overridden(IntCode.Initial(initialState), stateOverride)
    {
      memory := map i | 0 <= i < |initialState| :: initialState[i];
      keys := seq(|initialState|, i => i);
      ip, steps, relativeBase := 0, 0, 0;
      inputs, outputs := [], [];
      current := NO_INSTRUCTION;
      new;
      var i := 0;
      while i < |stateOverride|
        invariant 0 <= i <= |stateOverride|
        invariant IntCode.Overridden(State(), stateOverride[i..]) == IntCode.Overridden(IntCode.Initial(initialState), stateOverride)
      {
        assert stateOverride[i..][1..] == stateOverride[i + 1..];
        SetCell(stateOverride[i].0, stateOverride[i].1);
        i := i + 1;
      }
    }

    /** `_memory[key] = v`. */
    method SetCell(key: int, v: int)
      modifies this
      ensures State() == IntCode.Put(old(State()), key, v)
    {
      if key !in memory {
        keys := keys + [key];
      }
      memory := memory[key := v];
    }

    /** `_memory.GetOrAdd(key, 0)`. */
    method GetOrAdd(key: int) returns (v: int)
      modifies this
      ensures State() == IntCode.Touch(old(State()), key) && v == IntCode.Peek(old(State()), key)
    {
      if key in memory {
        v := memory[key];
      } else {
        SetCell(key, 0);
        v := 0;
      }
    }

    /** `GetNextArg(_currentInstruction)`. */
    method GetNextArg() returns (r: Result<int>)
      modifies this
      ensures IntCode.Read(State(), r) == NextArg(old(State()))
    {
      var paramIndex := Wrap32(ip - Wrap32(current.location + 1));
      var at := ip;
      ip := Wrap32(ip + 1);
      var word := GetOrAdd(at);
      var argument := Wrap32(word);
      if !(0 <= paramIndex < |current.modes|) {
        return Err(IndexOutOfRange);
      }
      var mode := current.modes[paramIndex];
      if mode == POSITION {
        var v := GetOrAdd(argument);
        r := Ok(v);
      } else if mode == IMMEDIATE {
        r := Ok(argument);
      } else if mode == RELATIVE {
        var v := GetOrAdd(Wrap32(relativeBase + argument));
        r := Ok(v);
      } else {
        r := Err(InvalidOperation);
      }
    }

    /** `GetNextAddr(_currentInstruction)`. */
    method GetNextAddr() returns (r: Result<int>)
      modifies this
      ensures IntCode.Read(State(), r) == NextAddr(old(State()))
    {
      var paramIndex := Wrap32(ip - Wrap32(current.location + 1));
      var at := ip;
      ip := Wrap32(ip + 1);
      var word := GetOrAdd(at);
      var argument := Wrap32(word);
      if !(0 <= paramIndex < |current.modes|) {
        return Err(IndexOutOfRange);
      }
      var mode := current.modes[paramIndex];
      if mode == POSITION {
        r := Ok(argument);
      } else if mode == RELATIVE {
        r := Ok(Wrap32(relativeBase + argument));
      } else {
        r := Err(InvalidOperation);
      }
    }

    /** `EvaluateInstruction`: both operands, left to right. */
    method EvaluateInstruction() returns (r: Result<(int, int)>)
      modifies this
      ensures IntCode.PairRead(State(), r) == EvalPair(old(State()))
    {
      var a := GetNextArg();
      if a.Err? {
        return Err(a.error);
      }
      var b := GetNextArg();
      if b.Err? {
        return Err(b.error);
      }
      r := Ok((a.value, b.value));
    }

    /** `ExecuteInstruction(instruction, Func<long, long, long>)`; the checked action runs before the address is fetched. */
    method ExecuteInstruction(op: int) returns (o: Outcome)
      modifies this
      ensures IntCode.Exec(State(), o) == Binary(old(State()), op)
    {
      var ab := EvaluateInstruction();
      if ab.Err? {
        return Fail(ab.error);
      }
      var v := Alu(op, ab.value.0, ab.value.1);
      if v.Err? {
        return Fail(v.error);
      }
      o := WriteResult(v.value);
    }

    /** `var resultAddress = GetNextAddr(...); _memory[resultAddress] = v;`. */
    method WriteResult(v: int) returns (o: Outcome)
      modifies this
      ensures IntCode.Exec(State(), o) == WriteTo(old(State()), v)
    {
      var address := GetNextAddr();
      if address.Err? {
        return Fail(address.error);
      }
      SetCell(address.value, v);
      o := Pass;
    }

    /** `ExecuteInstruction(GetInput)`. */
    method ExecuteInput() returns (o: Outcome)
      modifies this
      ensures IntCode.Exec(State(), o) == Input(old(State()))
    {
      var address := GetNextAddr();
      if address.Err? {
        return Fail(address.error);
      }
      if inputs == [] {
        return Fail(InvalidOperation);
      }
      var v := inputs[0];
      inputs := inputs[1..];
      SetCell(address.value, v);
      o := Pass;
    }

    /** `ExecuteInstruction(instruction, Action<long>)` with `SetOutput` or the relative-base update. */
    method ExecuteAction(op: int) returns (o: Outcome)
      modifies this
      ensures IntCode.Exec(State(), o) == Action(old(State()), op)
    {
      var a := GetNextArg();
      if a.Err? {
        return Fail(a.error);
      }
      if op == STORE {
        outputs := outputs + [a.value];
      } else {
        relativeBase := Wrap32(Wrap64(relativeBase + a.value));
      }
      o := Pass;
    }

    /** `EvaluateInstruction` with the jump lambdas. */
    method ExecuteJump(ifTrue: bool) returns (o: Outcome)
      modifies this
      ensures IntCode.Exec(State(), o) == Jump(old(State()), ifTrue)
    {
      var ab := EvaluateInstruction();
      if ab.Err? {
        return Fail(ab.error);
      }
      if (ab.value.0 != 0) == ifTrue {
        ip := Wrap32(ab.value.1);
      }
      o := Pass;
    }

    /** The switch of `ExecuteStep`. */
    method Dispatch() returns (o: Outcome)
      modifies this
      ensures IntCode.Exec(State(), o) == Execute(old(State()))
    {
      var op := current.opcode;
      if op == ADD || op == MUL || op == LESS_THAN || op == EQUALS {
        o := ExecuteInstruction(op);
      } else if op == LOAD {
        o := ExecuteInput();
      } else if op == STORE || op == SET_RELATIVE_BASE {
        o := ExecuteAction(op);
      } else if op == JMP_IF_TRUE || op == JMP_IF_FALSE {
        o := ExecuteJump(op == JMP_IF_TRUE);
      } else if op == HALT {
        o := Pass;
      } else {
        o := Fail(InvalidOperation);
      }
    }

    /** `ExecuteStep`. */
    method ExecuteStep() returns (o: Outcome)
      modifies this
      ensures IntCode.Exec(State(), o) == Step(old(State()))
    {
      steps := Wrap32(steps + 1);
      if ip !in memory {
        return Fail(KeyNotFound);
      }
      var ins := Decode(memory[ip], ip);
      ip := Wrap32(ip + 1);
      current := ins;
      o := Dispatch();
    }

    /** `Run(maxSteps)`. */
    method Run(maxSteps: int) returns (o: Outcome)
      modifies this
      ensures IntCode.Exec(State(), o) == RunSteps(old(State()), maxSteps)
    {
      var n := maxSteps;
      o := Pass;
      while n > 0 && current.opcode != HALT
        invariant RunSteps(State(), n) == RunSteps(old(State()), maxSteps)
        invariant o == Pass
        decreases n
      {
        o := ExecuteStep();
        if o.Fail? {
          return;
        }
        n := n - 1;
      }
    }

    /** `RunWith(input)`; the loop is cut off after `fuel` steps. */
    method RunWith(input: int, fuel: nat) returns (r: Result<Option<int>>)
      modifies this
      ensures IntCode.Ran(State(), r) == RunWithInput(old(State()), input, fuel)
    {
      inputs := inputs + [input];
      r := RunUntilOutputLoop(fuel);
    }

    /** The loop of `RunWith`. */
    method RunUntilOutputLoop(fuel: nat) returns (r: Result<Option<int>>)
      modifies this
      ensures IntCode.Ran(State(), r) == RunUntilOutput(old(State()), fuel)
    {
      var f := fuel;
      while current.opcode != HALT
        invariant RunUntilOutput(State(), f) == RunUntilOutput(old(State()), fuel)
        decreases f
      {
        if f == 0 {
          return Err(OutOfFuel);
        }
        var o := ExecuteStep();
        if o.Fail? {
          return Err(o.error);
        }
        if current.opcode == STORE {
          if outputs == [] {
            return Err(InvalidOperation);
          }
          r := Ok(Some(outputs[0]));
          outputs := outputs[1..];
          return;
        }
        f := f - 1;
      }
      r := Ok(None);
    }
  }
}
