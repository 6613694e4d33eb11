/**
 * Instruction words of the IntCode machines.  All three interpreters
 * decode a word the same way: the two low decimal digits are the opcode,
 * and the next four digits are the parameter modes, one per operand.
 * C# `/` and `%` truncate toward zero, so a negative word decodes to a
 * non-positive opcode.
 */
module IntCodeDecoding {

  import opened IntWidths

  /** The `Instruction` struct: opcode, four parameter modes, and the address it was fetched from. */
  datatype Instruction = Instruction(opcode: int, modes: seq<int>, location: int)

  // The `OpCode` enum.
  const ADD: int := 1
  const MUL: int := 2
  const LOAD: int := 3
  const STORE: int := 4
  const JMP_IF_TRUE: int := 5
  const JMP_IF_FALSE: int := 6
  const LESS_THAN: int := 7
  const EQUALS: int := 8
  const SET_RELATIVE_BASE: int := 9
  const HALT: int := 99

  // The `ParameterMode` enum.
  const POSITION: int := 0
  const IMMEDIATE: int := 1
  const RELATIVE: int := 2

  /** The value of `_currentInstruction` before the first step: the default struct, opcode 0. */
  const NO_INSTRUCTION: Instruction := Instruction(0, [0, 0, 0, 0], 0)

  function Pow10(i: nat): (p: nat)
    ensures p >= 1
  {
    if i == 0 then 1 else 10 * Pow10(i - 1)
  }

  /** Parameter mode `i` of a word: the decimal digit `i` places above the two opcode digits. */
  function ModeDigit(code: int, i: nat): int
  {
    Rem(Div(Div(code, 100), Pow10(i)), 10)
  }

  /** The decoded form of a word, as the `Instruction` constructor computes it. */
  function Decoded(code: int, location: int): Instruction
  {
    Instruction(Rem(code, 100), seq(4, i requires 0 <= i < 4 => ModeDigit(code, i)), location)
  }

  /** The word holding opcode `op` and modes `modes`, lowest mode digit first. */
  function Encode(op: int, modes: seq<int>): int
    requires |modes| == 4
  {
    op + 100 * ModeNumber(modes)
  }

  /** Dividing a natural number twice is dividing once by the product. */
  lemma NatDivDiv(x: nat, p: int, d: int)
    requires p > 0 && d > 0
    ensures x / p / d == x / (p * d)
  {
    var q := x / p;
    var q2 := q / d;
    var r := p * (q % d) + x % p;
    assert x == p * q + x % p;
    assert q == d * q2 + q % d;
    assert p * q == (p * d) * q2 + p * (q % d) by {
      assert p * q == p * (d * q2 + q % d);
    }
    MulNonNeg(p, q % d);
    assert p * (q % d) <= p * (d - 1) by {
      MulNonNeg(p, d - 1 - q % d);
      assert p * (d - 1) - p * (q % d) == p * (d - 1 - q % d);
    }
    DivUnique(x, p * d, q2, r);
  }

  /** Truncating division by a positive divisor: the quotient of the magnitude, with the dividend's sign. */
  lemma DivPositive(a: int, b: int)
    requires b > 0
    ensures Div(a, b) == if a < 0 then -(Abs(a) / b) else Abs(a) / b
  {
  }

  /** Dividing twice, truncating each time, is dividing once by the product. */
  lemma DivDiv(a: int, p: int, d: int)
    requires p > 0 && d > 0
    ensures Div(Div(a, p), d) == Div(a, p * d)
  {
    var x := Abs(a);
    NatDivDiv(x, p, d);
    MulNonNeg(p, d);
    DivPositive(a, p);
    DivPositive(a, p * d);
    DivPositive(Div(a, p), d);
  }

  /**
   * `new Instruction(code, location)`: the opcode is `code % 100`, and the
   * loop peels one decimal digit per parameter mode into a fresh array.
   */
  method Decode(code: int, location: int) returns (ins: Instruction)
    ensures ins == Decoded(code, location)
  {
    var opcode := Rem(code, 100);
    var rest := Div(code, 100);
    var modes := new int[4];
    var i := 0;
    while i < modes.Length
      invariant 0 <= i <= 4
      invariant rest == Div(Div(code, 100), Pow10(i))
      invariant forall j | 0 <= j < i :: modes[j] == ModeDigit(code, j)
    {
      modes[i] := Rem(rest, 10);
      DivDiv(Div(code, 100), Pow10(i), 10);
      rest := Div(rest, 10);
      i := i + 1;
    }
    ins := Instruction(opcode, modes[..], location);
  }

  /** The mode digits of a word above its opcode, as one number. */
  function ModeNumber(modes: seq<int>): int
    requires |modes| == 4
  {
    modes[0] + 10 * modes[1] + 100 * modes[2] + 1000 * modes[3]
  }

  /** On a non-negative dividend, C# division and remainder are Euclidean ones. */
  lemma NatDivRem(x: int, b: int)
    requires x >= 0 && b > 0
    ensures Div(x, b) == x / b && Rem(x, b) == x % b
  {
    DivPositive(x, b);
  }

  /** Digit `i` of the mode number is mode `i`. */
  lemma ModeNumberDigit(modes: seq<int>, i: nat)
    requires |modes| == 4 && forall k | 0 <= k < 4 :: 0 <= modes[k] < 10
    requires i < 4
    ensures Rem(Div(ModeNumber(modes), Pow10(i)), 10) == modes[i]
  {
    var m := ModeNumber(modes);
    var d0, d1, d2, d3 := modes[0], modes[1], modes[2], modes[3];
    assert Pow10(1) == 10 && Pow10(2) == 100 && Pow10(3) == 1000;
    if i == 0 {
      DivUnique(m, 1, m, 0);
      DivUnique(m, 10, d1 + 10 * d2 + 100 * d3, d0);
      NatDivRem(m, 1);
      NatDivRem(m, 10);
    } else if i == 1 {
      DivUnique(m, 10, d1 + 10 * d2 + 100 * d3, d0);
      DivUnique(d1 + 10 * d2 + 100 * d3, 10, d2 + 10 * d3, d1);
      NatDivRem(m, 10);
      NatDivRem(m / 10, 10);
    } else if i == 2 {
      DivUnique(m, 100, d2 + 10 * d3, d0 + 10 * d1);
      DivUnique(d2 + 10 * d3, 10, d3, d2);
      NatDivRem(m, 100);
      NatDivRem(m / 100, 10);
    } else {
      DivUnique(m, 1000, d3, d0 + 10 * d1 + 100 * d2);
      DivUnique(d3, 10, 0, d3);
      NatDivRem(m, 1000);
      NatDivRem(m / 1000, 10);
    }
  }

  /** Decoding recovers the opcode and the modes a word was built from. */
  lemma DecodeEncode(op: int, modes: seq<int>, location: int)
    requires 0 <= op < 100 && |modes| == 4 && forall i | 0 <= i < 4 :: 0 <= modes[i] < 10
    ensures Decoded(Encode(op, modes), location) == Instruction(op, modes, location)
  {
    var m := ModeNumber(modes);
    var code := Encode(op, modes);
    assert code == op + 100 * m;
    DivUnique(code, 100, m, op);
    assert Div(code, 100) == m && Rem(code, 100) == op;
    forall i | 0 <= i < 4 ensures ModeDigit(code, i) == modes[i] {
      ModeNumberDigit(modes, i);
    }
    assert Decoded(code, location).modes == modes;
  }

  /** A negative word decodes to an opcode of at most zero, which no instruction has. */
  lemma NegativeWordHasNoOpcode(code: int, location: int)
    requires code < 0
    ensures Decoded(code, location).opcode <= 0
  {
  }
}
