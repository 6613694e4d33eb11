/**
 * Values shared by every module: an optional value, the exceptions the
 * library throws, and a result that is either a value or one of them.
 */
module Wrappers {

  datatype Option<T> = None | Some(value: T)

  /** The .NET exception kinds the modelled code can raise, plus running out of fuel. */
  datatype Error =
    | ArgumentNull            // ArgumentNullException
    | ArgumentOutOfRange      // ArgumentOutOfRangeException
    | Argument                // ArgumentException
    | InvalidOperation        // InvalidOperationException
    | NotSupported            // NotSupportedException
    | KeyNotFound             // KeyNotFoundException
    | NoSuchItem              // C5.NoSuchItemException (empty priority queue)
    | IndexOutOfRange         // IndexOutOfRangeException
    | Overflow                // OverflowException (checked arithmetic)
    | DivideByZero            // DivideByZeroException
    | OutOfFuel               // the model's bound on an otherwise unbounded loop

  datatype Result<T> = Ok(value: T) | Err(error: Error)

  /** The outcome of an operation that returns nothing but may throw. */
  datatype Outcome = Pass | Fail(error: Error)
}

/** Fixed-width integer arithmetic as C# performs it. */
module IntWidths {

  const TWO_31: int := 0x8000_0000
  const TWO_32: int := 0x1_0000_0000
  const TWO_63: int := 0x8000_0000_0000_0000
  const TWO_64: int := 0x1_0000_0000_0000_0000

  predicate IsInt32(x: int) { -TWO_31 <= x < TWO_31 }
  predicate IsInt64(x: int) { -TWO_63 <= x < TWO_63 }

  /** Unchecked 32-bit two's-complement wrap-around. */
  function Wrap32(x: int): (r: int)
    ensures IsInt32(r)
    ensures (r - x) % TWO_32 == 0
    ensures IsInt32(x) ==> r == x
  {
    (x + TWO_31) % TWO_32 - TWO_31
  }

  /** Values congruent modulo 2^32 wrap to the same 32-bit value. */
  lemma Wrap32Cong(x: int, y: int)
    requires (x - y) % TWO_32 == 0
    ensures Wrap32(x) == Wrap32(y)
  {
    var k := (x - y) / TWO_32;
    assert x - y == k * TWO_32;
    ModAddMultiple(y + TWO_31, k, TWO_32);
    assert x + TWO_31 == (y + TWO_31) + k * TWO_32;
  }

  /** A wrapped value differs from the value by a whole number of 2^32 turns. */
  lemma Wrap32Offset(x: int) returns (k: int)
    ensures Wrap32(x) == x + k * TWO_32
  {
    k := (Wrap32(x) - x) / TWO_32;
  }

  /** Values a whole number of 2^32 turns apart wrap to the same value. */
  lemma Wrap32Turns(x: int, y: int, m: int)
    requires x - y == m * TWO_32
    ensures Wrap32(x) == Wrap32(y)
  {
    ModAddMultiple(0, m, TWO_32);
    Wrap32Cong(x, y);
  }

  /** Wrapping an intermediate sum changes nothing: `unchecked((x) + y)`. */
  lemma Wrap32Add(x: int, y: int)
    ensures Wrap32(Wrap32(x) + y) == Wrap32(x + y)
  {
    Wrap32Cong(Wrap32(x) + y, x + y);
  }

  /** Adding a multiple of the divisor leaves the residue unchanged. */
  lemma ModAddMultiple(a: int, k: int, b: int)
    requires b > 0
    ensures (a + k * b) % b == a % b
  {
    assert b * (a / b + k) == b * (a / b) + k * b;
    DivUnique(a + k * b, b, a / b + k, a % b);
  }

  /** Adding a wrapped value and then its wrapped negation returns every `int`. */
  lemma Wrap32Cancel(x: int, v: int)
    requires IsInt32(x)
    ensures Wrap32(Wrap32(x + Wrap32(v)) + Wrap32(-v)) == x
  {
    Wrap32Add(x + Wrap32(v), Wrap32(-v));
    var a, b := (Wrap32(v) - v) / TWO_32, (Wrap32(-v) + v) / TWO_32;
    assert Wrap32(v) == v + a * TWO_32;
    assert Wrap32(-v) == -v + b * TWO_32;
    assert x + Wrap32(v) + Wrap32(-v) == x + (a + b) * TWO_32;
    var d := (a + b) * TWO_32;
    ModAddMultiple(0, a + b, TWO_32);
    assert (x + d) - x == 0 + (a + b) * TWO_32;
    Wrap32Cong(x + d, x);
  }

  /** Negating a wrapped value wraps to the negated value. */
  lemma Wrap32Neg(x: int)
    ensures Wrap32(-Wrap32(x)) == Wrap32(-x)
  {
    var k := (Wrap32(x) - x) / TWO_32;
    DivUnique(x - Wrap32(x), TWO_32, -k, 0);
    Wrap32Cong(-Wrap32(x), -x);
  }

  /** The distance between two wrapped values wraps to the distance between the values. */
  lemma Wrap32Sub(x: int, k: int)
    ensures Wrap32(Wrap32(x + k) - Wrap32(x)) == Wrap32(k)
  {
    var a, b := (Wrap32(x + k) - (x + k)) / TWO_32, (Wrap32(x) - x) / TWO_32;
    assert Wrap32(x + k) - Wrap32(x) - k == (a - b) * TWO_32;
    Wrap32Cong(Wrap32(x + k) - Wrap32(x), k);
  }

  /** Unchecked 64-bit two's-complement wrap-around. */
  function Wrap64(x: int): (r: int)
    ensures IsInt64(r)
    ensures (r - x) % TWO_64 == 0
    ensures IsInt64(x) ==> r == x
  {
    (x + TWO_63) % TWO_64 - TWO_63
  }

  /** Values congruent modulo 2^64 wrap to the same 64-bit value. */
  lemma Wrap64Cong(x: int, y: int)
    requires (x - y) % TWO_64 == 0
    ensures Wrap64(x) == Wrap64(y)
  {
    var k := (x - y) / TWO_64;
    assert x - y == k * TWO_64;
    ModAddMultiple(y + TWO_63, k, TWO_64);
    assert x + TWO_63 == (y + TWO_63) + k * TWO_64;
  }
  /** Wrapping an intermediate 64-bit sum changes nothing. */
  lemma Wrap64Add(x: int, y: int)
    ensures Wrap64(Wrap64(x) + y) == Wrap64(x + y)
  {
    Wrap64Cong(Wrap64(x) + y, x + y);
  }

  /** Wrapping an intermediate 64-bit product changes nothing. */
  lemma Wrap64Mul(x: int, y: int)
    ensures Wrap64(Wrap64(x) * y) == Wrap64(x * y)
  {
    var k := (Wrap64(x) - x) / TWO_64;
    assert Wrap64(x) - x == k * TWO_64;
    assert Wrap64(x) * y - x * y == (k * y) * TWO_64;
    DivUnique(Wrap64(x) * y - x * y, TWO_64, k * y, 0);
    Wrap64Cong(Wrap64(x) * y, x * y);
  }


  /** Unsigned 32-bit wrap-around (C# `uint` arithmetic). */
  function WrapU32(x: int): (r: nat)
    ensures r < TWO_32
    ensures (r - x) % TWO_32 == 0
    ensures 0 <= x < TWO_32 ==> r == x
  {
    x % TWO_32
  }

  /** C# integer division: truncates toward zero. */
  function Div(a: int, b: int): (q: int)
    requires b != 0
    ensures a >= 0 && b > 0 ==> q == a / b
    ensures Abs(q * b) <= Abs(a)
  {
    var q0 := Abs(a) / Abs(b);
    QuotientBound(Abs(a), Abs(b));
    AbsScale(q0, b);
    if (a < 0) == (b < 0) then q0 else -q0
  }

  /** The quotient of naturals is a natural whose multiple does not exceed the dividend. */
  lemma QuotientBound(a: nat, b: int)
    requires b > 0
    ensures 0 <= a / b && (a / b) * b <= a
  {
    assert a == b * (a / b) + a % b;
  }

  /** Scaling by a natural scales the magnitude. */
  lemma AbsScale(q: int, b: int)
    requires q >= 0
    ensures Abs(q * b) == q * Abs(b) && Abs(-q * b) == q * Abs(b)
  {
    if b >= 0 {
      MulNonNeg(q, b);
    } else {
      assert q * b == -(q * -b);
      MulNonNeg(q, -b);
    }
  }

  /** C# remainder: takes the sign of the dividend. */
  function Rem(a: int, b: int): (r: int)
    requires b != 0
    ensures a == Div(a, b) * b + r
    ensures Abs(r) < Abs(b)
    ensures a >= 0 ==> 0 <= r
    ensures a < 0 ==> r <= 0
  {
    a - Div(a, b) * b
  }

  function Abs(x: int): nat { if x < 0 then -x else x }

  lemma MulNonNeg(x: int, y: int)
    requires x >= 0 && y >= 0
    ensures x * y >= 0
  {
  }

  /** A quotient and remainder that satisfy the division equation are the quotient and remainder. */
  lemma DivUnique(a: int, b: int, q: int, r: int)
    requires b > 0 && a == b * q + r && 0 <= r < b
    ensures a / b == q && a % b == r
  {
    var q', r' := a / b, a % b;
    assert b * q' + r' == a;
    if q > q' {
      MulNonNeg(b, q - q' - 1);
    } else if q < q' {
      MulNonNeg(b, q' - q - 1);
    }
  }
}
