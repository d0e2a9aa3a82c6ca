/** TCP sequence-number arithmetic.
    The stack computes with `uint32_t`; the protocol it implements is understood over
    numbers that never wrap.  `Arith` selects one of the two readings, so that the engine
    is written down once and the two readings can be compared. */
module SerialNumbers {

  const MODULUS: int := 0x1_0000_0000
  const HALF: int := 0x8000_0000

  datatype Arith = Wrapped | Unbounded {

    /** The value as it is stored. */
    function Norm(x: int): int {
      if Wrapped? then x % MODULUS else x
    }

    function Plus(a: int, n: int): int {
      Norm(a + n)
    }

    /** `(int32_t)(a - b)` when wrapped. */
    function Diff(a: int, b: int): int {
      if Unbounded? then a - b
      else
        var d := (a - b) % MODULUS;
        if d >= HALF then d - MODULUS else d
    }

    predicate Lt(a: int, b: int) { Diff(a, b) < 0 }

    predicate Leq(a: int, b: int) { Diff(a, b) <= 0 }

    predicate Gt(a: int, b: int) { Diff(a, b) > 0 }
  }

  /** Two numbers are comparable when they lie in one half-range. */
  predicate Near(a: int, b: int) {
    -HALF <= a - b < HALF
  }

  /** Truncation commutes with addition. */
  lemma TruncatedSum(a: int, n: int)
    ensures Wrapped.Plus(a % MODULUS, n) == (a + n) % MODULUS
  {
    assert a == MODULUS * (a / MODULUS) + a % MODULUS;
    ModuloIsUnique(a + n, a / MODULUS + (a % MODULUS + n) / MODULUS, (a % MODULUS + n) % MODULUS);
  }

  lemma ModuloIsUnique(x: int, q: int, r: int)
    requires x == MODULUS * q + r && 0 <= r < MODULUS
    ensures x % MODULUS == r
  {
  }

  /** The signed difference of two truncated numbers is the true difference exactly when the
      two numbers lie in one half-range. */
  lemma TruncatedDifference(a: int, b: int)
    ensures Wrapped.Diff(a % MODULUS, b % MODULUS) == a - b <==> Near(a, b)
  {
    var d := (a % MODULUS - b % MODULUS) % MODULUS;
    assert d == (a - b) % MODULUS by {
      assert a == MODULUS * (a / MODULUS) + a % MODULUS;
      assert b == MODULUS * (b / MODULUS) + b % MODULUS;
      var e := a % MODULUS - b % MODULUS;
      assert e == MODULUS * (e / MODULUS) + e % MODULUS;
      ModuloIsUnique(a - b, a / MODULUS - b / MODULUS + e / MODULUS, d);
    }
    if Near(a, b) {
      if a - b >= 0 {
        ModuloIsUnique(a - b, 0, a - b);
      } else {
        ModuloIsUnique(a - b, -1, a - b + MODULUS);
      }
    }
  }

  /** Numbers less than one full cycle apart are equal exactly when their truncations are. */
  lemma TruncatedEquality(a: int, b: int)
    requires -MODULUS < a - b < MODULUS
    ensures a % MODULUS == b % MODULUS <==> a == b
  {
    assert a == MODULUS * (a / MODULUS) + a % MODULUS;
    assert b == MODULUS * (b / MODULUS) + b % MODULUS;
  }
}
