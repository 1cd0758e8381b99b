/**
  Arbitrary-precision non-negative integers seen as bit sequences, bit 0 being
  the least significant one. Python's bitwise operators (`|`, `&`,
  `& ~`, `<<`, `>>`) are defined here on `nat` by recursion on the binary
  digits, and `Bit` gives the meaning every other module states its contracts in.
*/
module BitOps {

  /** 2 to the power n, that is `1 << n`. */
  function Pow2(n: nat): (r: nat)
    ensures r >= 1
  {
    if n == 0 then 1 else 2 * Pow2(n - 1)
  }

  /** Bit i of x is set: `(x >> i) & 1 == 1`. */
  predicate Bit(x: nat, i: nat)
  {
    if i == 0 then x % 2 == 1 else Bit(x / 2, i - 1)
  }

  /** `x << n` */
  function Shl(x: nat, n: nat): nat
  {
    if n == 0 then x else 2 * Shl(x, n - 1)
  }

  /** `x >> n` */
  function Shr(x: nat, n: nat): nat
  {
    if n == 0 then x else Shr(x / 2, n - 1)
  }

  /** `a | b` */
  function Or(a: nat, b: nat): nat
    decreases a + b
  {
    if a == 0 && b == 0 then 0
    else 2 * Or(a / 2, b / 2) + (if a % 2 == 1 || b % 2 == 1 then 1 else 0)
  }

  /** `a & b` */
  function And(a: nat, b: nat): nat
    decreases a + b
  {
    if a == 0 || b == 0 then 0
    else 2 * And(a / 2, b / 2) + (if a % 2 == 1 && b % 2 == 1 then 1 else 0)
  }

  /** `a & ~b`: the bits of a that b does not have. */
  function AndNot(a: nat, b: nat): nat
    decreases a + b
  {
    if a == 0 then 0
    else 2 * AndNot(a / 2, b / 2) + (if a % 2 == 1 && b % 2 == 0 then 1 else 0)
  }

  /** `2 ** w - 1`: the mask of the w lowest bits. */
  function LowMask(w: nat): nat
  {
    Pow2(w) - 1
  }

  // ---------------------------------------------------------------------------
  // Bit-level meaning of the operators

  lemma BitOfDigit(y: nat, c: nat, i: nat)
    requires c < 2
    ensures Bit(2 * y + c, i) == if i == 0 then c == 1 else Bit(y, i - 1)
  {
  }

  lemma {:induction false} BitZero(i: nat)
    ensures !Bit(0, i)
  {
    if i > 0 {
      BitZero(i - 1);
    }
  }

  lemma {:induction false} BitOr(a: nat, b: nat, i: nat)
    ensures Bit(Or(a, b), i) == (Bit(a, i) || Bit(b, i))
    decreases i
  {
    if a == 0 && b == 0 {
      BitZero(i);
    } else {
      var c := if a % 2 == 1 || b % 2 == 1 then 1 else 0;
      BitOfDigit(Or(a / 2, b / 2), c, i);
      if i > 0 {
        BitOr(a / 2, b / 2, i - 1);
      }
    }
  }

  lemma {:induction false} BitAnd(a: nat, b: nat, i: nat)
    ensures Bit(And(a, b), i) == (Bit(a, i) && Bit(b, i))
    decreases i
  {
    if a == 0 || b == 0 {
      BitZero(i);
    } else {
      var c := if a % 2 == 1 && b % 2 == 1 then 1 else 0;
      BitOfDigit(And(a / 2, b / 2), c, i);
      if i > 0 {
        BitAnd(a / 2, b / 2, i - 1);
      }
    }
  }

  lemma {:induction false} BitAndNot(a: nat, b: nat, i: nat)
    ensures Bit(AndNot(a, b), i) == (Bit(a, i) && !Bit(b, i))
    decreases i
  {
    if a == 0 {
      BitZero(i);
    } else {
      var c := if a % 2 == 1 && b % 2 == 0 then 1 else 0;
      BitOfDigit(AndNot(a / 2, b / 2), c, i);
      if i > 0 {
        BitAndNot(a / 2, b / 2, i - 1);
      }
    }
  }

  lemma {:induction false} BitShl(x: nat, n: nat, i: nat)
    ensures Bit(Shl(x, n), i) == (i >= n && Bit(x, i - n))
    decreases n
  {
    if n > 0 {
      BitOfDigit(Shl(x, n - 1), 0, i);
      if i > 0 {
        BitShl(x, n - 1, i - 1);
      }
    }
  }

  lemma {:induction false} BitShr(x: nat, n: nat, i: nat)
    ensures Bit(Shr(x, n), i) == Bit(x, i + n)
    decreases n
  {
    if n > 0 {
      BitShr(x / 2, n - 1, i);
    }
  }

  lemma {:induction false} BitPow2(n: nat, i: nat)
    ensures Bit(Pow2(n), i) == (i == n)
    decreases n
  {
    if n == 0 {
      BitOfDigit(0, 1, i);
      if i > 0 {
        BitZero(i - 1);
      }
    } else {
      BitOfDigit(Pow2(n - 1), 0, i);
      if i > 0 {
        BitPow2(n - 1, i - 1);
      }
    }
  }

  lemma {:induction false} BitLowMask(w: nat, i: nat)
    ensures Bit(LowMask(w), i) == (i < w)
    decreases w
  {
    if w == 0 {
      BitZero(i);
    } else {
      assert LowMask(w) == 2 * LowMask(w - 1) + 1;
      BitOfDigit(LowMask(w - 1), 1, i);
      if i > 0 {
        BitLowMask(w - 1, i - 1);
      }
    }
  }

  /** Two numbers with the same bits are equal. */
  lemma {:induction false} BitsEqual(a: nat, b: nat)
    requires forall i: nat :: Bit(a, i) == Bit(b, i)
    ensures a == b
    decreases a + b
  {
    if a != 0 || b != 0 {
      assert Bit(a, 0) == Bit(b, 0);
      forall i: nat ensures Bit(a / 2, i) == Bit(b / 2, i) {
        assert Bit(a, i + 1) == Bit(b, i + 1);
      }
      BitsEqual(a / 2, b / 2);
    }
  }

  /** A number below `2 ** n` has no bit at or above n. */
  lemma {:induction false} BitAboveWidth(x: nat, n: nat, i: nat)
    requires x < Pow2(n) && i >= n
    ensures !Bit(x, i)
    decreases n
  {
    if n == 0 {
      BitZero(i);
    } else if i > 0 {
      BitAboveWidth(x / 2, n - 1, i - 1);
    }
  }

  /** A number with no bit at or above n is below `2 ** n`. */
  lemma {:induction false} BelowWidth(x: nat, n: nat)
    requires forall i: nat :: i >= n ==> !Bit(x, i)
    ensures x < Pow2(n)
    decreases n
  {
    if n == 0 {
      forall i: nat ensures Bit(x, i) == Bit(0, i) {
        BitZero(i);
      }
      BitsEqual(x, 0);
    } else {
      forall i: nat | i >= n - 1 ensures !Bit(x / 2, i) {
        assert !Bit(x, i + 1);
      }
      BelowWidth(x / 2, n - 1);
    }
  }

  // ---------------------------------------------------------------------------
  // The recursive definitions agree with integer arithmetic

  lemma DivModUnique(x: int, d: int, q: int, r: int)
    requires d > 0 && 0 <= r < d && x == d * q + r
    ensures x / d == q && x % d == r
  {
    var q0, r0 := x / d, x % d;
    assert d * q0 + r0 == d * q + r;
    if q0 > q {
      MulGrows(d, q0 - q);
    } else if q0 < q {
      MulGrows(d, q - q0);
    }
  }

  lemma MulGrows(d: int, k: int)
    requires d > 0 && k >= 1
    ensures d * k >= d
  {
    assert d * k == d * (k - 1) + d;
  }

  lemma HalveDivMod(x: nat, p: nat)
    requires p >= 1
    ensures x / (2 * p) == (x / 2) / p
    ensures x % (2 * p) == 2 * ((x / 2) % p) + x % 2
  {
    var q, r := (x / 2) / p, (x / 2) % p;
    assert x / 2 == p * q + r;
    assert x == (2 * p) * q + (2 * r + x % 2);
    DivModUnique(x, 2 * p, q, 2 * r + x % 2);
  }

  /** `x >> n` is floor division by `2 ** n`. */
  lemma {:induction false} ShrIsDiv(x: nat, n: nat)
    ensures Shr(x, n) == x / Pow2(n)
    decreases n
  {
    if n > 0 {
      ShrIsDiv(x / 2, n - 1);
      HalveDivMod(x, Pow2(n - 1));
    }
  }

  /** `x << n` is multiplication by `2 ** n`. */
  lemma {:induction false} ShlIsMul(x: nat, n: nat)
    ensures Shl(x, n) == x * Pow2(n)
    decreases n
  {
    if n > 0 {
      ShlIsMul(x, n - 1);
      assert x * Pow2(n) == 2 * (x * Pow2(n - 1));
    }
  }

  /** `x & (2 ** n - 1)` is `x mod 2 ** n`. */
  lemma {:induction false} LowMaskIsMod(x: nat, n: nat)
    ensures And(x, LowMask(n)) == x % Pow2(n)
    decreases n
  {
    if n == 0 {
      assert And(x, LowMask(0)) == 0;
    } else {
      LowMaskIsMod(x / 2, n - 1);
      HalveDivMod(x, Pow2(n - 1));
      assert LowMask(n) == 2 * LowMask(n - 1) + 1;
      if x == 0 {
        assert And(x, LowMask(n)) == 0;
      } else {
        assert LowMask(n) / 2 == LowMask(n - 1);
        assert And(x, LowMask(n)) == 2 * And(x / 2, LowMask(n - 1)) + x % 2;
      }
    }
  }

  /** A number's low bits are unchanged by `% 2 ** n`, and none above n is left. */
  lemma BitMod(v: int, n: nat, i: nat)
    ensures v % Pow2(n) >= 0
    ensures i >= n ==> !Bit(v % Pow2(n), i)
    ensures v >= 0 && i < n ==> (Bit(v % Pow2(n), i) == Bit(v, i))
  {
    if i >= n {
      BitAboveWidth(v % Pow2(n), n, i);
    } else if v >= 0 {
      LowMaskIsMod(v, n);
      BitAnd(v, LowMask(n), i);
      BitLowMask(n, i);
    }
  }
}
