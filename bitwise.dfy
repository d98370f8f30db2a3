/**
 This module gives the bitwise operators that the register accessors apply
 to non-negative numbers (`&`, `|`, `& ~`, `<<`, `>>`) a meaning on unbounded
 naturals, together with a bit-level view `Bit(x, k)` that the proofs use.
 Two naturals with the same bits are equal (`BitsDetermine`), so most facts
 about the operators are proved one bit at a time.
 */
module Bitwise {

  /** 2 to the power n. */
  function Pow2(n: nat): (r: nat)
    ensures r >= 1
  {
    if n == 0 then 1 else 2 * Pow2(n - 1)
  }

  /** Bit k of x; bit 0 is the least significant one. */
  predicate Bit(x: nat, k: nat)
  {
    if k == 0 then x % 2 == 1 else Bit(x / 2, k - 1)
  }

  /** `a & b` */
  function And(a: nat, b: nat): (r: nat)
    ensures r <= a && r <= b
    decreases a + b
  {
    if a == 0 || b == 0 then 0
    else 2 * And(a / 2, b / 2) + (if a % 2 == 1 && b % 2 == 1 then 1 else 0)
  }

  /** `a | b` */
  function Or(a: nat, b: nat): (r: nat)
    ensures a <= r && b <= r && r <= a + b
    decreases a + b
  {
    if a == 0 && b == 0 then 0
    else 2 * Or(a / 2, b / 2) + (if a % 2 == 1 || b % 2 == 1 then 1 else 0)
  }

  /** `a & ~b`: the bits of a that are not set in b. */
  function AndNot(a: nat, b: nat): (r: nat)
    ensures r <= a
    decreases a
  {
    if a == 0 then 0
    else 2 * AndNot(a / 2, b / 2) + (if a % 2 == 1 && b % 2 == 0 then 1 else 0)
  }

  /** `x << s` on a natural: s doublings. */
  function Shl(x: nat, s: nat): (r: nat)
    ensures x <= r
  {
    if s == 0 then x else 2 * Shl(x, s - 1)
  }

  /** `x >> s` on a natural: s halvings, each dropping the lowest bit. */
  function Shr(x: nat, s: nat): (r: nat)
    ensures r <= x
  {
    if s == 0 then x else Shr(x / 2, s - 1)
  }

  /** No bit is set in both a and b. */
  ghost predicate Disjoint(a: nat, b: nat)
  {
    forall k: nat :: !(Bit(a, k) && Bit(b, k))
  }

  lemma {:induction false} BitOfZero(k: nat)
    ensures !Bit(0, k)
  {
    if k > 0 {
      BitOfZero(k - 1);
    }
  }

  lemma {:induction false} BitOfOne(k: nat)
    ensures Bit(1, k) <==> k == 0
  {
    if k > 0 {
      BitOfZero(k - 1);
    }
  }

  /** Two naturals with the same bits are equal. */
  lemma {:induction false} BitsDetermine(a: nat, b: nat)
    requires forall k: nat :: Bit(a, k) == Bit(b, k)
    ensures a == b
    decreases a + b
  {
    if a != 0 || b != 0 {
      assert Bit(a, 0) == Bit(b, 0);
      forall k: nat
        ensures Bit(a / 2, k) == Bit(b / 2, k)
      {
        assert Bit(a, k + 1) == Bit(b, k + 1);
      }
      BitsDetermine(a / 2, b / 2);
    }
  }

  /** A number below 2^n has no bit at position n or above. */
  lemma {:induction false} HighBitsClear(x: nat, n: nat, k: nat)
    requires x < Pow2(n) && n <= k
    ensures !Bit(x, k)
    decreases n
  {
    if n == 0 {
      BitOfZero(k);
    } else {
      HighBitsClear(x / 2, n - 1, k - 1);
    }
  }

  /** A number with no bit at position n or above is below 2^n. */
  lemma {:induction false} BelowPow2(x: nat, n: nat)
    requires forall k: nat :: n <= k ==> !Bit(x, k)
    ensures x < Pow2(n)
    decreases n
  {
    if n == 0 {
      forall k: nat
        ensures Bit(x, k) == Bit(0, k)
      {
        BitOfZero(k);
      }
      BitsDetermine(x, 0);
    } else {
      forall k: nat | n - 1 <= k
        ensures !Bit(x / 2, k)
      {
        assert !Bit(x, k + 1);
      }
      BelowPow2(x / 2, n - 1);
    }
  }

  lemma {:induction false} AndBit(a: nat, b: nat, k: nat)
    ensures Bit(And(a, b), k) == (Bit(a, k) && Bit(b, k))
    decreases k
  {
    if a == 0 || b == 0 {
      BitOfZero(k);
    } else if k > 0 {
      assert And(a, b) / 2 == And(a / 2, b / 2);
      AndBit(a / 2, b / 2, k - 1);
    }
  }

  lemma {:induction false} OrBit(a: nat, b: nat, k: nat)
    ensures Bit(Or(a, b), k) == (Bit(a, k) || Bit(b, k))
    decreases k
  {
    if a == 0 && b == 0 {
      BitOfZero(k);
    } else if k > 0 {
      assert Or(a, b) / 2 == Or(a / 2, b / 2);
      OrBit(a / 2, b / 2, k - 1);
    }
  }

  lemma {:induction false} AndNotBit(a: nat, b: nat, k: nat)
    ensures Bit(AndNot(a, b), k) == (Bit(a, k) && !Bit(b, k))
    decreases k
  {
    if a == 0 {
      BitOfZero(k);
    } else if k > 0 {
      assert AndNot(a, b) / 2 == AndNot(a / 2, b / 2);
      AndNotBit(a / 2, b / 2, k - 1);
    }
  }

  lemma {:induction false} ShlBit(x: nat, s: nat, k: nat)
    ensures Bit(Shl(x, s), k) == (s <= k && Bit(x, k - s))
    decreases s
  {
    if s > 0 {
      var y := Shl(x, s - 1);
      assert Shl(x, s) == 2 * y;
      if k > 0 {
        assert (2 * y) / 2 == y;
        ShlBit(x, s - 1, k - 1);
      }
    }
  }

  lemma {:induction false} ShrBit(x: nat, s: nat, k: nat)
    ensures Bit(Shr(x, s), k) == Bit(x, k + s)
    decreases s
  {
    if s > 0 {
      ShrBit(x / 2, s - 1, k);
    }
  }

  /** 2^n - 1 has exactly the bits 0 .. n-1 set. */
  lemma {:induction false} LowMaskBit(n: nat, k: nat)
    ensures Bit(Pow2(n) - 1, k) == (k < n)
    decreases n
  {
    if n == 0 {
      BitOfZero(k);
    } else if k > 0 {
      assert (Pow2(n) - 1) / 2 == Pow2(n - 1) - 1;
      LowMaskBit(n - 1, k - 1);
    }
  }

  /** `a | b == a + b` when no bit is set in both. */
  lemma {:induction false} OrDisjoint(a: nat, b: nat)
    requires Disjoint(a, b)
    ensures Or(a, b) == a + b
    decreases a + b
  {
    if a != 0 || b != 0 {
      assert !(Bit(a, 0) && Bit(b, 0));
      forall k: nat
        ensures !(Bit(a / 2, k) && Bit(b / 2, k))
      {
        assert !(Bit(a, k + 1) && Bit(b, k + 1));
      }
      OrDisjoint(a / 2, b / 2);
    }
  }

  /** `x << s` multiplies x by 2^s. */
  lemma {:induction false} ShlMul(x: nat, s: nat)
    ensures Shl(x, s) == x * Pow2(s)
    decreases s
  {
    if s > 0 {
      ShlMul(x, s - 1);
      assert x * Pow2(s) == 2 * (x * Pow2(s - 1));
    }
  }

  lemma MulLe(a: int, b: int, d: nat)
    requires a <= b
    ensures a * d <= b * d
  {
  }

  /** Quotient and remainder are unique. */
  lemma DivModUnique(x: nat, d: nat, q: nat, r: nat)
    requires r < d && x == q * d + r
    ensures x / d == q && x % d == r
  {
    var q', r' := x / d, x % d;
    assert x == q' * d + r';
    if q' < q {
      MulLe(q' + 1, q, d);
      assert false;
    } else if q < q' {
      MulLe(q + 1, q', d);
      assert false;
    }
  }

  lemma {:induction false} Pow2Add(a: nat, b: nat)
    ensures Pow2(a + b) == Pow2(a) * Pow2(b)
    decreases a
  {
    if a > 0 {
      Pow2Add(a - 1, b);
      assert Pow2(a) * Pow2(b) == 2 * (Pow2(a - 1) * Pow2(b));
    }
  }

  lemma {:induction false} Pow2Monotone(a: nat, b: nat)
    requires a <= b
    ensures Pow2(a) <= Pow2(b)
    decreases b
  {
    if a < b {
      Pow2Monotone(a, b - 1);
    }
  }

  lemma OrBits(a: nat, b: nat)
    ensures forall k: nat :: Bit(Or(a, b), k) == (Bit(a, k) || Bit(b, k))
  {
    forall k: nat
      ensures Bit(Or(a, b), k) == (Bit(a, k) || Bit(b, k))
    {
      OrBit(a, b, k);
    }
  }

  lemma AndNotBits(a: nat, b: nat)
    ensures forall k: nat :: Bit(AndNot(a, b), k) == (Bit(a, k) && !Bit(b, k))
  {
    forall k: nat
      ensures Bit(AndNot(a, b), k) == (Bit(a, k) && !Bit(b, k))
    {
      AndNotBit(a, b, k);
    }
  }

  /** A number with bit j set is at least 2^j. */
  lemma {:induction false} BitBound(x: nat, j: nat)
    requires Bit(x, j)
    ensures Pow2(j) <= x
    decreases j
  {
    if j > 0 {
      BitBound(x / 2, j - 1);
    }
  }

  /** A number below 2^n has all its bits from position n upwards clear. */
  lemma HighBitsClearAll(x: nat, n: nat)
    requires x < Pow2(n)
    ensures forall k: nat :: n <= k ==> !Bit(x, k)
  {
    forall k: nat | n <= k
      ensures !Bit(x, k)
    {
      HighBitsClear(x, n, k);
    }
  }

  /**
   `x >> s` is the quotient and `x & (2^s - 1)` the remainder of x divided
   by 2^s.
   */
  lemma ShiftMaskDivMod(x: nat, s: nat)
    ensures Shr(x, s) == x / Pow2(s)
    ensures And(x, Pow2(s) - 1) == x % Pow2(s)
  {
    var hi, lo := Shr(x, s), And(x, Pow2(s) - 1);
    forall k: nat
      ensures !(Bit(Shl(hi, s), k) && Bit(lo, k))
      ensures Bit(Or(Shl(hi, s), lo), k) == Bit(x, k)
      ensures s <= k ==> !Bit(lo, k)
    {
      OrBit(Shl(hi, s), lo, k);
      ShlBit(hi, s, k);
      AndBit(x, Pow2(s) - 1, k);
      LowMaskBit(s, k);
      if s <= k {
        ShrBit(x, s, k - s);
      }
    }
    BitsDetermine(Or(Shl(hi, s), lo), x);
    OrDisjoint(Shl(hi, s), lo);
    ShlMul(hi, s);
    BelowPow2(lo, s);
    DivModUnique(x, Pow2(s), hi, lo);
  }

  /** `x % 2^n` keeps the bits of x below n. */
  lemma ModPow2Bit(x: nat, n: nat, k: nat)
    ensures Bit(x % Pow2(n), k) == (k < n && Bit(x, k))
  {
    ShiftMaskDivMod(x, n);
    AndBit(x, Pow2(n) - 1, k);
    LowMaskBit(n, k);
  }
}
