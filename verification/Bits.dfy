/** Bitwise "and" on naturals, digit by digit, and what masking with a power of two
    less one computes. */
module Bits {
  import opened Machine
  import opened Arith

  function BitAnd(x: nat, y: nat): nat {
    if x == 0 || y == 0 then 0
    else 2 * BitAnd(x / 2, y / 2) + (if x % 2 == 1 && y % 2 == 1 then 1 else 0)
  }

  function Pow2(k: nat): nat {
    if k == 0 then 1 else 2 * Pow2(k - 1)
  }

  lemma {:induction false} Pow2Positive(k: nat)
    ensures Pow2(k) > 0
  {
    if k > 0 {
      Pow2Positive(k - 1);
    }
  }

  /** `x & (2^k - 1)` is the remainder modulo 2^k. */
  lemma {:induction false} MaskIsRemainder(x: nat, k: nat)
    ensures Pow2(k) > 0 && BitAnd(x, Pow2(k) - 1) == x % Pow2(k)
    decreases k
  {
    Pow2Positive(k);
    if k > 0 {
      var p := Pow2(k - 1);
      Pow2Positive(k - 1);
      MaskIsRemainder(x / 2, k - 1);
      ModSplit(x, 2, p);
      assert (2 * p - 1) / 2 == p - 1 && (2 * p - 1) % 2 == 1;
    }
  }

  lemma {:induction false} AndSelf(x: nat)
    ensures BitAnd(x, x) == x
    decreases x
  {
    if x > 0 {
      AndSelf(x / 2);
    }
  }

  ghost predicate IsPow2(c: nat) {
    exists k: nat :: c == Pow2(k)
  }

  lemma HalfIsPow2(c: nat)
    requires c > 1 && c % 2 == 0
    ensures IsPow2(c) <==> IsPow2(c / 2)
  {
    if k: nat :| c == Pow2(k) {
      assert k > 0;
      assert c / 2 == Pow2(k - 1);
    }
    if k: nat :| c / 2 == Pow2(k) {
      assert c == Pow2(k + 1);
    }
  }

  lemma OddIsNoPow2(c: nat)
    requires c > 1 && c % 2 == 1
    ensures !IsPow2(c) && BitAnd(c, c - 1) == c - 1
  {
    AndSelf(c / 2);
    assert (c - 1) / 2 == c / 2;
    forall k: nat
      ensures Pow2(k) != c
    {
      if k > 0 {
        assert Pow2(k) == 2 * Pow2(k - 1);
      }
    }
  }

  lemma EvenAnd(c: nat)
    requires c > 1 && c % 2 == 0
    ensures BitAnd(c, c - 1) == 2 * BitAnd(c / 2, c / 2 - 1)
  {
    assert (c - 1) / 2 == c / 2 - 1;
  }

  /** The compile-time check `(c & (c - 1)) == 0`, in 64-bit words, admits exactly 0 and
      the powers of two. */
  lemma PowerOfTwoCheck(c: u64)
    ensures BitAnd(c, (c - 1) % TWO_64) == 0 <==> c == 0 || IsPow2(c)
  {
    if c > 0 {
      SmallMod(c - 1, TWO_64);
      PositiveCheck(c);
    }
  }

  lemma {:induction false} PositiveCheck(c: nat)
    requires c > 0
    ensures BitAnd(c, c - 1) == 0 <==> IsPow2(c)
    decreases c
  {
    if c == 1 {
      assert c == Pow2(0);
    } else if c % 2 == 1 {
      OddIsNoPow2(c);
    } else {
      EvenAnd(c);
      HalfIsPow2(c);
      PositiveCheck(c / 2);
    }
  }

  lemma {:induction false} Pow2Splits(a: nat, b: nat)
    ensures Pow2(a + b) == Pow2(a) * Pow2(b)
    decreases a
  {
    if a > 0 {
      Pow2Splits(a - 1, b);
      MulAssoc(2, Pow2(a - 1), Pow2(b));
    }
  }

  /** Subtraction modulo 2^64 first and masking afterwards still gives the difference
      modulo 2^k. */
  lemma WrappedDifference(x: int, k: nat)
    requires k <= 64
    ensures Pow2(64) > 0 && Pow2(k) > 0
    ensures x % Pow2(64) % Pow2(k) == x % Pow2(k)
  {
    Pow2Positive(64);
    Pow2Positive(k);
    Pow2Splits(64 - k, k);
    var p, q := Pow2(k), Pow2(64 - k);
    var w := x / Pow2(64);
    DivFloor(x, Pow2(64));
    var r := x % Pow2(64);
    DivFloor(r, p);
    MulAssoc(w, q, p);
    MulAdd(w * q, r / p, p);
    QuotientUnique(x, p, w * q + r / p, r % p);
  }
}
