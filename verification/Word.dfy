/**
 64-bit machine words (`unsigned long` on the target), seen as 64 numbered bits.
 Everything the bitmap code does to a whole word is described here by what it does to
 each of its bits.
 */
module Word {
  const ALL_ONES: bv64 := 0xFFFF_FFFF_FFFF_FFFF

  /** `w >> n`, as `n` shifts by one position. */
  function Shr(w: bv64, n: nat): bv64
    decreases n
  {
    if n == 0 then w else Shr(w >> 1, n - 1)
  }

  /** `w << n`, as `n` shifts by one position. */
  function Shl(w: bv64, n: nat): bv64
    decreases n
  {
    if n == 0 then w else Shl(w << 1, n - 1)
  }

  /** Bit `k` of `w`, counted from the least significant end. */
  predicate Bit(w: bv64, k: nat)
    requires k < 64
  {
    Shr(w, k) & 1 == 1
  }

  // ----- right shifts -----

  lemma {:induction false} ShrShr(w: bv64, m: nat, n: nat)
    ensures Shr(Shr(w, m), n) == Shr(w, m + n)
    decreases m
  {
    if m > 0 {
      ShrShr(w >> 1, m - 1, n);
    }
  }

  lemma ShrLast(w: bv64, n: nat)
    ensures Shr(w, n + 1) == Shr(w, n) >> 1
  {
    ShrShr(w, n, 1);
    assert Shr(Shr(w, n) >> 1, 0) == Shr(w, n) >> 1;
  }

  lemma ShrEight(w: bv64, n: nat)
    ensures Shr(w, n + 8) == Shr(w, n) >> 8
  {
    ShrLast(w, n);
    ShrLast(w, n + 1);
    ShrLast(w, n + 2);
    ShrLast(w, n + 3);
    ShrLast(w, n + 4);
    ShrLast(w, n + 5);
    ShrLast(w, n + 6);
    ShrLast(w, n + 7);
  }

  /** `ALL_ONES >> n` is what is left of the word after `n` shifts. */
  lemma OnesShifted()
    ensures Shr(ALL_ONES, 63) == 1 && Shr(ALL_ONES, 64) == 0
  {
    ShrEight(ALL_ONES, 0);
    ShrEight(ALL_ONES, 8);
    ShrEight(ALL_ONES, 16);
    ShrEight(ALL_ONES, 24);
    ShrEight(ALL_ONES, 32);
    ShrEight(ALL_ONES, 40);
    ShrEight(ALL_ONES, 48);
    assert Shr(ALL_ONES, 56) == 0xFF;
    ShrEight(ALL_ONES, 56);
    ShrEight(ALL_ONES, 55);
    ShrLast(ALL_ONES, 55);
    assert Shr(ALL_ONES, 55) >> 1 == 0xFF;
  }

  // The operators under names, so that a proof can hide what they are.
  function Half(x: bv64): bv64 { x >> 1 }
  function And(x: bv64, y: bv64): bv64 { x & y }
  function Or(x: bv64, y: bv64): bv64 { x | y }

  lemma HalfAnd(x: bv64, y: bv64)
    ensures Half(And(x, y)) == And(Half(x), Half(y))
  {
  }

  lemma HalfOr(x: bv64, y: bv64)
    ensures Half(Or(x, y)) == Or(Half(x), Half(y))
  {
  }

  lemma ShrHalf(w: bv64, n: nat)
    ensures Shr(w, n + 1) == Half(Shr(w, n))
  {
    ShrLast(w, n);
  }

  lemma {:induction false} ShrAndOr(x: bv64, y: bv64, n: nat)
    ensures Shr(And(x, y), n) == And(Shr(x, n), Shr(y, n))
    ensures Shr(Or(x, y), n) == Or(Shr(x, n), Shr(y, n))
    decreases n
  {
    hide And, Or, Half;
    if n > 0 {
      hide Shr;
      ShrAndOr(x, y, n - 1);
      ShrHalf(And(x, y), n - 1);
      ShrHalf(Or(x, y), n - 1);
      ShrHalf(x, n - 1);
      ShrHalf(y, n - 1);
      HalfAnd(Shr(x, n - 1), Shr(y, n - 1));
      HalfOr(Shr(x, n - 1), Shr(y, n - 1));
    }
  }

  lemma {:induction false} ShrZero(n: nat)
    ensures Shr(0, n) == 0
    decreases n
  {
    if n > 0 {
      ShrZero(n - 1);
    }
  }

  /** 64 or more shifts leave nothing. */
  lemma ShrOut(w: bv64, n: nat)
    requires n >= 64
    ensures Shr(w, n) == 0
  {
    hide Shr, And, Or;
    AndConstants(w);
    ShrAndOr(w, ALL_ONES, 64);
    OnesShifted();
    AndConstants(Shr(w, 64));
    ShrShr(w, 64, n - 64);
    ShrZero(n - 64);
  }

  lemma AndConstants(x: bv64)
    ensures And(x, 0) == 0 && And(x, ALL_ONES) == x
  {
  }

  /** Every bit of `ALL_ONES` is set. */
  lemma OnesBit(k: nat)
    requires k < 64
    ensures Bit(ALL_ONES, k)
  {
    OnesMask(k);
    OnesShifted();
    ShrShr(ALL_ONES, k, 63 - k);
    ShrZero(63 - k);
    MaskOdd(Shr(ALL_ONES, k));
  }

  lemma {:induction false} OnesMask(n: nat)
    ensures Shr(ALL_ONES, n) & (Shr(ALL_ONES, n) + 1) == 0
    decreases n
  {
    if n > 0 {
      OnesMask(n - 1);
      ShrLast(ALL_ONES, n - 1);
      MaskHalf(Shr(ALL_ONES, n - 1));
    }
  }

  lemma MaskHalf(m: bv64)
    requires m & (m + 1) == 0
    ensures (m >> 1) & ((m >> 1) + 1) == 0
  {
  }

  lemma MaskOdd(m: bv64)
    requires m & (m + 1) == 0 && m != 0
    ensures m & 1 == 1
  {
  }

  // ----- bits of results -----

  /** Shifting right by `n` moves bit `k + n` to position `k` and fills with zeros. */
  lemma ShrBit(w: bv64, n: nat, k: nat)
    requires k < 64
    ensures Bit(Shr(w, n), k) == (k + n < 64 && Bit(w, k + n))
  {
    ShrShr(w, n, k);
    if k + n >= 64 {
      ShrOut(w, k + n);
    }
  }

  lemma ShlOne(w: bv64, k: nat)
    requires k < 64
    ensures Bit(w << 1, k) == (1 <= k && Bit(w, k - 1))
  {
    ShlShr(w);
    if k > 0 {
      assert Shr(w << 1, k) == Shr((w << 1) >> 1, k - 1);
      OnesBit(k);
      assert Shr(ALL_ONES, k) == Shr(ALL_ONES >> 1, k - 1);
      hide Shr, And, Or;
      ShrAndOr(w, ALL_ONES >> 1, k - 1);
      BothOdd(Shr(w, k - 1), Shr(ALL_ONES >> 1, k - 1));
    }
  }

  lemma ShlShr(w: bv64)
    ensures (w << 1) & 1 == 0
    ensures (w << 1) >> 1 == And(w, ALL_ONES >> 1)
  {
  }

  lemma BothOdd(x: bv64, y: bv64)
    ensures (And(x, y) & 1 == 1) == (x & 1 == 1 && y & 1 == 1)
    ensures (Or(x, y) & 1 == 1) == (x & 1 == 1 || y & 1 == 1)
  {
  }

  /** Shifting left by `n` moves bit `k - n` to position `k` and fills with zeros. */
  lemma {:induction false} ShlBit(w: bv64, n: nat, k: nat)
    requires k < 64
    ensures Bit(Shl(w, n), k) == (n <= k && Bit(w, k - n))
    decreases n
  {
    hide Bit;
    if n > 0 {
      ShlBit(w << 1, n - 1, k);
      if n - 1 <= k {
        ShlOne(w, k - (n - 1));
      }
    }
  }

  lemma AndBit(x: bv64, y: bv64, k: nat)
    requires k < 64
    ensures Bit(And(x, y), k) == (Bit(x, k) && Bit(y, k))
  {
    hide And, Or, Shr;
    ShrAndOr(x, y, k);
    BothOdd(Shr(x, k), Shr(y, k));
  }

  lemma OrBit(x: bv64, y: bv64, k: nat)
    requires k < 64
    ensures Bit(Or(x, y), k) == (Bit(x, k) || Bit(y, k))
  {
    hide And, Or, Shr;
    ShrAndOr(x, y, k);
    BothOdd(Shr(x, k), Shr(y, k));
  }

  function Not(x: bv64): bv64 { x ^ ALL_ONES }

  lemma NotParts(x: bv64)
    ensures And(x, Not(x)) == 0 && Or(x, Not(x)) == ALL_ONES
  {
  }

  /** `~x` flips every bit. */
  lemma NotBit(x: bv64, k: nat)
    requires k < 64
    ensures Bit(Not(x), k) == !Bit(x, k)
  {
    hide Bit, And, Or, Not;
    NotParts(x);
    OnesBit(k);
    ZeroBit(k);
    AndBit(x, Not(x), k);
    OrBit(x, Not(x), k);
  }

  lemma ZeroBit(k: nat)
    requires k < 64
    ensures !Bit(0, k)
  {
    ShrZero(k);
  }

  /** A word that is not zero has a set bit. */
  lemma SomeBit(w: bv64) returns (k: nat)
    requires w != 0
    ensures k < 64 && Bit(w, k)
  {
    k := 0;
    while k < 64 && !Bit(w, k)
      invariant k <= 64 && Shr(w, k) != 0
    {
      ShrLast(w, k);
      EvenHalf(Shr(w, k));
      k := k + 1;
    }
    if k == 64 {
      ShrOut(w, 64);
    }
  }

  lemma EvenHalf(w: bv64)
    requires w != 0 && w & 1 != 1
    ensures w >> 1 != 0
  {
  }

  // ----- the word masks -----

  /** `BITMAP_FIRST_WORD_MASK(start)`: ones from the position of `start` upward. */
  function FirstWordMask(start: nat): bv64 {
    Shl(ALL_ONES, start % 64)
  }

  /** `BITMAP_LAST_WORD_MASK(bits)`: ones below the position of `bits`, all ones on a boundary. */
  function LastWordMask(bits: nat): bv64 {
    Shr(ALL_ONES, (64 - bits % 64) % 64)
  }

  lemma FirstMaskBit(start: nat, k: nat)
    requires k < 64
    ensures Bit(FirstWordMask(start), k) == (start % 64 <= k)
  {
    ShlBit(ALL_ONES, start % 64, k);
    if start % 64 <= k {
      OnesBit(k - start % 64);
    }
  }

  lemma LastMaskBit(bits: nat, k: nat)
    requires k < 64
    ensures Bit(LastWordMask(bits), k) == (bits % 64 == 0 || k < bits % 64)
  {
    var n := (64 - bits % 64) % 64;
    ShrBit(ALL_ONES, n, k);
    if k + n < 64 {
      OnesBit(k + n);
    }
  }
}
