/**
 The branch-free population counts and the halving search for the lowest set bit
 (the bodies used where the compiler has no builtin), against bit-by-bit definitions.
 */
module BitCount {
  import opened Word

  /** Number of set bits of `w` among its `n` lowest. */
  function Weight(w: bv64, n: nat): (r: nat)
    requires n <= 64
    ensures r <= n
  {
    if n == 0 then 0 else Weight(w, n - 1) + if Bit(w, n - 1) then 1 else 0
  }

  lemma {:induction false} WeightSplit(w: bv64, p: nat, n: nat)
    requires p + n <= 64
    ensures Weight(w, p + n) == Weight(w, p) + Weight(Shr(w, p), n)
    decreases n
  {
    hide Bit;
    if n > 0 {
      WeightSplit(w, p, n - 1);
      ShrBit(w, p, n - 1);
    }
  }

  // ----- one byte -----

  function LowBit(x: bv64): nat {
    if x & 1 == 1 then 1 else 0
  }

  /** `hweight8()` on the low byte of a word. */
  function ByteCount(x: bv64): bv64 {
    var a := x - ((x >> 1) & 0x55);
    var b := (a & 0x33) + ((a >> 2) & 0x33);
    (b + (b >> 4)) & 0x0F
  }

  function LowSum(b0: bv64, b1: bv64, b2: bv64, b3: bv64, b4: bv64, b5: bv64, b6: bv64, b7: bv64): bv64 {
    (b0 & 1) + (b1 & 1) + (b2 & 1) + (b3 & 1) + (b4 & 1) + (b5 & 1) + (b6 & 1) + (b7 & 1)
  }

  lemma ByteCountSum(x: bv64)
    ensures
      var x1 := Half(x);
      var x2 := Half(x1);
      var x3 := Half(x2);
      var x4 := Half(x3);
      var x5 := Half(x4);
      var x6 := Half(x5);
      var x7 := Half(x6);
      ByteCount(x & 0xFF) == LowSum(x, x1, x2, x3, x4, x5, x6, x7)
  {
  }

  lemma SumOfBits(b0: bv64, b1: bv64, b2: bv64, b3: bv64, b4: bv64, b5: bv64, b6: bv64, b7: bv64)
    ensures LowSum(b0, b1, b2, b3, b4, b5, b6, b7) as nat
            == LowBit(b0) + LowBit(b1) + LowBit(b2) + LowBit(b3) + LowBit(b4) + LowBit(b5) + LowBit(b6) + LowBit(b7)
  {
  }

  lemma WeightPeel(x: bv64, n: nat)
    requires n < 64
    ensures Weight(x, n + 1) == LowBit(x) + Weight(Half(x), n)
    ensures Weight(Half(x), 0) == 0
  {
    WeightSplit(x, 1, n);
    assert Shr(x, 1) == Half(x);
    assert Weight(x, 1) == LowBit(x);
  }

  lemma ByteCountIsWeight(x: bv64)
    ensures ByteCount(x & 0xFF) as nat == Weight(x, 8)
  {
    hide *;
    var x1 := Half(x);
    var x2 := Half(x1);
    var x3 := Half(x2);
    var x4 := Half(x3);
    var x5 := Half(x4);
    var x6 := Half(x5);
    var x7 := Half(x6);
    ByteCountSum(x);
    WeightPeel(x, 7);
    WeightPeel(x1, 6);
    WeightPeel(x2, 5);
    WeightPeel(x3, 4);
    WeightPeel(x4, 3);
    WeightPeel(x5, 2);
    WeightPeel(x6, 1);
    WeightPeel(x7, 0);
    SumOfBits(x, x1, x2, x3, x4, x5, x6, x7);
  }

  // ----- adding up the bytes -----

  // Each step is a function of its own, so that a proof can use what it does and hide how.

  function Byte(x: bv64, p: bv7): bv64
    requires p < 64
  {
    (x >> p) & 0xFF
  }

  function Count8(x: bv64): bv64 { ByteCount(x & 0xFF) }
  function Right8(x: bv64): bv64 { x >> 8 }
  function Nat(x: bv64): nat { x as nat }
  function Plus(a: bv64, b: bv64): bv64 { a + b }

  // The three halving steps of `hweight64()`.
  function PairCounts(x: bv64): bv64 { x - ((x >> 1) & 0x5555_5555_5555_5555) }
  function NibbleCounts(x: bv64): bv64 { (x & 0x3333_3333_3333_3333) + ((x >> 2) & 0x3333_3333_3333_3333) }
  function OctetCounts(x: bv64): bv64 { (x + (x >> 4)) & 0x0F0F_0F0F_0F0F_0F0F }

  /** After them every byte holds the bit count of that byte of `x`. */
  function ByteCounts(x: bv64): bv64 {
    OctetCounts(NibbleCounts(PairCounts(x)))
  }

  // The three folding steps, and what bounds the bytes before each.
  function Fold8(c: bv64): bv64 { c + (c >> 8) }
  function Fold16(d: bv64): bv64 { d + (d >> 16) }
  function Fold32(e: bv64): bv64 { (e + (e >> 32)) & 0x7F }
  predicate Below16(c: bv64) { c & 0xF0F0_F0F0_F0F0_F0F0 == 0 }
  predicate Below32(d: bv64) { d & 0xE0E0_E0E0_E0E0_E0E0 == 0 }
  predicate Below64(e: bv64) { e & 0xC0C0_C0C0_C0C0_C0C0 == 0 }

  lemma ByteCounts01(x: bv64)
    ensures Byte(ByteCounts(x), 0) == Count8(x)
    ensures Byte(ByteCounts(x), 8) == Count8(Right8(x))
    ensures Below16(ByteCounts(x))
  {
  }

  lemma ByteCounts2(x: bv64)
    ensures Byte(ByteCounts(x), 16) == Count8(Right8(Right8(x)))
  {
  }

  lemma ByteCounts3(x: bv64)
    ensures Byte(ByteCounts(x), 24) == Count8(Right8(Right8(Right8(x))))
  {
  }

  lemma ByteCounts4(x: bv64)
    ensures Byte(ByteCounts(x), 32) == Count8(Right8(Right8(Right8(Right8(x)))))
  {
  }

  lemma ByteCounts5(x: bv64)
    ensures Byte(ByteCounts(x), 40) == Count8(Right8(Right8(Right8(Right8(Right8(x))))))
  {
  }

  lemma ByteCounts6(x: bv64)
    ensures Byte(ByteCounts(x), 48) == Count8(Right8(Right8(Right8(Right8(Right8(Right8(x)))))))
  {
  }

  lemma ByteCounts7(x: bv64)
    ensures Byte(ByteCounts(x), 56) == Count8(Right8(Right8(Right8(Right8(Right8(Right8(Right8(x))))))))
  {
  }

  lemma Fold8Low(c: bv64)
    requires Below16(c)
    ensures Byte(Fold8(c), 0) == Plus(Byte(c, 0), Byte(c, 8))
    ensures Byte(Fold8(c), 16) == Plus(Byte(c, 16), Byte(c, 24))
    ensures Below32(Fold8(c))
  {
  }

  lemma Fold8High(c: bv64)
    requires Below16(c)
    ensures Byte(Fold8(c), 32) == Plus(Byte(c, 32), Byte(c, 40))
    ensures Byte(Fold8(c), 48) == Plus(Byte(c, 48), Byte(c, 56))
  {
  }

  lemma Fold16Low(d: bv64)
    requires Below32(d)
    ensures Byte(Fold16(d), 0) == Plus(Byte(d, 0), Byte(d, 16))
    ensures Below64(Fold16(d))
  {
  }

  lemma Fold16High(d: bv64)
    requires Below32(d)
    ensures Byte(Fold16(d), 32) == Plus(Byte(d, 32), Byte(d, 48))
  {
  }

  lemma Fold32All(e: bv64)
    requires Below64(e)
    ensures Fold32(e) == Plus(Byte(e, 0), Byte(e, 32))
  {
  }

  function Sum8(b0: bv64, b1: bv64, b2: bv64, b3: bv64, b4: bv64, b5: bv64, b6: bv64, b7: bv64): bv64 {
    Plus(Plus(Plus(b0, b1), Plus(b2, b3)), Plus(Plus(b4, b5), Plus(b6, b7)))
  }

  lemma NextNat(a: bv64)
    requires a <= 200
    ensures Nat(Plus(a, 1)) == Nat(a) + 1
  {
  }

  lemma PlusSteps(a: bv64, b: bv64)
    requires a <= 64 && 0 < b <= 64
    ensures b - 1 <= 63 && Plus(Plus(a, b - 1), 1) == Plus(a, b) && Plus(a, b - 1) <= 200 && Plus(b - 1, 1) == b && Plus(a, 0) == a
  {
  }

  lemma {:induction false} AddNat(a: bv64, b: bv64)
    requires a <= 64 && b <= 64
    ensures Nat(Plus(a, b)) == Nat(a) + Nat(b)
    decreases b as nat
  {
    if b != 0 {
      PlusSteps(a, b);
      NextNat(b - 1);
      NextNat(Plus(a, b - 1));
      AddNat(a, b - 1);
    }
  }

  lemma AddNatBounded(a: bv64, b: bv64)
    requires Nat(a) <= 64 && Nat(b) <= 64
    ensures Nat(Plus(a, b)) == Nat(a) + Nat(b)
  {
    AddNat(a, b);
  }

  lemma Sum8Nat(b0: bv64, b1: bv64, b2: bv64, b3: bv64, b4: bv64, b5: bv64, b6: bv64, b7: bv64)
    requires Nat(b0) <= 8 && Nat(b1) <= 8 && Nat(b2) <= 8 && Nat(b3) <= 8
    requires Nat(b4) <= 8 && Nat(b5) <= 8 && Nat(b6) <= 8 && Nat(b7) <= 8
    ensures Nat(Sum8(b0, b1, b2, b3, b4, b5, b6, b7))
            == Nat(b0) + Nat(b1) + Nat(b2) + Nat(b3) + Nat(b4) + Nat(b5) + Nat(b6) + Nat(b7)
  {
    hide Plus, Nat;
    AddNatBounded(b0, b1);
    AddNatBounded(b2, b3);
    AddNatBounded(b4, b5);
    AddNatBounded(b6, b7);
    AddNatBounded(Plus(b0, b1), Plus(b2, b3));
    AddNatBounded(Plus(b4, b5), Plus(b6, b7));
    AddNatBounded(Plus(Plus(b0, b1), Plus(b2, b3)), Plus(Plus(b4, b5), Plus(b6, b7)));
  }

  lemma FoldedIsSum(c: bv64)
    requires Below16(c)
    ensures Fold32(Fold16(Fold8(c))) == Sum8(Byte(c, 0), Byte(c, 8), Byte(c, 16), Byte(c, 24),
                                             Byte(c, 32), Byte(c, 40), Byte(c, 48), Byte(c, 56))
  {
    hide Byte, Plus, Fold8, Fold16, Fold32, Below16, Below32, Below64;
    Fold8Low(c);
    Fold8High(c);
    Fold16Low(Fold8(c));
    Fold16High(Fold8(c));
    Fold32All(Fold16(Fold8(c)));
  }

  lemma WeightPeel8(x: bv64, n: nat)
    requires n <= 56
    ensures Weight(x, n + 8) == Weight(x, 8) + Weight(Right8(x), n)
    ensures Nat(Count8(x)) == Weight(x, 8)
    ensures Weight(Right8(x), 0) == 0
  {
    WeightSplit(x, 8, n);
    ShrEight(x, 0);
    ByteCountIsWeight(x);
  }

  lemma FoldedIsWeight(x: bv64)
    ensures Nat(Fold32(Fold16(Fold8(ByteCounts(x))))) == Weight(x, 64)
  {
    hide *;
    var x1 := Right8(x);
    var x2 := Right8(x1);
    var x3 := Right8(x2);
    var x4 := Right8(x3);
    var x5 := Right8(x4);
    var x6 := Right8(x5);
    var x7 := Right8(x6);
    ByteCounts01(x);
    ByteCounts2(x);
    ByteCounts3(x);
    ByteCounts4(x);
    ByteCounts5(x);
    ByteCounts6(x);
    ByteCounts7(x);
    FoldedIsSum(ByteCounts(x));
    WeightPeel8(x, 56);
    WeightPeel8(x1, 48);
    WeightPeel8(x2, 40);
    WeightPeel8(x3, 32);
    WeightPeel8(x4, 24);
    WeightPeel8(x5, 16);
    WeightPeel8(x6, 8);
    WeightPeel8(x7, 0);
    Sum8Nat(Count8(x), Count8(x1), Count8(x2), Count8(x3), Count8(x4), Count8(x5), Count8(x6), Count8(x7));
  }

  lemma HweightSteps(x: bv64)
    ensures ByteCounts(x) == OctetCounts(NibbleCounts(PairCounts(x)))
  {
  }

  method Hweight64(word: bv64) returns (count: nat)
    ensures count == Weight(word, 64)
  {
    hide *;
    var x := word;
    x := PairCounts(x);
    x := NibbleCounts(x);
    x := OctetCounts(x);
    x := Fold8(x);
    x := Fold16(x);
    x := Fold32(x);
    count := Nat(x);
    HweightSteps(word);
    FoldedIsWeight(word);
  }

  // ----- the narrower counts: the same steps on 8, 16 and 32 bits -----

  function Wide8(x: bv8): bv64 { x as bv64 }
  function Wide16(x: bv16): bv64 { x as bv64 }
  function Wide32(x: bv32): bv64 { x as bv64 }

  function Pairs8(x: bv8): bv8 { x - ((x >> 1) & 0x55) }
  function Nibbles8(x: bv8): bv8 { (x & 0x33) + ((x >> 2) & 0x33) }
  function Sum8Bits(x: bv8): bv8 { (x + (x >> 4)) & 0x0F }

  function Pairs16(x: bv16): bv16 { x - ((x >> 1) & 0x5555) }
  function Nibbles16(x: bv16): bv16 { (x & 0x3333) + ((x >> 2) & 0x3333) }
  function Octets16(x: bv16): bv16 { (x + (x >> 4)) & 0x0F0F }
  function Sum16(x: bv16): bv16 { (x + (x >> 8)) & 0x1F }

  function Pairs32(x: bv32): (r: bv32)
    ensures r as bv64 == (x as bv64) - (((x as bv64) >> 1) & 0x5555_5555_5555_5555)
  {
    Pairs32Raw(x);
    x - ((x >> 1) & 0x5555_5555)
  }

  lemma Pairs32Raw(x: bv32)
    ensures (x - ((x >> 1) & 0x5555_5555)) as bv64 == (x as bv64) - (((x as bv64) >> 1) & 0x5555_5555_5555_5555)
  {
  }

  function Nibbles32(x: bv32): bv32 { (x & 0x3333_3333) + ((x >> 2) & 0x3333_3333) }
  function Octets32(x: bv32): bv32 { (x + (x >> 4)) & 0x0F0F_0F0F }
  function Halves32(x: bv32): bv32 { x + (x >> 8) }
  function Sum32(x: bv32): bv32 { (x + (x >> 16)) & 0x3F }

  /** No step carries out of the narrow word, so each is the wide step on the widened word. */
  lemma Steps8Wide(x: bv8)
    ensures Wide8(Sum8Bits(Nibbles8(Pairs8(x)))) == Fold32(Fold16(Fold8(ByteCounts(Wide8(x)))))
  {
  }

  lemma Pairs16Wide(x: bv16)
    ensures Wide16(Pairs16(x)) == PairCounts(Wide16(x))
  {
  }

  lemma Octets16Wide(x: bv16)
    ensures Wide16(Octets16(Nibbles16(x))) == OctetCounts(NibbleCounts(Wide16(x)))
    ensures Below16(Wide16(Octets16(Nibbles16(x))))
  {
  }

  lemma Sum16Wide(x: bv16)
    requires Below16(Wide16(x))
    ensures Wide16(Sum16(x)) == Fold32(Fold16(Fold8(Wide16(x))))
  {
  }

  lemma Pairs32Wide(x: bv32)
    ensures Wide32(Pairs32(x)) == PairCounts(Wide32(x))
  {
    hide Pairs32;
  }

  lemma Octets32Wide(x: bv32)
    ensures Wide32(Octets32(Nibbles32(x))) == OctetCounts(NibbleCounts(Wide32(x)))
    ensures Below16(Wide32(Octets32(Nibbles32(x))))
  {
  }

  lemma Halves32Wide(x: bv32)
    requires Below16(Wide32(x))
    ensures Wide32(Halves32(x)) == Fold8(Wide32(x)) && Below32(Wide32(Halves32(x)))
  {
  }

  lemma Sum32Wide(x: bv32)
    requires Below32(Wide32(x))
    ensures Wide32(Sum32(x)) == Fold32(Fold16(Wide32(x)))
  {
  }

  lemma {:induction false} WeightZero(n: nat)
    requires n <= 64
    ensures Weight(0, n) == 0
  {
    if n > 0 {
      WeightZero(n - 1);
      ZeroBit(n - 1);
    }
  }

  lemma NarrowZero(x: bv8, y: bv16, z: bv32)
    ensures Right8(Wide8(x)) == 0 && Right8(Right8(Wide16(y))) == 0
    ensures Right8(Right8(Right8(Right8(Wide32(z))))) == 0
  {
  }

  lemma ShrRight8(x: bv64, n: nat)
    ensures Shr(x, n + 8) == Right8(Shr(x, n))
  {
    ShrEight(x, n);
  }

  lemma ShrNone(x: bv64)
    ensures Shr(x, 0) == x
  {
  }

  /** The set bits of a narrow word all lie in its own width. */
  lemma NarrowWeight(x: bv8, y: bv16, z: bv32)
    ensures Weight(Wide8(x), 64) == Weight(Wide8(x), 8)
    ensures Weight(Wide16(y), 64) == Weight(Wide16(y), 16)
    ensures Weight(Wide32(z), 64) == Weight(Wide32(z), 32)
  {
    hide *;
    NarrowZero(x, y, z);
    ShrNone(Wide8(x));
    ShrNone(Wide16(y));
    ShrNone(Wide32(z));
    ShrRight8(Wide8(x), 0);
    ShrRight8(Wide16(y), 0);
    ShrRight8(Wide16(y), 8);
    ShrRight8(Wide32(z), 0);
    ShrRight8(Wide32(z), 8);
    ShrRight8(Wide32(z), 16);
    ShrRight8(Wide32(z), 24);
    WeightSplit(Wide8(x), 8, 56);
    WeightSplit(Wide16(y), 16, 48);
    WeightSplit(Wide32(z), 32, 32);
    WeightZero(56);
    WeightZero(48);
    WeightZero(32);
  }

  method Hweight8(word: bv8) returns (count: nat)
    ensures count == Weight(word as bv64, 8)
  {
    assert Wide8(word) == word as bv64;
    hide *;
    var x := word;
    x := Pairs8(x);
    x := Nibbles8(x);
    x := Sum8Bits(x);
    count := Nat(Wide8(x));
    Steps8Wide(word);
    FoldedIsWeight(Wide8(word));
    NarrowWeight(word, 0, 0);
  }

  method Hweight16(word: bv16) returns (count: nat)
    ensures count == Weight(word as bv64, 16)
  {
    assert Wide16(word) == word as bv64;
    hide *;
    var x := word;
    x := Pairs16(x);
    Pairs16Wide(word);
    Octets16Wide(x);
    x := Nibbles16(x);
    x := Octets16(x);
    Sum16Wide(x);
    x := Sum16(x);
    count := Nat(Wide16(x));
    HweightSteps(Wide16(word));
    FoldedIsWeight(Wide16(word));
    NarrowWeight(0, word, 0);
  }

  method Hweight32(word: bv32) returns (count: nat)
    ensures count == Weight(word as bv64, 32)
  {
    assert Wide32(word) == word as bv64;
    hide *;
    var x := word;
    x := Pairs32(x);
    Pairs32Wide(word);
    Octets32Wide(x);
    x := Nibbles32(x);
    x := Octets32(x);
    Halves32Wide(x);
    x := Halves32(x);
    Sum32Wide(x);
    x := Sum32(x);
    count := Nat(Wide32(x));
    HweightSteps(Wide32(word));
    FoldedIsWeight(Wide32(word));
    NarrowWeight(0, 0, word);
  }

  // ----- the lowest set bit -----

  /** One more than the position of the lowest set bit; 0 for a word without one. */
  ghost predicate IsFfs(x: bv64, i: nat) {
    if x == 0 then i == 0
    else 1 <= i <= 64 && Bit(x, i - 1) && forall k: nat | k < i - 1 :: !Bit(x, k)
  }

  /** `2^n - 1`. */
  function LowMask(n: nat): bv64 {
    if n == 0 then 0 else if n > 64 then ALL_ONES else Shr(ALL_ONES, 64 - n)
  }

  lemma LowMaskBit(n: nat, k: nat)
    requires n <= 64 && k < 64
    ensures Bit(LowMask(n), k) == (k < n)
  {
    if n == 0 {
      ZeroBit(k);
    } else {
      ShrBit(ALL_ONES, 64 - n, k);
      if k < n {
        OnesBit(k + (64 - n));
      }
    }
  }

  /** `t & x == 0` for a mask of `n` ones says that none of the `n` low bits is set. */
  lemma MaskTest(x: bv64, n: nat)
    requires n <= 64
    ensures And(LowMask(n), x) == 0 ==> forall k: nat | k < n :: !Bit(x, k)
    ensures And(LowMask(n), x) != 0 ==> exists k: nat :: k < n && Bit(x, k)
  {
    hide Bit, LowMask, And;
    var t := And(LowMask(n), x);
    if t == 0 {
      forall k: nat | k < n ensures !Bit(x, k) {
        ZeroBit(k);
        LowMaskBit(n, k);
        AndBit(LowMask(n), x, k);
      }
    } else {
      var k := SomeBit(t);
      LowMaskBit(n, k);
      AndBit(LowMask(n), x, k);
    }
  }

  lemma LowMaskHalf(n: nat, m: nat)
    requires m < n <= 64
    ensures Shr(LowMask(n), n - m) == LowMask(m)
  {
    ShrShr(ALL_ONES, 64 - n, n - m);
    OnesShifted();
  }

  /** The lowest set bit of `word` is among the `n` bits from position `i - 1`, which `x` starts with. */
  ghost predicate Window(word: bv64, x: bv64, i: nat, n: nat) {
    && 1 <= i && i - 1 + n <= 64
    && x == Shr(word, i - 1)
    && (forall k: nat | k < i - 1 :: !Bit(word, k))
    && exists k: nat :: k < n && Bit(x, k)
  }

  lemma WindowHalves(word: bv64, x: bv64, i: nat, s: nat)
    requires 1 <= s <= 32 && Window(word, x, i, 2 * s)
    ensures And(LowMask(s), x) == 0 ==> Window(word, Shr(x, s), i + s, s)
    ensures And(LowMask(s), x) != 0 ==> Window(word, x, i, s)
  {
    hide Bit, LowMask, Shr, And;
    MaskTest(x, s);
    if And(LowMask(s), x) == 0 {
      forall k: nat | k < i - 1 + s ensures !Bit(word, k) {
        if k >= i - 1 {
          ShrBit(word, i - 1, k - (i - 1));
        }
      }
      var k: nat :| k < 2 * s && Bit(x, k);
      ShrBit(x, s, k - s);
      ShrShr(word, i - 1, s);
    }
  }

  lemma WindowOfOne(word: bv64, x: bv64, i: nat)
    requires Window(word, x, i, 1)
    ensures 1 <= i <= 64 && Bit(word, i - 1) && forall k: nat | k < i - 1 :: !Bit(word, k)
  {
    hide Bit, Shr;
    ShrBit(word, i - 1, 0);
  }

  /** `bitops_ffs()`: halve the window that holds the lowest set bit. */
  method Ffs(word: bv64) returns (i: nat)
    ensures IsFfs(word, i)
  {
    if word == 0 {
      return 0;
    }
    hide Bit, LowMask, Shr, And, Window;
    var x := word;
    i := 1;
    var t := ALL_ONES;
    var shift := 64;
    shift := shift / 2;
    t := Shr(t, shift);
    WindowOfAll(word);
    while shift != 0
      invariant shift in {0, 1, 2, 4, 8, 16, 32}
      invariant i >= 1
      invariant t == LowMask(if shift == 0 then 1 else shift)
      invariant Window(word, x, i, if shift == 0 then 1 else 2 * shift)
      decreases shift
    {
      WindowHalves(word, x, i, shift);
      if And(t, x) == 0 {
        i := i + shift;
        x := Shr(x, shift);
      }
      if shift > 1 {
        LowMaskHalf(shift, shift / 2);
      }
      ShrNone(t);
      shift := shift / 2;
      t := Shr(t, shift);
    }
    WindowOfOne(word, x, i);
  }

  lemma WindowOfAll(word: bv64)
    requires word != 0
    ensures Window(word, word, 1, 64) && Shr(ALL_ONES, 32) == LowMask(32)
  {
    hide Bit, Shr;
    ShrNone(word);
    var k := SomeBit(word);
  }
}
