/**
 Bitmaps packed into arrays of 64-bit words.  The specification of a bitmap is the plain
 sequence of its bits; `At(words, k)` is bit `k`.
 */
module Bitmap {
  import opened Word
  import opened BitCount

  /** `BITS_TO_LONGS(bits)`. */
  function WordsFor(bits: nat): nat {
    (bits + 63) / 64
  }

  /** Bit `k` of the bitmap: bit `k % 64` of word `k / 64`. */
  predicate At(words: seq<bv64>, k: nat) {
    k / 64 < |words| && Bit(words[k / 64], k % 64)
  }

  /** Bit `p` of a bitmap of `bits` bits; nothing is set beyond its end. */
  predicate Src(words: seq<bv64>, bits: nat, p: nat) {
    p < bits && At(words, p)
  }

  lemma AtWord(words: seq<bv64>, j: nat, b: nat)
    requires j < |words| && b < 64
    ensures At(words, 64 * j + b) == Bit(words[j], b)
  {
  }

  /** The mask of the last word keeps exactly the positions below `bits`. */
  lemma LastWordBit(bits: nat, b: nat)
    requires bits > 0 && b < 64
    ensures Bit(LastWordMask(bits), b) == (64 * (WordsFor(bits) - 1) + b < bits)
  {
    LastMaskBit(bits, b);
  }

  /** Word `j` of `words`, with the overhead bits masked off in the last word of the bitmap. */
  function Masked(words: seq<bv64>, bits: nat, j: nat): bv64
    requires bits > 0 && j < WordsFor(bits) <= |words|
  {
    if j == WordsFor(bits) - 1 then And(words[j], LastWordMask(bits)) else words[j]
  }

  lemma MaskedBit(words: seq<bv64>, bits: nat, j: nat, b: nat)
    requires bits > 0 && j < WordsFor(bits) <= |words| && b < 64
    ensures Bit(Masked(words, bits, j), b) == Src(words, bits, 64 * j + b)
  {
    hide Bit, And, LastWordMask;
    AtWord(words, j, b);
    if j == WordsFor(bits) - 1 {
      LastWordBit(bits, b);
      AndBit(words[j], LastWordMask(bits), b);
    }
  }

  // ----- setting and clearing a range -----

  method SetRange(bitmap: array<bv64>, start: nat, bits: nat)
    requires start + bits <= 64 * bitmap.Length
    modifies bitmap
    ensures forall k: nat | k < 64 * bitmap.Length ::
      At(bitmap[..], k) == (start <= k < start + bits || old(At(bitmap[..], k)))
  {
    hide Bit, Or, And, FirstWordMask, LastWordMask;
    var end := start + bits;
    var l := end / 64;
    var mask := FirstWordMask(start);
    var maskBits := 64 - start % 64;
    var left := bits;
    var i := start / 64;
    ghost var before := bitmap[..];
    while i < l
      invariant start / 64 <= i && (i <= l || i == start / 64)
      invariant mask == if i == start / 64 then FirstWordMask(start) else ALL_ONES
      invariant maskBits == if i == start / 64 then 64 - start % 64 else 64
      invariant left == if i == start / 64 then bits else end - 64 * i
      invariant forall j | i <= j < bitmap.Length :: bitmap[j] == before[j]
      invariant forall j, b: nat | 0 <= j < bitmap.Length && b < 64 ::
        Bit(bitmap[j], b) == (start <= 64 * j + b < 64 * i || Bit(before[j], b))
    {
      forall b: nat | b < 64
        ensures Bit(Or(before[i], mask), b) == (start <= 64 * i + b || Bit(before[i], b))
      {
        OrBit(before[i], mask, b);
        FirstMaskBit(start, b);
        OnesBit(b);
      }
      bitmap[i] := Or(bitmap[i], mask);
      left := left - maskBits;
      mask := ALL_ONES;
      maskBits := 64;
      i := i + 1;
    }
    if left != 0 {
      forall b: nat | b < 64
        ensures Bit(Or(before[l], And(mask, LastWordMask(end))), b) == (start <= 64 * l + b < end || Bit(before[l], b))
      {
        OrBit(before[l], And(mask, LastWordMask(end)), b);
        AndBit(mask, LastWordMask(end), b);
        FirstMaskBit(start, b);
        OnesBit(b);
        LastMaskBit(end, b);
      }
      bitmap[l] := Or(bitmap[l], And(mask, LastWordMask(end)));
    }
    forall k: nat | k < 64 * bitmap.Length
      ensures At(bitmap[..], k) == (start <= k < end || At(before, k))
    {
      assert Bit(bitmap[k / 64], k % 64) == (start <= 64 * (k / 64) + k % 64 < end || Bit(before[k / 64], k % 64));
    }
  }

  method ClearRange(bitmap: array<bv64>, start: nat, bits: nat)
    requires start + bits <= 64 * bitmap.Length
    modifies bitmap
    ensures forall k: nat | k < 64 * bitmap.Length ::
      At(bitmap[..], k) == (!(start <= k < start + bits) && old(At(bitmap[..], k)))
  {
    hide Bit, Or, And, Not, FirstWordMask, LastWordMask;
    var end := start + bits;
    var l := end / 64;
    var mask := FirstWordMask(start);
    var maskBits := 64 - start % 64;
    var left := bits;
    var i := start / 64;
    ghost var before := bitmap[..];
    while i < l
      invariant start / 64 <= i && (i <= l || i == start / 64)
      invariant mask == if i == start / 64 then FirstWordMask(start) else ALL_ONES
      invariant maskBits == if i == start / 64 then 64 - start % 64 else 64
      invariant left == if i == start / 64 then bits else end - 64 * i
      invariant forall j | i <= j < bitmap.Length :: bitmap[j] == before[j]
      invariant forall j, b: nat | 0 <= j < bitmap.Length && b < 64 ::
        Bit(bitmap[j], b) == (!(start <= 64 * j + b < 64 * i) && Bit(before[j], b))
    {
      forall b: nat | b < 64
        ensures Bit(And(before[i], Not(mask)), b) == (!(start <= 64 * i + b) && Bit(before[i], b))
      {
        AndBit(before[i], Not(mask), b);
        NotBit(mask, b);
        FirstMaskBit(start, b);
        OnesBit(b);
      }
      bitmap[i] := And(bitmap[i], Not(mask));
      left := left - maskBits;
      mask := ALL_ONES;
      maskBits := 64;
      i := i + 1;
    }
    if left != 0 {
      forall b: nat | b < 64
        ensures Bit(And(before[l], Not(And(mask, LastWordMask(end)))), b)
                == (!(start <= 64 * l + b < end) && Bit(before[l], b))
      {
        AndBit(before[l], Not(And(mask, LastWordMask(end))), b);
        NotBit(And(mask, LastWordMask(end)), b);
        AndBit(mask, LastWordMask(end), b);
        FirstMaskBit(start, b);
        OnesBit(b);
        LastMaskBit(end, b);
      }
      bitmap[l] := And(bitmap[l], Not(And(mask, LastWordMask(end))));
    }
    forall k: nat | k < 64 * bitmap.Length
      ensures At(bitmap[..], k) == (!(start <= k < end) && At(before, k))
    {
      assert Bit(bitmap[k / 64], k % 64) == (!(start <= 64 * (k / 64) + k % 64 < end) && Bit(before[k / 64], k % 64));
    }
  }

  // ----- searching -----

  /** `pos` is the first position at or after `start` and below `bits` whose bit is `value`; `bits` if none. */
  ghost predicate IsNext(words: seq<bv64>, bits: nat, start: nat, value: bool, pos: nat) {
    && pos <= bits
    && (pos < bits ==> start <= pos && At(words, pos) == value)
    && forall k: nat | start <= k < pos :: At(words, k) != value
  }

  /** `t` shows, in its set bits, where word `j` has the bit `value` from position `start` on. */
  ghost predicate Shows(t: bv64, words: seq<bv64>, start: nat, j: nat, value: bool) {
    j < |words| && forall b: nat | b < 64 :: Bit(t, b) == (start <= 64 * j + b && Bit(words[j], b) == value)
  }

  lemma NoneInWord(words: seq<bv64>, start: nat, j: nat, value: bool)
    requires Shows(0, words, start, j, value)
    ensures forall k: nat | start <= k && 64 * j <= k < 64 * j + 64 :: At(words, k) != value
  {
    hide Bit;
    forall k: nat | start <= k && 64 * j <= k < 64 * j + 64 ensures At(words, k) != value {
      ZeroBit(k - 64 * j);
      AtWord(words, j, k - 64 * j);
    }
  }

  lemma FirstInWord(words: seq<bv64>, start: nat, j: nat, t: bv64, f: nat, value: bool)
    requires t != 0 && IsFfs(t, f) && Shows(t, words, start, j, value)
    ensures start <= 64 * j + f - 1 && At(words, 64 * j + f - 1) == value
    ensures forall k: nat | start <= k && 64 * j <= k < 64 * j + f - 1 :: At(words, k) != value
  {
    hide Bit;
    AtWord(words, j, f - 1);
    forall k: nat | start <= k && 64 * j <= k < 64 * j + f - 1 ensures At(words, k) != value {
      AtWord(words, j, k - 64 * j);
    }
  }

  method FindNextBit(bitmap: array<bv64>, bits: nat, start: nat) returns (pos: nat)
    requires WordsFor(bits) <= bitmap.Length
    ensures IsNext(bitmap[..], bits, start, true, pos)
    ensures start >= bits ==> pos == bits
  {
    if start >= bits {
      return bits;
    }
    hide Bit, And, FirstWordMask;
    var l := WordsFor(bits);
    var firstLong := start / 64;
    var longLower := start - start % 64;
    var t := And(bitmap[firstLong], FirstWordMask(start));
    forall b: nat | b < 64
      ensures Bit(t, b) == (start <= 64 * firstLong + b && Bit(bitmap[firstLong], b))
    {
      AndBit(bitmap[firstLong], FirstWordMask(start), b);
      FirstMaskBit(start, b);
    }
    var i := firstLong + 1;
    while t == 0 && i < l
      invariant firstLong < i <= l && longLower == 64 * (i - 1)
      invariant Shows(t, bitmap[..], start, i - 1, true)
      invariant forall k: nat | start <= k < longLower :: !At(bitmap[..], k)
    {
      NoneInWord(bitmap[..], start, i - 1, true);
      longLower := longLower + 64;
      t := bitmap[i];
      i := i + 1;
    }
    if t == 0 {
      NoneInWord(bitmap[..], start, i - 1, true);
      return bits;
    }
    var f := Ffs(t);
    FirstInWord(bitmap[..], start, i - 1, t, f, true);
    pos := longLower + f - 1;
    if pos >= bits {
      return bits;
    }
  }

  method FindNextZeroBit(bitmap: array<bv64>, bits: nat, start: nat) returns (pos: nat)
    requires WordsFor(bits) <= bitmap.Length
    ensures IsNext(bitmap[..], bits, start, false, pos)
    ensures start >= bits ==> pos == bits
  {
    if start >= bits {
      return bits;
    }
    hide Bit, Or, Not, FirstWordMask;
    var l := WordsFor(bits);
    var firstLong := start / 64;
    var longLower := start - start % 64;
    var t := Or(bitmap[firstLong], Not(FirstWordMask(start)));
    t := Not(t);
    forall b: nat | b < 64
      ensures Bit(t, b) == (start <= 64 * firstLong + b && !Bit(bitmap[firstLong], b))
    {
      NotBit(Or(bitmap[firstLong], Not(FirstWordMask(start))), b);
      OrBit(bitmap[firstLong], Not(FirstWordMask(start)), b);
      NotBit(FirstWordMask(start), b);
      FirstMaskBit(start, b);
    }
    var i := firstLong + 1;
    while t == 0 && i < l
      invariant firstLong < i <= l && longLower == 64 * (i - 1)
      invariant Shows(t, bitmap[..], start, i - 1, false)
      invariant forall k: nat | start <= k < longLower :: At(bitmap[..], k)
    {
      NoneInWord(bitmap[..], start, i - 1, false);
      longLower := longLower + 64;
      t := bitmap[i];
      t := Not(t);
      forall b: nat | b < 64 ensures Bit(t, b) == !Bit(bitmap[i], b) {
        NotBit(bitmap[i], b);
      }
      i := i + 1;
    }
    if t == 0 {
      NoneInWord(bitmap[..], start, i - 1, false);
      return bits;
    }
    var f := Ffs(t);
    FirstInWord(bitmap[..], start, i - 1, t, f, false);
    pos := longLower + f - 1;
    if pos >= bits {
      return bits;
    }
  }

  // ----- visiting and counting -----

  /** The positions below `n` whose bit is `value`, in increasing order. */
  function Positions(words: seq<bv64>, n: nat, value: bool): seq<nat> {
    if n == 0 then []
    else Positions(words, n - 1, value) + if At(words, n - 1) == value then [n - 1] else []
  }

  lemma {:induction false} PositionsExact(words: seq<bv64>, n: nat, value: bool)
    ensures forall k: nat :: k in Positions(words, n, value) <==> k < n && At(words, k) == value
    ensures forall i, j | 0 <= i < j < |Positions(words, n, value)| ::
      Positions(words, n, value)[i] < Positions(words, n, value)[j]
  {
    hide Bit;
    if n > 0 {
      PositionsExact(words, n - 1, value);
      var p := Positions(words, n - 1, value);
      forall i | 0 <= i < |p| ensures p[i] < n - 1 {
        assert p[i] in p;
      }
    }
  }

  lemma {:induction false} PositionsSkip(words: seq<bv64>, m: nat, n: nat, value: bool)
    requires m <= n && forall k: nat | m <= k < n :: At(words, k) != value
    ensures Positions(words, n, value) == Positions(words, m, value)
    decreases n
  {
    hide Bit;
    if m < n {
      PositionsSkip(words, m, n - 1, value);
    }
  }

  /** `for_each_set_bit`, recording where its body runs. */
  method ForEachSetBit(bitmap: array<bv64>, bits: nat) returns (visited: seq<nat>)
    requires WordsFor(bits) <= bitmap.Length
    ensures visited == Positions(bitmap[..], bits, true)
  {
    hide At;
    visited := [];
    var bit := FindNextBit(bitmap, bits, 0);
    PositionsSkip(bitmap[..], 0, bit, true);
    while bit < bits
      invariant bit <= bits
      invariant bit < bits ==> At(bitmap[..], bit)
      invariant visited == Positions(bitmap[..], bit, true)
      decreases bits - bit
    {
      visited := visited + [bit];
      var next := FindNextBit(bitmap, bits, bit + 1);
      PositionsSkip(bitmap[..], bit + 1, next, true);
      bit := next;
    }
  }

  /** `for_each_clear_bit`, recording where its body runs. */
  method ForEachClearBit(bitmap: array<bv64>, bits: nat) returns (visited: seq<nat>)
    requires WordsFor(bits) <= bitmap.Length
    ensures visited == Positions(bitmap[..], bits, false)
  {
    hide At;
    visited := [];
    var bit := FindNextZeroBit(bitmap, bits, 0);
    PositionsSkip(bitmap[..], 0, bit, false);
    while bit < bits
      invariant bit <= bits
      invariant bit < bits ==> !At(bitmap[..], bit)
      invariant visited == Positions(bitmap[..], bit, false)
      decreases bits - bit
    {
      visited := visited + [bit];
      var next := FindNextZeroBit(bitmap, bits, bit + 1);
      PositionsSkip(bitmap[..], bit + 1, next, false);
      bit := next;
    }
  }

  lemma {:induction false} PositionsOfWord(words: seq<bv64>, j: nat, w: bv64, n: nat)
    requires j < |words| && n <= 64
    requires forall b: nat | b < n :: Bit(w, b) == Bit(words[j], b)
    ensures |Positions(words, 64 * j + n, true)| == |Positions(words, 64 * j, true)| + Weight(w, n)
    decreases n
  {
    hide Bit;
    if n > 0 {
      PositionsOfWord(words, j, w, n - 1);
      AtWord(words, j, n - 1);
    }
  }

  lemma {:induction false} WeightBeyond(w: bv64, m: nat, n: nat)
    requires m <= n <= 64 && forall b: nat | m <= b < n :: !Bit(w, b)
    ensures Weight(w, n) == Weight(w, m)
    decreases n
  {
    hide Bit;
    if m < n {
      WeightBeyond(w, m, n - 1);
    }
  }

  method BitmapWeight(bitmap: array<bv64>, bits: nat) returns (sum: nat)
    requires 0 < bits && WordsFor(bits) <= bitmap.Length
    ensures sum == |Positions(bitmap[..], bits, true)|
  {
    hide Bit, LastWordMask, And;
    var l := WordsFor(bits);
    sum := 0;
    var i := 0;
    while i < l - 1
      invariant 0 <= i <= l - 1
      invariant sum == |Positions(bitmap[..], 64 * i, true)|
    {
      var w := Hweight64(bitmap[i]);
      PositionsOfWord(bitmap[..], i, bitmap[i], 64);
      sum := sum + w;
      i := i + 1;
    }
    var last := And(bitmap[l - 1], LastWordMask(bits));
    var n := bits - 64 * (l - 1);
    forall b: nat | b < 64 ensures Bit(last, b) == (b < n && Bit(bitmap[l - 1], b)) {
      AndBit(bitmap[l - 1], LastWordMask(bits), b);
      LastWordBit(bits, b);
    }
    PositionsOfWord(bitmap[..], l - 1, last, n);
    WeightBeyond(last, n, 64);
    var w := Hweight64(last);
    sum := sum + w;
  }

  // ----- shifting -----

  method Zero(bitmap: array<bv64>, from: nat, count: nat)
    requires from + count <= bitmap.Length
    modifies bitmap
    ensures forall j | 0 <= j < bitmap.Length ::
      bitmap[j] == if from <= j < from + count then 0 else old(bitmap[j])
  {
    var j := from;
    while j < from + count
      invariant from <= j <= from + count
      invariant forall i | 0 <= i < bitmap.Length :: bitmap[i] == if from <= i < j then 0 else old(bitmap[i])
    {
      bitmap[j] := 0;
      j := j + 1;
    }
  }

  /** The word made of the upper part of `low` and the lower part of `high`. */
  lemma RightJoin(low: bv64, high: bv64, n: nat, b: nat)
    requires 0 < n < 64 && b < 64
    ensures Bit(Or(Shl(high, 64 - n), Shr(low, n)), b) == if b + n < 64 then Bit(low, b + n) else Bit(high, b + n - 64)
  {
    hide Bit, Or, Shl, Shr;
    OrBit(Shl(high, 64 - n), Shr(low, n), b);
    ShlBit(high, 64 - n, b);
    ShrBit(low, n, b);
  }

  /** The word made of the lower part of `high` and the upper part of `low`. */
  lemma LeftJoin(low: bv64, high: bv64, n: nat, b: nat)
    requires 0 < n < 64 && b < 64
    ensures Bit(Or(Shl(high, n), Shr(low, 64 - n)), b) == if n <= b then Bit(high, b - n) else Bit(low, b + 64 - n)
  {
    hide Bit, Or, Shl, Shr;
    OrBit(Shl(high, n), Shr(low, 64 - n), b);
    ShlBit(high, n, b);
    ShrBit(low, 64 - n, b);
  }

  /** `w` is word `j` of the bitmap `words` shifted right by `n`. */
  ghost predicate RightWord(w: bv64, words: seq<bv64>, bits: nat, n: nat, j: nat) {
    forall b: nat | b < 64 :: Bit(w, b) == Src(words, bits, 64 * j + b + n)
  }

  /** Before the last word no position is cut off. */
  lemma SrcInner(words: seq<bv64>, bits: nat, j: nat, b: nat)
    requires j + 1 < WordsFor(bits) <= |words| && b < 64
    ensures Src(words, bits, 64 * j + b) == Bit(words[j], b)
  {
    hide Bit;
    AtWord(words, j, b);
  }

  lemma RightAligned(words: seq<bv64>, bits: nat, n: nat, j: nat)
    requires bits > 0 && n % 64 == 0 && j + n / 64 < WordsFor(bits) <= |words|
    ensures RightWord(Masked(words, bits, j + n / 64), words, bits, n, j)
  {
    hide Bit, Masked, Src;
    var q := n / 64;
    var w := Masked(words, bits, j + q);
    forall b: nat | b < 64 ensures Bit(w, b) == Src(words, bits, 64 * j + b + n) {
      MaskedBit(words, bits, j + q, b);
      assert 64 * (j + q) + b == 64 * j + b + n;
    }
  }

  lemma RightUnaligned(words: seq<bv64>, bits: nat, n: nat, j: nat)
    requires bits > 0 && n % 64 != 0 && j + n / 64 + 1 < WordsFor(bits) <= |words|
    ensures RightWord(Or(Shl(Masked(words, bits, j + n / 64 + 1), 64 - n % 64), Shr(words[j + n / 64], n % 64)),
                      words, bits, n, j)
  {
    hide Bit, Masked, Or, Shl, Shr, Src;
    var q, r := n / 64, n % 64;
    var high, low := Masked(words, bits, j + q + 1), words[j + q];
    var w := Or(Shl(high, 64 - r), Shr(low, r));
    forall b: nat | b < 64 ensures Bit(w, b) == Src(words, bits, 64 * j + b + n) {
      RightJoin(low, high, r, b);
      if b + r < 64 {
        SrcInner(words, bits, j + q, b + r);
        assert 64 * (j + q) + (b + r) == 64 * j + b + n;
      } else {
        MaskedBit(words, bits, j + q + 1, b + r - 64);
        assert 64 * (j + q + 1) + (b + r - 64) == 64 * j + b + n;
      }
    }
  }

  lemma RightTop(words: seq<bv64>, bits: nat, n: nat, j: nat)
    requires bits > 0 && n % 64 != 0 && j + n / 64 + 1 == WordsFor(bits) <= |words|
    ensures RightWord(Shr(Masked(words, bits, j + n / 64), n % 64), words, bits, n, j)
  {
    hide Bit, Masked, Shr, Src;
    var q, r := n / 64, n % 64;
    var m := Masked(words, bits, j + q);
    var w := Shr(m, r);
    forall b: nat | b < 64 ensures Bit(w, b) == Src(words, bits, 64 * j + b + n) {
      ShrBit(m, r, b);
      assert 64 * (j + q) + (b + r) == 64 * j + b + n;
      if b + r < 64 {
        MaskedBit(words, bits, j + q, b + r);
      } else {
        SrcPast(words, bits, 64 * j + b + n);
      }
    }
  }

  lemma SrcPast(words: seq<bv64>, bits: nat, p: nat)
    requires p >= bits
    ensures !Src(words, bits, p)
  {
  }

  lemma RightPast(words: seq<bv64>, bits: nat, n: nat, j: nat)
    requires 64 * j + n >= bits
    ensures RightWord(0, words, bits, n, j)
  {
    hide Bit;
    forall b: nat | b < 64 ensures Bit(0, b) == Src(words, bits, 64 * j + b + n) {
      ZeroBit(b);
    }
  }

  /** The word the aligned branch stores to last, number `BITS_TO_LONGS(bits) - 1 - n / 64`, is a word of
      the bitmap exactly when the shift is not by all `bits` positions of a bitmap that fills its last word. */
  lemma ShiftRightInRange(n: nat, bits: nat)
    requires n <= bits
    ensures 0 <= WordsFor(bits) - 1 - n / 64 <==> !(n == bits && bits % 64 == 0)
  {
  }

  lemma ShiftBounds(n: nat, bits: nat)
    requires n <= bits && !(n == bits && bits % 64 == 0)
    ensures 0 < bits && n / 64 < WordsFor(bits)
    ensures 64 * (WordsFor(bits) - n / 64) + n >= bits
  {
  }

  lemma MaskedIs(words: seq<bv64>, bits: nat, j: nat)
    requires bits > 0 && j < WordsFor(bits) <= |words|
    ensures j != WordsFor(bits) - 1 ==> Masked(words, bits, j) == words[j]
    ensures j == WordsFor(bits) - 1 ==> Masked(words, bits, j) == And(words[j], LastWordMask(bits))
  {
  }

  lemma RightWords(after: seq<bv64>, words: seq<bv64>, bits: nat, n: nat)
    requires WordsFor(bits) <= |after|
    requires forall j: nat | j < WordsFor(bits) :: RightWord(after[j], words, bits, n, j)
    ensures forall k: nat | k < 64 * WordsFor(bits) :: At(after, k) == (k + n < bits && At(words, k + n))
  {
    hide Bit, RightWord, At;
    forall k: nat | k < 64 * WordsFor(bits) ensures At(after, k) == (k + n < bits && At(words, k + n)) {
      var j, b := k / 64, k % 64;
      RightBit(after, words, bits, n, j, b);
      assert 64 * j + b == k;
    }
  }

  lemma RightBit(after: seq<bv64>, words: seq<bv64>, bits: nat, n: nat, j: nat, b: nat)
    requires j < |after| && b < 64 && RightWord(after[j], words, bits, n, j)
    ensures At(after, 64 * j + b) == (64 * j + b + n < bits && At(words, 64 * j + b + n))
  {
    hide Bit, At;
    AtWord(after, j, b);
  }

  /** The branch of `bitmap_shift_right()` for a shift by whole words. */
  method ShiftRightWords(bitmap: array<bv64>, src: array<bv64>, n: nat, bits: nat)
    requires n <= bits && !(n == bits && bits % 64 == 0) && n % 64 == 0
    requires WordsFor(bits) <= bitmap.Length && WordsFor(bits) <= src.Length
    modifies bitmap
    ensures forall j: nat | j < WordsFor(bits) - n / 64 :: RightWord(bitmap[j], old(src[..]), bits, n, j)
    ensures forall j | WordsFor(bits) - n / 64 <= j < bitmap.Length :: bitmap[j] == old(bitmap[j])
  {
    hide *;
    ShiftBounds(n, bits);
    ghost var s := src[..];
    var l := WordsFor(bits);
    var nBytes := n / 64;
    var i, srcI := 0, nBytes;
    while i + nBytes < l - 1
      invariant 0 <= i <= l - 1 - nBytes && srcI == i + nBytes
      invariant forall j: nat | j < i :: RightWord(bitmap[j], s, bits, n, j)
      invariant forall j | i <= j < bitmap.Length :: bitmap[j] == old(bitmap[j])
      invariant forall j | i <= j < src.Length :: src[j] == s[j]
    {
      RightAligned(s, bits, n, i);
      MaskedIs(s, bits, srcI);
      bitmap[i] := src[srcI];
      i := i + 1;
      srcI := srcI + 1;
    }
    i := l - 1 - nBytes;
    srcI := l - 1;
    RightAligned(s, bits, n, i);
    MaskedIs(s, bits, srcI);
    bitmap[i] := And(src[srcI], LastWordMask(bits));
  }

  /** The branch of `bitmap_shift_right()` for any other shift. */
  method ShiftRightBits(bitmap: array<bv64>, src: array<bv64>, n: nat, bits: nat)
    requires n <= bits && !(n == bits && bits % 64 == 0) && n % 64 != 0
    requires WordsFor(bits) <= bitmap.Length && WordsFor(bits) <= src.Length
    modifies bitmap
    ensures forall j: nat | j < WordsFor(bits) - n / 64 :: RightWord(bitmap[j], old(src[..]), bits, n, j)
    ensures forall j | WordsFor(bits) - n / 64 <= j < bitmap.Length :: bitmap[j] == old(bitmap[j])
  {
    hide *;
    ShiftBounds(n, bits);
    ghost var s := src[..];
    var l := WordsFor(bits);
    var nBytes := n / 64;
    var nBits := n % 64;
    var i, srcI := 0, nBytes;
    while srcI < l - 1
      invariant 0 <= i <= l - 1 - nBytes && srcI == i + nBytes
      invariant forall j: nat | j < i :: RightWord(bitmap[j], s, bits, n, j)
      invariant forall j | i <= j < bitmap.Length :: bitmap[j] == old(bitmap[j])
      invariant forall j | i <= j < src.Length :: src[j] == s[j]
    {
      var low := src[srcI];
      var high := src[srcI + 1];
      MaskedIs(s, bits, srcI + 1);
      if srcI + 1 == l - 1 {
        high := And(high, LastWordMask(bits));
      }
      RightUnaligned(s, bits, n, i);
      high := Shl(high, 64 - nBits);
      low := Shr(low, nBits);
      bitmap[i] := Or(high, low);
      i := i + 1;
      srcI := srcI + 1;
    }
    MaskedIs(s, bits, l - 1);
    RightTop(s, bits, n, i);
    var low := And(src[l - 1], LastWordMask(bits));
    bitmap[l - nBytes - 1] := Shr(low, nBits);
  }

  /** `bitmap_shift_right()`; `bitmap` and `src` may be the same array. */
  method ShiftRight(bitmap: array<bv64>, src: array<bv64>, n: nat, bits: nat)
    requires !(n == bits && bits % 64 == 0)
    requires WordsFor(bits) <= bitmap.Length && WordsFor(bits) <= src.Length
    modifies bitmap
    ensures forall k: nat | k < 64 * WordsFor(bits) ::
      At(bitmap[..], k) == (k + n < bits && old(At(src[..], k + n)))
    ensures forall j | WordsFor(bits) <= j < bitmap.Length :: bitmap[j] == old(bitmap[j])
  {
    hide *;
    ghost var s := src[..];
    var l := WordsFor(bits);
    if n > bits {
      Zero(bitmap, 0, l);
      forall j: nat | j < l ensures RightWord(bitmap[j], s, bits, n, j) {
        RightPast(s, bits, n, j);
      }
      RightWords(bitmap[..], s, bits, n);
      return;
    }
    ShiftBounds(n, bits);
    var nBytes := n / 64;
    if n % 64 == 0 {
      ShiftRightWords(bitmap, src, n, bits);
    } else {
      ShiftRightBits(bitmap, src, n, bits);
    }
    if nBytes != 0 {
      Zero(bitmap, l - nBytes, nBytes);
      forall j: nat | l - nBytes <= j < l ensures RightWord(bitmap[j], s, bits, n, j) {
        RightPast(s, bits, n, j);
      }
    }
    RightWords(bitmap[..], s, bits, n);
  }

  // ----- left -----

  /** `w` agrees, below position `bits`, with word `j` of the bitmap `words` shifted left by `n`. */
  ghost predicate LeftWord(w: bv64, words: seq<bv64>, bits: nat, n: nat, j: nat) {
    forall b: nat | b < 64 && 64 * j + b < bits ::
      Bit(w, b) == (n <= 64 * j + b && At(words, 64 * j + b - n))
  }

  lemma LeftAligned(words: seq<bv64>, bits: nat, n: nat, j: nat)
    requires bits > 0 && n % 64 == 0 && n / 64 <= j < WordsFor(bits) <= |words|
    ensures LeftWord(Masked(words, bits, j - n / 64), words, bits, n, j)
  {
    hide Bit, Masked, At;
    var q := n / 64;
    var w := Masked(words, bits, j - q);
    forall b: nat | b < 64 && 64 * j + b < bits
      ensures Bit(w, b) == (n <= 64 * j + b && At(words, 64 * j + b - n))
    {
      MaskedBit(words, bits, j - q, b);
      assert 64 * (j - q) + b == 64 * j + b - n;
    }
  }

  lemma LeftUnaligned(words: seq<bv64>, bits: nat, n: nat, j: nat)
    requires bits > 0 && n % 64 != 0 && n / 64 < j < WordsFor(bits) <= |words|
    ensures LeftWord(Or(Shl(Masked(words, bits, j - n / 64), n % 64), Shr(words[j - n / 64 - 1], 64 - n % 64)),
                     words, bits, n, j)
  {
    hide Bit, Masked, Or, Shl, Shr, At;
    var q, r := n / 64, n % 64;
    var high, low := Masked(words, bits, j - q), words[j - q - 1];
    var w := Or(Shl(high, r), Shr(low, 64 - r));
    forall b: nat | b < 64 && 64 * j + b < bits
      ensures Bit(w, b) == (n <= 64 * j + b && At(words, 64 * j + b - n))
    {
      LeftJoin(low, high, r, b);
      if r <= b {
        MaskedBit(words, bits, j - q, b - r);
        assert 64 * (j - q) + (b - r) == 64 * j + b - n;
      } else {
        AtWord(words, j - q - 1, b + 64 - r);
        assert 64 * (j - q - 1) + (b + 64 - r) == 64 * j + b - n;
      }
    }
  }

  lemma LeftBottom(words: seq<bv64>, bits: nat, n: nat)
    requires bits > 0 && n % 64 != 0 && n / 64 < WordsFor(bits) <= |words|
    ensures LeftWord(Shl(Masked(words, bits, 0), n % 64), words, bits, n, n / 64)
  {
    hide Bit, Masked, Shl, At;
    var q, r := n / 64, n % 64;
    var m := Masked(words, bits, 0);
    var w := Shl(m, r);
    forall b: nat | b < 64 && 64 * q + b < bits
      ensures Bit(w, b) == (n <= 64 * q + b && At(words, 64 * q + b - n))
    {
      ShlBit(m, r, b);
      if r <= b {
        MaskedBit(words, bits, 0, b - r);
        assert b - r == 64 * q + b - n;
      }
    }
  }

  lemma LeftBefore(words: seq<bv64>, bits: nat, n: nat, j: nat)
    requires j < n / 64
    ensures LeftWord(0, words, bits, n, j)
  {
    hide Bit, At;
    forall b: nat | b < 64 && 64 * j + b < bits
      ensures Bit(0, b) == (n <= 64 * j + b && At(words, 64 * j + b - n))
    {
      ZeroBit(b);
    }
  }

  lemma LeftWords(after: seq<bv64>, words: seq<bv64>, bits: nat, n: nat)
    requires WordsFor(bits) <= |after|
    requires forall j: nat | j < WordsFor(bits) :: LeftWord(after[j], words, bits, n, j)
    ensures forall k: nat | k < bits :: At(after, k) == (n <= k && At(words, k - n))
  {
    hide Bit, LeftWord, At;
    forall k: nat | k < bits ensures At(after, k) == (n <= k && At(words, k - n)) {
      var j, b := k / 64, k % 64;
      LeftBit(after, words, bits, n, j, b);
      assert 64 * j + b == k;
    }
  }

  lemma LeftBit(after: seq<bv64>, words: seq<bv64>, bits: nat, n: nat, j: nat, b: nat)
    requires j < |after| && b < 64 && 64 * j + b < bits && LeftWord(after[j], words, bits, n, j)
    ensures At(after, 64 * j + b) == (n <= 64 * j + b && At(words, 64 * j + b - n))
  {
    hide Bit, At;
    AtWord(after, j, b);
  }

  lemma LeftBounds(n: nat, bits: nat)
    requires n < bits
    ensures n / 64 < WordsFor(bits)
  {
  }

  /** The branch of `bitmap_shift_left()` for a shift by whole words. */
  method ShiftLeftWords(bitmap: array<bv64>, src: array<bv64>, n: nat, bits: nat)
    requires n < bits && n % 64 == 0
    requires WordsFor(bits) <= bitmap.Length && WordsFor(bits) <= src.Length
    modifies bitmap
    ensures forall j: nat | n / 64 <= j < WordsFor(bits) :: LeftWord(bitmap[j], old(src[..]), bits, n, j)
    ensures forall j | 0 <= j < bitmap.Length && !(n / 64 <= j < WordsFor(bits)) :: bitmap[j] == old(bitmap[j])
  {
    hide *;
    LeftBounds(n, bits);
    ghost var s := src[..];
    var l := WordsFor(bits);
    var nBytes := n / 64;
    var i := l - nBytes - 1;
    while i > 0
      invariant 0 <= i <= l - nBytes - 1
      invariant forall j: nat | i + nBytes < j < l :: LeftWord(bitmap[j], s, bits, n, j)
      invariant forall j | 0 <= j < bitmap.Length && !(i + nBytes < j < l) :: bitmap[j] == old(bitmap[j])
      invariant forall j | 0 <= j <= i :: src[j] == s[j]
    {
      var high := src[i];
      MaskedIs(s, bits, i);
      if i == l - 1 {
        high := And(high, LastWordMask(bits));
      }
      LeftAligned(s, bits, n, i + nBytes);
      bitmap[i + nBytes] := high;
      i := i - 1;
    }
    var high := src[0];
    MaskedIs(s, bits, 0);
    if l - 1 == 0 {
      high := And(high, LastWordMask(bits));
    }
    LeftAligned(s, bits, n, nBytes);
    bitmap[nBytes] := high;
  }

  /** The branch of `bitmap_shift_left()` for any other shift. */
  method ShiftLeftBits(bitmap: array<bv64>, src: array<bv64>, n: nat, bits: nat)
    requires n < bits && n % 64 != 0
    requires WordsFor(bits) <= bitmap.Length && WordsFor(bits) <= src.Length
    modifies bitmap
    ensures forall j: nat | n / 64 <= j < WordsFor(bits) :: LeftWord(bitmap[j], old(src[..]), bits, n, j)
    ensures forall j | 0 <= j < bitmap.Length && !(n / 64 <= j < WordsFor(bits)) :: bitmap[j] == old(bitmap[j])
  {
    hide *;
    LeftBounds(n, bits);
    ghost var s := src[..];
    var l := WordsFor(bits);
    var nBytes := n / 64;
    var nBits := n % 64;
    var i := l - nBytes - 1;
    while i > 0
      invariant 0 <= i <= l - nBytes - 1
      invariant forall j: nat | i + nBytes < j < l :: LeftWord(bitmap[j], s, bits, n, j)
      invariant forall j | 0 <= j < bitmap.Length && !(i + nBytes < j < l) :: bitmap[j] == old(bitmap[j])
      invariant forall j | 0 <= j <= i :: src[j] == s[j]
    {
      var low := src[i - 1];
      var high := src[i];
      MaskedIs(s, bits, i);
      if i == l - 1 {
        high := And(high, LastWordMask(bits));
      }
      LeftUnaligned(s, bits, n, i + nBytes);
      high := Shl(high, nBits);
      low := Shr(low, 64 - nBits);
      bitmap[i + nBytes] := Or(high, low);
      i := i - 1;
    }
    var high := src[0];
    MaskedIs(s, bits, 0);
    if l - 1 == 0 {
      high := And(high, LastWordMask(bits));
    }
    LeftBottom(s, bits, n);
    bitmap[nBytes] := Shl(high, nBits);
  }

  /** `bitmap_shift_left()`; `bitmap` and `src` may be the same array. */
  method ShiftLeft(bitmap: array<bv64>, src: array<bv64>, n: nat, bits: nat)
    requires WordsFor(bits) <= bitmap.Length && WordsFor(bits) <= src.Length
    modifies bitmap
    ensures forall k: nat | k < bits :: At(bitmap[..], k) == (n <= k && old(At(src[..], k - n)))
    ensures forall j | WordsFor(bits) <= j < bitmap.Length :: bitmap[j] == old(bitmap[j])
  {
    hide *;
    ghost var s := src[..];
    var l := WordsFor(bits);
    if n >= bits {
      Zero(bitmap, 0, l);
      forall k: nat | k < bits ensures !At(bitmap[..], k) {
        AtZero(bitmap[..], bits, k);
      }
      return;
    }
    LeftBounds(n, bits);
    var nBytes := n / 64;
    if n % 64 == 0 {
      ShiftLeftWords(bitmap, src, n, bits);
    } else {
      ShiftLeftBits(bitmap, src, n, bits);
    }
    if nBytes != 0 {
      Zero(bitmap, 0, nBytes);
      forall j: nat | j < nBytes ensures LeftWord(bitmap[j], s, bits, n, j) {
        LeftBefore(s, bits, n, j);
      }
    }
    LeftWords(bitmap[..], s, bits, n);
  }

  lemma AtZero(words: seq<bv64>, bits: nat, k: nat)
    requires k < bits && WordsFor(bits) <= |words|
    requires forall j | 0 <= j < WordsFor(bits) :: words[j] == 0
    ensures !At(words, k)
  {
    hide Bit;
    ZeroBit(k % 64);
  }
}
