/**
 Number text.  The parser collects at most 63 characters from the alphabet of numbers and
 hands them to `strtod`; on that alphabet what `strtod` accepts is a decimal number.
 */
module JsonNumber {
  import opened Ascii

  /** The characters the number parser collects. */
  predicate NumberChar(b: byte) {
    Digit(b) || b == PLUS || b == MINUS || b == 101 || b == 69 || b == POINT
  }

  /** The run of at most `n` number characters from `o` on. */
  function Run(s: seq<byte>, o: nat, n: nat): (r: seq<byte>)
    ensures |r| <= n && (o <= |s| ==> o + |r| <= |s| && s[o..o + |r|] == r)
    ensures forall i | 0 <= i < |r| :: NumberChar(r[i])
    ensures forall k | o <= k < o + |r| && k < |s| :: NumberChar(s[k])
    ensures o + |r| < |s| && |r| < n ==> !NumberChar(s[o + |r|])
    decreases n
  {
    if n == 0 || o >= |s| || !NumberChar(s[o]) then []
    else
      var rest := Run(s, o + 1, n - 1);
      assert s[o..o + 1 + |rest|] == [s[o]] + s[o + 1..o + 1 + |rest|];
      [s[o]] + rest
  }

  /** The first position from `i` on that holds no digit. */
  function DigitsEnd(t: seq<byte>, i: nat): (e: nat)
    requires i <= |t|
    ensures i <= e <= |t|
    decreases |t| - i
  {
    if i < |t| && Digit(t[i]) then DigitsEnd(t, i + 1) else i
  }

  function SignEnd(t: seq<byte>, i: nat): (e: nat)
    requires i <= |t|
    ensures i <= e <= |t|
  {
    if i < |t| && (t[i] == PLUS || t[i] == MINUS) then i + 1 else i
  }

  /** The end of an optional exponent that starts at `m`. */
  function ExponentEnd(t: seq<byte>, m: nat): (e: nat)
    requires m <= |t|
    ensures m <= e <= |t|
  {
    if m < |t| && (t[m] == 101 || t[m] == 69) then
      var d := SignEnd(t, m + 1);
      if DigitsEnd(t, d) > d then DigitsEnd(t, d) else m
    else m
  }

  /** How many characters `strtod` takes: sign, digits with at most one point and at least one digit, exponent. */
  function Accepted(t: seq<byte>): (e: nat)
    ensures e <= |t|
  {
    var a := SignEnd(t, 0);
    var b := DigitsEnd(t, a);
    if b < |t| && t[b] == POINT then
      var c := DigitsEnd(t, b + 1);
      if c - a > 1 then ExponentEnd(t, c) else 0
    else if b > a then ExponentEnd(t, b)
    else 0
  }

  /** A text that is a number from its first to its last character. */
  predicate IsNumber(t: seq<byte>) {
    && 0 < |t| <= 63
    && (t[0] == MINUS || Digit(t[0]))
    && Accepted(t) == |t|
    && forall i | 0 <= i < |t| :: NumberChar(t[i])
  }

  // ----- what is accepted is accepted on its own -----

  lemma {:induction false} DigitsEndCut(t: seq<byte>, i: nat, n: nat)
    requires i <= n <= |t|
    ensures DigitsEnd(t[..n], i) == if DigitsEnd(t, i) < n then DigitsEnd(t, i) else n
    decreases n - i
  {
    if i < n && Digit(t[i]) {
      DigitsEndCut(t, i + 1, n);
    }
  }

  lemma ExponentEndCut(t: seq<byte>, m: nat)
    requires m <= |t|
    ensures ExponentEnd(t[..ExponentEnd(t, m)], m) == ExponentEnd(t, m)
  {
    var n := ExponentEnd(t, m);
    if n > m {
      DigitsEndCut(t, SignEnd(t, m + 1), n);
    }
  }

  lemma AcceptedCut(t: seq<byte>)
    ensures Accepted(t[..Accepted(t)]) == Accepted(t)
  {
    var n := Accepted(t);
    var u := t[..n];
    if n > 0 {
      var a := SignEnd(t, 0);
      var b := DigitsEnd(t, a);
      DigitsEndCut(t, a, n);
      if b < |t| && t[b] == POINT {
        var c := DigitsEnd(t, b + 1);
        DigitsEndCut(t, b + 1, n);
        ExponentEndCut(t, c);
      } else {
        ExponentEndCut(t, b);
      }
    }
  }

  /** The accepted prefix of a run that starts like a number is a number. */
  lemma AcceptedIsNumber(r: seq<byte>)
    requires 0 < |r| <= 63 && (r[0] == MINUS || Digit(r[0])) && Accepted(r) > 0
    requires forall i | 0 <= i < |r| :: NumberChar(r[i])
    ensures IsNumber(r[..Accepted(r)])
  {
    hide Accepted, NumberChar;
    AcceptedCut(r);
  }

  lemma ExponentGrows(t: seq<byte>, m: nat, k: nat)
    requires m < k <= |t| && ExponentEnd(t[..k], m) == k
    ensures ExponentEnd(t, m) >= k
  {
    DigitsEndCut(t, SignEnd(t[..k], m + 1), k);
  }

  /** Of a run that starts like a number nothing longer than what is accepted is a number. */
  lemma AcceptedIsLongest(t: seq<byte>, k: nat)
    requires k <= |t| && IsNumber(t[..k])
    ensures k <= Accepted(t)
  {
    hide ExponentEnd, DigitsEnd;
    var u := t[..k];
    AcceptedCases(u);
    assert t[0] == u[0];
    var a := SignEnd(t, 0);
    var b := DigitsEnd(t, a);
    DigitsEndCut(t, a, k);
    if b < k {
      assert u[b] == t[b];
      var m := b;
      if t[b] == POINT {
        DigitsEndCut(t, b + 1, k);
        m := DigitsEnd(t, b + 1);
      }
      if m < k {
        ExponentGrows(t, m, k);
      }
    }
  }

  /** The alphabet: digits, signs, the point and the letter of the exponent in either case. */
  lemma Alphabet(b: byte)
    ensures NumberChar(b) <==> 48 <= b <= 57 || b in {43, 45, 46, 69, 101}
  {
  }

  /** A number that is not followed by another number character is the whole run. */
  lemma {:induction false} RunOfNumber(s: seq<byte>, o: nat, t: seq<byte>, n: nat)
    requires At(s, o, t) && |t| <= n && forall i | 0 <= i < |t| :: NumberChar(t[i])
    requires |t| < n && o + |t| < |s| ==> !NumberChar(s[o + |t|])
    ensures Run(s, o, n) == t
    decreases |t|
  {
    AtIndex(s, o, t);
    if t != [] {
      assert s[o] == t[0];
      assert s[o + 1..o + |t|] == t[1..];
      RunOfNumber(s, o + 1, t[1..], n - 1);
    }
  }

  // ----- number text as a grammar -----

  /** An exponent: its letter, a sign or none, digits. */
  datatype Exponent = NoExponent | Exponent(letter: byte, sign: seq<byte>, digits: seq<byte>)

  /** The parts of a number's text; `point` says whether a point stands before `fraction`. */
  datatype Numeral = Numeral(minus: bool, whole: seq<byte>, point: bool, fraction: seq<byte>, exponent: Exponent)

  predicate AllDigits(t: seq<byte>) {
    forall i | 0 <= i < |t| :: Digit(t[i])
  }

  predicate ExponentOk(e: Exponent) {
    e.Exponent? ==>
      && (e.letter == 101 || e.letter == 69) && (e.sign == [] || e.sign == [PLUS] || e.sign == [MINUS])
      && e.digits != [] && AllDigits(e.digits)
  }

  /** What the parser takes: a digit somewhere before the exponent, and in front a minus sign or a digit. */
  predicate Lenient(n: Numeral) {
    && AllDigits(n.whole) && AllDigits(n.fraction) && ExponentOk(n.exponent)
    && (!n.point ==> n.fraction == []) && n.whole + n.fraction != [] && (n.minus || n.whole != [])
  }

  /** What section 6 of RFC 8259 allows: digits before and behind the point, and no leading zeros. */
  predicate Strict(n: Numeral) {
    && AllDigits(n.whole) && AllDigits(n.fraction) && ExponentOk(n.exponent)
    && n.whole != [] && (|n.whole| > 1 ==> n.whole[0] != DIGIT_0)
    && (n.point <==> n.fraction != [])
  }

  function ExponentText(e: Exponent): seq<byte> {
    if e.NoExponent? then [] else [e.letter] + e.sign + e.digits
  }

  function NumeralText(n: Numeral): seq<byte> {
    (if n.minus then [MINUS] else []) + n.whole + (if n.point then [POINT] else []) + n.fraction + ExponentText(n.exponent)
  }

  lemma {:induction false} DigitsEndAt(t: seq<byte>, i: nat, n: nat)
    requires i + n <= |t| && (forall k | i <= k < i + n :: Digit(t[k])) && (i + n < |t| ==> !Digit(t[i + n]))
    ensures DigitsEnd(t, i) == i + n
    decreases n
  {
    if n > 0 {
      DigitsEndAt(t, i + 1, n - 1);
    }
  }

  lemma {:induction false} DigitsBefore(t: seq<byte>, i: nat)
    requires i <= |t|
    ensures AllDigits(t[i..DigitsEnd(t, i)])
    ensures DigitsEnd(t, i) < |t| ==> !Digit(t[DigitsEnd(t, i)])
    decreases |t| - i
  {
    if i < |t| && Digit(t[i]) {
      DigitsBefore(t, i + 1);
      assert t[i..DigitsEnd(t, i)] == [t[i]] + t[i + 1..DigitsEnd(t, i)];
    }
  }

  /** The exponent of a text that ends with one, or with none. */
  lemma ExponentOf(t: seq<byte>, m: nat) returns (e: Exponent)
    requires m <= |t| && ExponentEnd(t, m) == |t|
    ensures ExponentOk(e) && ExponentText(e) == t[m..]
  {
    if m == |t| {
      e := NoExponent;
    } else {
      var d := SignEnd(t, m + 1);
      DigitsBefore(t, d);
      e := Exponent(t[m], t[m + 1..d], t[d..]);
      assert t[m..] == [t[m]] + t[m + 1..d] + t[d..];
    }
  }

  lemma ExponentTaken(t: seq<byte>, m: nat, e: Exponent)
    requires m <= |t| && ExponentOk(e) && ExponentText(e) == t[m..]
    ensures ExponentEnd(t, m) == |t| && (m < |t| ==> !Digit(t[m]) && t[m] != POINT)
    ensures forall k | m <= k < |t| :: NumberChar(t[k])
  {
    if e.Exponent? {
      var u := t[m..];
      var d := m + 1 + |e.sign|;
      assert u[0] == e.letter && t[m] == u[0];
      forall k | d <= k < |t| ensures Digit(t[k]) {
        assert t[k] == u[k - m] == e.digits[k - d];
      }
      assert e.sign != [] ==> t[m + 1] == u[1] == e.sign[0];
      DigitsEndAt(t, d, |t| - d);
    } else {
      assert |t[m..]| == 0;
    }
  }

  lemma AcceptedCases(t: seq<byte>)
    requires Accepted(t) == |t| > 0
    ensures var a := SignEnd(t, 0); var b := DigitsEnd(t, a);
      if b < |t| && t[b] == POINT then
        var c := DigitsEnd(t, b + 1); c - a > 1 && ExponentEnd(t, c) == |t|
      else b > a && ExponentEnd(t, b) == |t|
  {
    hide SignEnd, DigitsEnd, ExponentEnd;
  }

  lemma SignOf(t: seq<byte>)
    requires t != [] && (t[0] == MINUS || Digit(t[0]))
    ensures t[..SignEnd(t, 0)] == if t[0] == MINUS then [MINUS] else []
    ensures t[0] != MINUS ==> SignEnd(t, 0) == 0 && DigitsEnd(t, 0) > 0
  {
  }

  /** A number's text has the parts of a numeral. */
  lemma NumeralOf(t: seq<byte>) returns (n: Numeral)
    requires IsNumber(t)
    ensures Lenient(n) && NumeralText(n) == t
  {
    hide Accepted, SignEnd, DigitsEnd, ExponentEnd, NumberChar, Digit, ExponentText;
    AcceptedCases(t);
    SignOf(t);
    var a := SignEnd(t, 0);
    var b := DigitsEnd(t, a);
    DigitsBefore(t, a);
    var minus := t[0] == MINUS;
    if b < |t| && t[b] == POINT {
      var c := DigitsEnd(t, b + 1);
      DigitsBefore(t, b + 1);
      var e := ExponentOf(t, c);
      n := Numeral(minus, t[a..b], true, t[b + 1..c], e);
      assert |n.whole + n.fraction| == c - a - 1;
      PartsJoin(t, a, b, c);
    } else {
      var e := ExponentOf(t, b);
      n := Numeral(minus, t[a..b], false, [], e);
      assert |n.whole + n.fraction| == b - a;
      PartsJoin(t, a, b, b);
    }
  }

  lemma PartsJoin(t: seq<byte>, a: nat, b: nat, c: nat)
    requires a <= b <= c <= |t| && (b < c ==> t[b] == POINT)
    ensures b < c ==> t == t[..a] + t[a..b] + [POINT] + t[b + 1..c] + t[c..]
    ensures b == c ==> t == t[..a] + t[a..b] + [] + [] + t[c..]
  {
  }

  /** A numeral's text is accepted to its end. */
  lemma NumeralTaken(n: Numeral)
    requires Lenient(n) && |NumeralText(n)| <= 63
    ensures IsNumber(NumeralText(n))
  {
    hide Accepted, DigitsEnd, ExponentEnd, NumberChar, Digit, ExponentText, NumeralText;
    var t := NumeralText(n);
    var a := if n.minus then 1 else 0;
    var b := a + |n.whole|;
    var p := if n.point then 1 else 0;
    var c := b + p + |n.fraction|;
    NumeralParts(n);
    assert |n.whole + n.fraction| == |n.whole| + |n.fraction|;
    ExponentTaken(t, c, n.exponent);
    PointIsNoDigit();
    NoSign(t);
    DigitsEndAt(t, a, |n.whole|);
    DigitsEndAt(t, b + p, |n.fraction|);
    AcceptedFrom(t, a, b, c);
    NumberChars(t);
  }

  lemma AcceptedFrom(t: seq<byte>, a: nat, b: nat, c: nat)
    requires SignEnd(t, 0) == a && a <= b == DigitsEnd(t, a) && b <= c <= |t| && ExponentEnd(t, c) == |t|
    requires if b < |t| && t[b] == POINT then b < c == DigitsEnd(t, b + 1) && c - a > 1 else b == c && b > a
    ensures Accepted(t) == |t|
  {
    hide SignEnd, DigitsEnd, ExponentEnd;
  }

  lemma PointIsNoDigit()
    ensures !Digit(POINT) && !Digit(MINUS) && !Digit(PLUS)
  {
  }

  lemma NoSign(t: seq<byte>)
    requires t != [] && (t[0] == MINUS || Digit(t[0]))
    ensures SignEnd(t, 0) == if t[0] == MINUS then 1 else 0
  {
  }

  lemma NumberChars(t: seq<byte>)
    requires forall k | 0 <= k < |t| :: Digit(t[k]) || t[k] == MINUS || t[k] == POINT || NumberChar(t[k])
    ensures forall k | 0 <= k < |t| :: NumberChar(t[k])
  {
  }

  /** Where the parts of a numeral stand in its text. */
  lemma NumeralParts(n: Numeral)
    requires AllDigits(n.whole) && AllDigits(n.fraction)
    ensures var t := NumeralText(n);
      var a := if n.minus then 1 else 0;
      var b := a + |n.whole|;
      var p := if n.point then 1 else 0;
      var c := b + p + |n.fraction|;
      && c <= |t| && t[c..] == ExponentText(n.exponent)
      && (n.minus ==> t[0] == MINUS) && (n.point ==> t[b] == POINT)
      && (forall k | a <= k < b :: Digit(t[k]))
      && (forall k | b + p <= k < c :: Digit(t[k]))
  {
    hide ExponentText, Digit;
    var t := NumeralText(n);
    var a := if n.minus then 1 else 0;
    var b := a + |n.whole|;
    var p := if n.point then 1 else 0;
    forall k | a <= k < b ensures Digit(t[k]) {
      assert t[k] == n.whole[k - a];
    }
    forall k | b + p <= k < b + p + |n.fraction| ensures Digit(t[k]) {
      assert t[k] == n.fraction[k - b - p];
    }
  }

  /** The number texts are the numerals of at most 63 characters. */
  lemma NumberIsNumeral(t: seq<byte>)
    ensures IsNumber(t) <==> |t| <= 63 && exists n :: Lenient(n) && NumeralText(n) == t
  {
    hide Lenient, NumeralText, Accepted, NumberChar;
    if IsNumber(t) {
      var n := NumeralOf(t);
    }
    forall n | Lenient(n) && NumeralText(n) == t && |t| <= 63 ensures IsNumber(t) {
      NumeralTaken(n);
    }
  }

  /** Every number RFC 8259 allows, of at most 63 characters, is one of them. */
  lemma StrictIsNumber(n: Numeral)
    requires Strict(n) && |NumeralText(n)| <= 63
    ensures IsNumber(NumeralText(n))
  {
    assert Lenient(n);
    NumeralTaken(n);
  }
}
