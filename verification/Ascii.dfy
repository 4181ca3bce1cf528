/** Bytes and the few of them that have a role in JSON text. */
module Ascii {
  type byte = x: int | 0 <= x < 256

  const NUL: byte := 0
  const BACKSPACE: byte := 8
  const TAB: byte := 9
  const NEWLINE: byte := 10
  const FORM_FEED: byte := 12
  const RETURN: byte := 13
  const SPACE: byte := 32
  const QUOTE: byte := 34
  const PLUS: byte := 43
  const COMMA: byte := 44
  const MINUS: byte := 45
  const POINT: byte := 46
  const SLASH: byte := 47
  const DIGIT_0: byte := 48
  const DIGIT_9: byte := 57
  const COLON: byte := 58
  const OPEN_BRACKET: byte := 91
  const BACKSLASH: byte := 92
  const CLOSE_BRACKET: byte := 93
  const OPEN_BRACE: byte := 123
  const CLOSE_BRACE: byte := 125

  const LETTER_U: byte := 117

  const NULL_TEXT: seq<byte> := [110, 117, 108, 108]
  const FALSE_TEXT: seq<byte> := [102, 97, 108, 115, 101]
  const TRUE_TEXT: seq<byte> := [116, 114, 117, 101]

  predicate Digit(b: byte) {
    DIGIT_0 <= b <= DIGIT_9
  }

  /** The codes of the characters, and the letters of the words. */
  lemma Codes()
    ensures [NUL, BACKSPACE, TAB, NEWLINE, FORM_FEED, RETURN, SPACE] == [0, 8, 9, 10, 12, 13, 32]
    ensures [QUOTE, PLUS, COMMA, MINUS, POINT, SLASH, COLON] ==
      ['"' as int, '+' as int, ',' as int, '-' as int, '.' as int, '/' as int, ':' as int]
    ensures [OPEN_BRACKET, BACKSLASH, CLOSE_BRACKET, OPEN_BRACE, CLOSE_BRACE, LETTER_U] ==
      ['[' as int, '\\' as int, ']' as int, '{' as int, '}' as int, 'u' as int]
    ensures NULL_TEXT == ['n' as int, 'u' as int, 'l' as int, 'l' as int]
    ensures FALSE_TEXT == ['f' as int, 'a' as int, 'l' as int, 's' as int, 'e' as int]
    ensures TRUE_TEXT == ['t' as int, 'r' as int, 'u' as int, 'e' as int]
    ensures forall b: byte :: Digit(b) <==> '0' as int <= b <= '9' as int
  {
  }

  /** `t` stands in `s` at position `o`. */
  predicate At(s: seq<byte>, o: nat, t: seq<byte>) {
    o + |t| <= |s| && s[o..o + |t|] == t
  }

  lemma AtSplit(s: seq<byte>, o: nat, a: seq<byte>, b: seq<byte>)
    ensures At(s, o, a + b) <==> At(s, o, a) && At(s, o + |a|, b)
  {
    if o + |a| + |b| <= |s| {
      var u := s[o..o + |a| + |b|];
      assert u[..|a|] == s[o..o + |a|] && u[|a|..] == s[o + |a|..o + |a| + |b|];
      assert u == u[..|a|] + u[|a|..];
      assert (a + b)[..|a|] == a && (a + b)[|a|..] == b;
    }
  }

  lemma AtIndex(s: seq<byte>, o: nat, t: seq<byte>)
    requires At(s, o, t)
    ensures forall k | 0 <= k < |t| :: s[o + k] == t[k]
  {
    forall k | 0 <= k < |t| ensures s[o + k] == t[k] {
      assert s[o..o + |t|][k] == s[o + k];
    }
  }

  lemma AtSlice(s: seq<byte>, o: nat, t: seq<byte>, i: nat, j: nat)
    requires At(s, o, t) && i <= j <= |t|
    ensures s[o + i..o + j] == t[i..j]
  {
    assert t == t[..i] + (t[i..j] + t[j..]);
    AtSplit(s, o, t[..i], t[i..j] + t[j..]);
    AtSplit(s, o + i, t[i..j], t[j..]);
  }
}
