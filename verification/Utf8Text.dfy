/** UTF-8 text in the line breaker (kernel/src/emoji_glyph.rs:19-46, kernel/src/html.rs:876-927): the characters of RFC 3629
    are what it keeps together. */
module Utf8Text {
  import opened Bytes
  import opened LineBreaker

  type CodePoint = c: int | 0 <= c <= 0x10_FFFF

  /** The bytes of a character (RFC 3629, section 3). */
  function Encode(c: CodePoint): (s: bytes)
    ensures 1 <= |s| <= 4
  {
    if c < 0x80 then [c]
    else if c < 0x800 then [0xC0 + c / 64, 0x80 + c % 64]
    else if c < 0x1_0000 then [0xE0 + c / 4096, 0x80 + c / 64 % 64, 0x80 + c % 64]
    else [0xF0 + c / 262_144, 0x80 + c / 4096 % 64, 0x80 + c / 64 % 64, 0x80 + c % 64]
  }

  function EncodeAll(text: seq<CodePoint>): bytes {
    if text == [] then [] else Encode(text[0]) + EncodeAll(text[1..])
  }

  /** The lead bytes are the first bytes of characters, and tell their lengths. */
  lemma {:induction false} LeadBytes(b: byte, n: nat)
    ensures Utf8LeadLen(b) == Some(n) <==> exists c: CodePoint :: Encode(c)[0] == b && |Encode(c)| == n
  {
    if Utf8LeadLen(b) == Some(n) {
      var c: CodePoint :=
        if n == 1 then b else if n == 2 then (b - 0xC0) * 64
        else if n == 3 then (if b == 0xE0 then 0x800 else (b - 0xE0) * 4096)
        else if b == 0xF0 then 0x1_0000 else (b - 0xF0) * 262_144;
      assert Encode(c)[0] == b && |Encode(c)| == n;
    }
  }

  /** The other bytes of characters are the continuation bytes. */
  lemma {:induction false} OtherBytes(b: byte)
    ensures Continuation(b) <==> exists c: CodePoint :: |Encode(c)| == 2 && Encode(c)[1] == b
  {
    if Continuation(b) {
      assert |Encode(0x80 + (b - 0x80))| == 2 && Encode(0x80 + (b - 0x80))[1] == b;
    }
  }

  lemma {:induction false} EncodeIsSeq(c: CodePoint)
    ensures var s := Encode(c);
            && (c < 0x80 <==> s[0] < 0x80) && (c < 0x80 ==> s == [c])
            && (c >= 0x80 ==> Utf8LeadLen(s[0]) == Some(|s|) && Utf8SeqValid(s) && !Newline(s[0]))
  {
  }

  /** What the line breaker makes of a character. */
  function TokenOf(c: CodePoint): Token {
    if c == 10 || c == 13 then Break else Unit(Encode(c))
  }

  lemma {:induction false} CharacterToken(before: bytes, c: CodePoint, rest: bytes)
    ensures TokenAt(before + Encode(c) + rest, |before|) == (TokenOf(c), |Encode(c)|)
  {
    hide Encode, Utf8LeadLen, Utf8SeqValid;
    var raw, s := before + Encode(c) + rest, Encode(c);
    EncodeIsSeq(c);
    assert raw[|before|] == s[0];
    assert raw[|before|..|before| + |s|] == s;
  }

  /** Text in UTF-8, whatever its characters, is taken apart into these characters. */
  lemma {:induction false} TextTokens(before: bytes, text: seq<CodePoint>)
    ensures var ts := Tokens(before + EncodeAll(text), |before|);
            |ts| == |text| && forall k :: 0 <= k < |text| ==> ts[k] == TokenOf(text[k])
    decreases text
  {
    hide Encode, TokenAt, TokenOf;
    var raw := before + EncodeAll(text);
    if text != [] {
      var s, rest := Encode(text[0]), EncodeAll(text[1..]);
      assert raw == before + s + rest;
      CharacterToken(before, text[0], rest);
      NextToken(raw, |before|);
      TextTokens(before + s, text[1..]);
    }
  }

  /** The characters that are not newlines. */
  function Printable(text: seq<CodePoint>): seq<CodePoint> {
    if text == [] then [] else (if text[0] == 10 || text[0] == 13 then [] else [text[0]]) + Printable(text[1..])
  }

  lemma {:induction false} TokensText(ts: seq<Token>, text: seq<CodePoint>)
    requires |ts| == |text| && forall k :: 0 <= k < |text| ==> ts[k] == TokenOf(text[k])
    ensures Text(ts) == EncodeAll(Printable(text))
    decreases text
  {
    hide Encode;
    if text != [] {
      TokensText(ts[1..], text[1..]);
      var p := Printable(text[1..]);
      assert ([text[0]] + p)[1..] == p;
      assert [] + p == p;
    }
  }

  /** UTF-8 text is kept whole, but for its newlines. */
  lemma {:induction false} Utf8Kept(text: seq<CodePoint>)
    ensures Text(Tokens(EncodeAll(text), 0)) == EncodeAll(Printable(text))
  {
    assert [] + EncodeAll(text) == EncodeAll(text);
    TextTokens([], text);
    TokensText(Tokens(EncodeAll(text), 0), text);
  }

  /** As many bytes as a character with this first byte has, all others continuation bytes. */
  ghost predicate StartsCharacter(s: bytes) {
    s != [] && exists c: CodePoint ::
      Encode(c)[0] == s[0] && |Encode(c)| <= |s| && forall k :: 1 <= k < |Encode(c)| ==> 0x80 <= s[k] < 0xC0
  }

  /** A byte above 127 that starts no character is shown as a question mark. */
  lemma {:induction false} OtherwiseQuestion(before: bytes, s: bytes)
    requires s != [] && s[0] >= 0x80 && !StartsCharacter(s)
    ensures TokenAt(before + s, |before|) == (Unit(['?' as int]), 1)
  {
    hide Encode, Utf8LeadLen;
    var raw := before + s;
    assert raw[|before|] == s[0];
    match Utf8LeadLen(s[0])
    case None =>
    case Some(n) =>
      LeadBytes(s[0], n);
      var c: CodePoint :| Encode(c)[0] == s[0] && |Encode(c)| == n;
      if n <= |s| {
        assert raw[|before|..|before| + n] == s[..n];
        assert !forall k :: 1 <= k < |Encode(c)| ==> 0x80 <= s[k] < 0xC0;
      }
  }
}
