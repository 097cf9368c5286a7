/** The plain-text line breaker (kernel/src/html.rs:712-766, 788-826 and 876-927, with the UTF-8 checks of
    kernel/src/emoji_glyph.rs:19-46). */
module LineBreaker {
  import opened Bytes

  const BROWSER_MAX_LINES := 128
  const BROWSER_LINE_CAP := 96
  const QUESTION: byte := 63

  predicate Newline(b: byte) {
    b == 10 || b == 13
  }

  // ----- what counts as a character

  function Utf8LeadLen(b: byte): Option<nat> {
    if b <= 0x7F then Some(1)
    else if 0xC2 <= b <= 0xDF then Some(2)
    else if 0xE0 <= b <= 0xEF then Some(3)
    else if 0xF0 <= b <= 0xF4 then Some(4)
    else None
  }

  predicate Continuation(b: byte) {
    0x80 <= b < 0xC0
  }

  /** A lead byte with all its continuation bytes. */
  predicate Utf8SeqValid(s: bytes) {
    && |s| > 0 && Utf8LeadLen(s[0]).Some? && Utf8LeadLen(s[0]).value <= |s|
    && forall i :: 1 <= i < Utf8LeadLen(s[0]).value ==> Continuation(s[i])
  }

  method CheckUtf8Seq(s: bytes) returns (ok: bool)
    ensures ok == Utf8SeqValid(s)
  {
    if |s| == 0 || Utf8LeadLen(s[0]).None? || Utf8LeadLen(s[0]).value > |s| {
      return false;
    }
    var n := Utf8LeadLen(s[0]).value;
    if n == 1 {
      return true;
    }
    for i := 1 to n
      invariant forall k :: 1 <= k < i ==> Continuation(s[k])
    {
      if !(0x80 <= s[i] < 0xC0) {
        return false;
      }
    }
    return true;
  }

  // ----- the text as line breaks and characters

  /** A newline byte, or the bytes of one character that stay together. */
  datatype Token = Break | Unit(bytes: bytes)

  predicate UnitOk(t: Token) {
    t.Unit? ==> 1 <= |t.bytes| <= 4
  }

  /** The token that starts at i and the number of input bytes it takes: a newline, an ASCII byte, a whole
      multi-byte sequence, or '?' for a byte that starts none. */
  function TokenAt(raw: bytes, i: nat): (r: (Token, nat))
    requires i < |raw|
    ensures 1 <= r.1 <= |raw| - i && UnitOk(r.0)
  {
    var b := raw[i];
    if Newline(b) then (Break, 1)
    else if b < 0x80 then (Unit([b]), 1)
    else match Utf8LeadLen(b)
      case None => (Unit([QUESTION]), 1)
      case Some(n) =>
        if i + n <= |raw| && Utf8SeqValid(raw[i..i + n]) then (Unit(raw[i..i + n]), n) else (Unit([QUESTION]), 1)
  }

  function Tokens(raw: bytes, i: nat): (ts: seq<Token>)
    requires i <= |raw|
    ensures forall k :: 0 <= k < |ts| ==> UnitOk(ts[k])
    decreases |raw| - i
  {
    if i == |raw| then [] else
    var (t, n) := TokenAt(raw, i);
    [t] + Tokens(raw, i + n)
  }

  /** The sanitised text: newlines removed, invalid bytes replaced. */
  function Text(ts: seq<Token>): bytes {
    if ts == [] then [] else (if ts[0].Unit? then ts[0].bytes else []) + Text(ts[1..])
  }

  /** Text without newlines and without bytes above 127 is kept as it is. */
  lemma {:induction false} AsciiKept(raw: bytes, i: nat)
    requires i <= |raw| && forall k :: 0 <= k < |raw| ==> raw[k] < 0x80 && !Newline(raw[k])
    ensures Text(Tokens(raw, i)) == raw[i..]
    decreases |raw| - i
  {
    hide TokenAt;
    if i < |raw| {
      AsciiToken(raw, i);
      AsciiKept(raw, i + 1);
      var rest := Tokens(raw, i + 1);
      assert Tokens(raw, i) == [Unit([raw[i]])] + rest;
      TextStep(Unit([raw[i]]), rest);
      assert raw[i..] == [raw[i]] + raw[i + 1..];
    }
  }

  lemma {:induction false} AsciiToken(raw: bytes, i: nat)
    requires i < |raw| && raw[i] < 0x80 && !Newline(raw[i])
    ensures TokenAt(raw, i) == (Unit([raw[i]]), 1)
  {
  }

  lemma {:induction false} TextStep(t: Token, ts: seq<Token>)
    ensures Text([t] + ts) == (if t.Unit? then t.bytes else []) + Text(ts)
  {
    assert ([t] + ts)[1..] == ts;
  }

  // ----- greedy wrapping

  /** All lines of the text, however many, when `cur` has already been collected. */
  function Wrap(ts: seq<Token>, cur: bytes): seq<bytes>
    decreases ts
  {
    if ts == [] then NonEmpty(cur)
    else match ts[0]
      case Break => NonEmpty(cur) + Wrap(ts[1..], [])
      case Unit(u) =>
        if |cur| + |u| > BROWSER_LINE_CAP then [cur] + Wrap(ts[1..], u) else Wrap(ts[1..], cur + u)
  }

  function Wrapped(raw: bytes): seq<bytes> {
    Wrap(Tokens(raw, 0), [])
  }

  lemma {:induction false} NextToken(raw: bytes, i: nat)
    requires i < |raw|
    ensures Tokens(raw, i) == [TokenAt(raw, i).0] + Tokens(raw, i + TokenAt(raw, i).1)
  {
  }

  lemma {:induction false} WrapNothing(raw: bytes, cur: bytes)
    ensures Wrap(Tokens(raw, |raw|), cur) == NonEmpty(cur)
  {
  }

  // ----- the breaker in place

  class LineBuffer {
    var lines: seq<bytes>
    var cur: bytes
    var trunc: bool

    predicate Valid()
      reads this
    {
      |lines| <= BROWSER_MAX_LINES && |cur| <= BROWSER_LINE_CAP
    }

    constructor ()
      ensures Valid() && lines == [] && cur == [] && !trunc
    {
      lines, cur, trunc := [], [], false;
    }

    method FlushLine()
      requires Valid()
      modifies this
      ensures Valid() && cur == []
      ensures |old(lines)| < BROWSER_MAX_LINES ==> lines == old(lines) + [old(cur)] && trunc == old(trunc)
      ensures |old(lines)| == BROWSER_MAX_LINES ==> lines == old(lines) && trunc
    {
      if |lines| >= BROWSER_MAX_LINES {
        trunc := true;
        cur := [];
        return;
      }
      lines := lines + [cur];
      cur := [];
    }

    /** What is on the page, and what is still to come, are the lines of the whole text; or the page is full
        and the text goes on. */
    predicate Shows(all: seq<bytes>, rest: seq<Token>)
      reads this
    {
      && Valid()
      && if trunc then |lines| == BROWSER_MAX_LINES && lines <= all && |all| > BROWSER_MAX_LINES
         else all == lines + Wrap(rest, cur)
    }

    method EmitChar(c: byte, ghost all: seq<bytes>, ghost rest: seq<Token>)
      requires !trunc && Shows(all, [Unit([c])] + rest)
      modifies this
      ensures Shows(all, rest)
    {
      assert ([Unit([c])] + rest)[1..] == rest && [] + [c] == [c];
      ghost var wasLines, wasCur := lines, cur;
      if |cur| >= BROWSER_LINE_CAP {
        FlushLine();
        assert all == wasLines + ([wasCur] + Wrap(rest, [c]));
        assert all == wasLines + [wasCur] + Wrap(rest, [c]);
      }
      // The source also gives up on a full page with a full line; a full line has just been flushed.
      if |cur| < BROWSER_LINE_CAP {
        cur := cur + [c];
      }
      SomeLines(rest, [c]);
    }

    /** A multi-byte character goes on the line whole, or starts the next one. */
    method EmitSliceCap(slice: bytes, ghost all: seq<bytes>, ghost rest: seq<Token>)
      requires !trunc && Shows(all, [Unit(slice)] + rest) && 1 <= |slice| <= 4
      modifies this
      ensures Shows(all, rest)
    {
      assert ([Unit(slice)] + rest)[1..] == rest && [] + slice == slice;
      ghost var wasLines, wasCur := lines, cur;
      SomeLines(rest, slice);
      while |cur| + |slice| > BROWSER_LINE_CAP
        invariant Valid() && !trunc && if cur == [] then true else lines == wasLines && cur == wasCur
        invariant cur == [] && wasCur != [] ==> lines == wasLines + [wasCur] && all == lines + Wrap(rest, slice) && |lines| < BROWSER_MAX_LINES
        invariant wasCur == [] ==> lines == wasLines
        decreases |cur|
      {
        FlushLine();
        assert all == wasLines + ([wasCur] + Wrap(rest, slice));
        assert all == wasLines + [wasCur] + Wrap(rest, slice);
        if |lines| >= BROWSER_MAX_LINES {
          trunc := true;
          return;
        }
      }
      cur := cur + slice;
    }

    /** plain_lines: the first 128 lines of the wrapped text, and whether there are more. */
    method PlainLines(raw: bytes)
      requires Valid() && lines == [] && cur == [] && !trunc
      modifies this
      ensures lines == if |Wrapped(raw)| <= BROWSER_MAX_LINES then Wrapped(raw) else Wrapped(raw)[..BROWSER_MAX_LINES]
      ensures trunc == (|Wrapped(raw)| > BROWSER_MAX_LINES)
    {
      hide Wrap, Tokens, Utf8SeqValid;
      var i := 0;
      ghost var all := Wrapped(raw);
      assert all == [] + Wrap(Tokens(raw, 0), []);
      while i < |raw|
        invariant i <= |raw| && Shows(all, Tokens(raw, i))
        invariant i < |raw| || trunc || all == lines + Wrap(Tokens(raw, |raw|), cur)
        decreases |raw| - i
      {
        var b := raw[i];
        NextToken(raw, i);
        if b == 10 || b == 13 {
          NewLine(all, Tokens(raw, i + 1));
          i := i + 1;
          continue;
        }
        if trunc {
          break;
        }
        if b < 0x80 {
          EmitChar(b, all, Tokens(raw, i + 1));
          i := i + 1;
          continue;
        }
        i := EmitNonAscii(raw, i, all);
      }
      WrapNothing(raw, cur);
      if |cur| > 0 && !trunc {
        FlushLine();
      }
    }

    /** A byte above 127: the start of a valid sequence, or '?'. */
    method EmitNonAscii(raw: bytes, i: nat, ghost all: seq<bytes>) returns (next: nat)
      requires i < |raw| && raw[i] >= 0x80 && !trunc && Shows(all, Tokens(raw, i))
      modifies this
      ensures i < next <= |raw| && Shows(all, Tokens(raw, next))
    {
      hide Wrap, Tokens, Utf8SeqValid;
      NextToken(raw, i);
      var len := Utf8LeadLen(raw[i]);
      if len.None? {
        EmitChar(QUESTION, all, Tokens(raw, i + 1));
        return i + 1;
      }
      if i + len.value > |raw| {
        EmitChar(QUESTION, all, Tokens(raw, i + 1));
        return i + 1;
      }
      var ok := CheckUtf8Seq(raw[i..i + len.value]);
      if !ok {
        EmitChar(QUESTION, all, Tokens(raw, i + 1));
        return i + 1;
      }
      EmitSliceCap(raw[i..i + len.value], all, Tokens(raw, i + len.value));
      next := i + len.value;
    }

    /** A newline ends a line that has begun. */
    method NewLine(ghost all: seq<bytes>, ghost rest: seq<Token>)
      requires Shows(all, [Break] + rest)
      modifies this
      ensures Shows(all, rest)
    {
      assert ([Break] + rest)[1..] == rest;
      ghost var wasLines, wasCur := lines, cur;
      if |cur| > 0 {
        FlushLine();
        assert !old(trunc) ==> all == wasLines + ([wasCur] + Wrap(rest, []));
        assert !old(trunc) ==> all == wasLines + [wasCur] + Wrap(rest, []);
      }
      assert !old(trunc) && wasCur == [] ==> all == wasLines + ([] + Wrap(rest, []));
      cur := [];
    }
  }

  /** A line that has begun becomes a line. */
  lemma {:induction false} SomeLines(ts: seq<Token>, cur: bytes)
    requires |cur| > 0
    ensures |Wrap(ts, cur)| > 0
    decreases ts
  {
    if ts != [] {
      match ts[0]
      case Break =>
      case Unit(u) =>
        if |cur| + |u| <= BROWSER_LINE_CAP {
          SomeLines(ts[1..], cur + u);
        }
    }
  }

  // ----- what wrapping keeps

  lemma {:induction false} FlatOne(line: bytes)
    ensures Concat([line]) == line
  {
    assert [line][1..] == [];
  }

  lemma {:induction false} FlatLine(line: bytes)
    ensures Concat(NonEmpty(line)) == line
  {
    FlatOne(line);
  }

  /** All lines together are the sanitised text. */
  lemma {:induction false} WrapConserves(ts: seq<Token>, cur: bytes)
    ensures Concat(Wrap(ts, cur)) == cur + Text(ts)
    decreases ts
  {
    hide Concat;
    FlatLine(cur);
    FlatOne(cur);
    if ts == [] {
      assert cur + [] == cur;
    } else {
      var rest := ts[1..];
      match ts[0]
      case Break =>
        WrapConserves(rest, []);
        ConcatAppend(NonEmpty(cur), Wrap(rest, []));
        assert [] + Text(rest) == Text(rest) == Text(ts);
      case Unit(u) =>
        if |cur| + |u| > BROWSER_LINE_CAP {
          WrapConserves(rest, u);
          ConcatAppend([cur], Wrap(rest, u));
        } else {
          WrapConserves(rest, cur + u);
        }
        assert cur + (u + Text(rest)) == cur + u + Text(rest);
    }
  }

  /** No line is empty or longer than 96 bytes. */
  lemma {:induction false} LineLengths(ts: seq<Token>, cur: bytes)
    requires |cur| <= BROWSER_LINE_CAP && forall k :: 0 <= k < |ts| ==> UnitOk(ts[k])
    ensures forall k :: 0 <= k < |Wrap(ts, cur)| ==> 1 <= |Wrap(ts, cur)[k]| <= BROWSER_LINE_CAP
    decreases ts
  {
    if ts != [] {
      assert UnitOk(ts[0]);
      match ts[0]
      case Break => LineLengths(ts[1..], []);
      case Unit(u) =>
        if |cur| + |u| > BROWSER_LINE_CAP {
          LineLengths(ts[1..], u);
        } else {
          LineLengths(ts[1..], cur + u);
        }
    }
  }

  /** The characters of the text, in order. */
  function Units(ts: seq<Token>): seq<bytes> {
    if ts == [] then [] else (if ts[0].Unit? then [ts[0].bytes] else []) + Units(ts[1..])
  }

  /** A way to cut the characters into groups. */
  function Joined(groups: seq<seq<bytes>>): seq<bytes> {
    if groups == [] then [] else groups[0] + Joined(groups[1..])
  }

  /** The characters of every line. */
  function Groups(ts: seq<Token>, cur: seq<bytes>): seq<seq<bytes>>
    decreases ts
  {
    if ts == [] then (if cur == [] then [] else [cur])
    else match ts[0]
      case Break => (if cur == [] then [] else [cur]) + Groups(ts[1..], [])
      case Unit(u) =>
        if |Concat(cur)| + |u| > BROWSER_LINE_CAP then [cur] + Groups(ts[1..], [u]) else Groups(ts[1..], cur + [u])
  }

  /** Together, the groups are all characters in order. */
  lemma {:induction false} GroupsAreTheText(ts: seq<Token>, cur: seq<bytes>)
    ensures Joined(Groups(ts, cur)) == cur + Units(ts)
    decreases ts
  {
    JoinedMore(cur, []);
    assert cur + [] == cur;
    if ts != [] {
      match ts[0]
      case Break =>
        GroupsAreTheText(ts[1..], []);
        JoinedMore(cur, Groups(ts[1..], []));
        assert [] + Groups(ts[1..], []) == Groups(ts[1..], []);
      case Unit(u) =>
        assert cur + ([u] + Units(ts[1..])) == cur + [u] + Units(ts[1..]);
        GroupsAreTheText(ts[1..], [u]);
        JoinedMore(cur, Groups(ts[1..], [u]));
        GroupsAreTheText(ts[1..], cur + [u]);
    }
  }

  function FlatAll(groups: seq<seq<bytes>>): seq<bytes> {
    seq(|groups|, k requires 0 <= k < |groups| => Concat(groups[k]))
  }

  /** Every line is a group of whole characters: none is split between lines. */
  lemma {:induction false} NoneSplit(ts: seq<Token>, cur: seq<bytes>)
    requires (forall k :: 0 <= k < |ts| ==> UnitOk(ts[k])) && (Concat(cur) == [] ==> cur == [])
    ensures FlatAll(Groups(ts, cur)) == Wrap(ts, Concat(cur))
    decreases ts
  {
    if ts != [] {
      assert UnitOk(ts[0]);
      match ts[0]
      case Break =>
        NoneSplit(ts[1..], []);
        FlatAllMore(cur, Groups(ts[1..], []));
        assert [] + Groups(ts[1..], []) == Groups(ts[1..], []);
      case Unit(u) =>
        FlatOne(u);
        ConcatAppend(cur, [u]);
        if |Concat(cur)| + |u| > BROWSER_LINE_CAP {
          NoneSplit(ts[1..], [u]);
          FlatAllMore(cur, Groups(ts[1..], [u]));
        } else {
          NoneSplit(ts[1..], cur + [u]);
        }
    }
  }

  lemma {:induction false} FlatAllMore(first: seq<bytes>, rest: seq<seq<bytes>>)
    ensures FlatAll([first] + rest) == [Concat(first)] + FlatAll(rest)
  {
  }

  lemma {:induction false} JoinedMore(first: seq<bytes>, rest: seq<seq<bytes>>)
    ensures Joined([first] + rest) == first + Joined(rest)
  {
    assert ([first] + rest)[1..] == rest;
  }

  /** What plain_lines shows: lines of 1 to 96 bytes that together are a prefix of the sanitised text, and
      the truncation flag says whether the prefix is proper. */
  lemma {:induction false} ShownText(raw: bytes, n: nat)
    requires n <= |Wrapped(raw)|
    ensures Concat(Wrapped(raw)[..n]) <= Text(Tokens(raw, 0))
    ensures Concat(Wrapped(raw)[..n]) == Text(Tokens(raw, 0)) <==> n == |Wrapped(raw)|
    ensures forall k :: 0 <= k < n ==> 1 <= |Wrapped(raw)[k]| <= BROWSER_LINE_CAP
  {
    hide Wrap, Tokens, Text;
    var all := Wrapped(raw);
    WrapConserves(Tokens(raw, 0), []);
    LineLengths(Tokens(raw, 0), []);
    ConcatAppend(all[..n], all[n..]);
    assert all == all[..n] + all[n..];
    assert [] + Text(Tokens(raw, 0)) == Text(Tokens(raw, 0));
    if n < |all| {
      assert Concat(all[n..]) == all[n] + Concat(all[n..][1..]);
    }
  }

  /** A newline ends a line: what stands before it and behind it is wrapped on its own. */
  lemma {:induction false} NewlinesSeparate(a: seq<Token>, b: seq<Token>, cur: bytes)
    ensures Wrap(a + [Break] + b, cur) == Wrap(a, cur) + Wrap(b, [])
    decreases a
  {
    var ts := a + [Break] + b;
    if a == [] {
      assert ts[0] == Break && ts[1..] == b;
    } else {
      assert ts[0] == a[0] && ts[1..] == a[1..] + [Break] + b;
      match a[0]
      case Break =>
        NewlinesSeparate(a[1..], b, []);
        assert NonEmpty(cur) + (Wrap(a[1..], []) + Wrap(b, [])) == NonEmpty(cur) + Wrap(a[1..], []) + Wrap(b, []);
      case Unit(u) =>
        NewlinesSeparate(a[1..], b, cur + u);
        NewlinesSeparate(a[1..], b, u);
        assert [cur] + (Wrap(a[1..], u) + Wrap(b, [])) == [cur] + Wrap(a[1..], u) + Wrap(b, []);
    }
  }

  /** The first character of the next line would not have fitted. */
  ghost predicate Full(groups: seq<seq<bytes>>, k: nat)
    requires k + 1 < |groups|
  {
    groups[k + 1] != [] && |Concat(groups[k])| + |groups[k + 1][0]| > BROWSER_LINE_CAP
  }

  /** Without a newline, a line ends only where the next character does not fit. */
  lemma {:induction false} LinesAreFull(ts: seq<Token>, cur: seq<bytes>)
    requires forall k :: 0 <= k < |ts| ==> ts[k].Unit?
    ensures forall k :: 0 <= k < |Groups(ts, cur)| - 1 ==> Full(Groups(ts, cur), k)
    ensures cur != [] ==> Groups(ts, cur) != [] && cur <= Groups(ts, cur)[0]
    decreases ts
  {
    if ts != [] {
      var u := ts[0].bytes;
      if |Concat(cur)| + |u| > BROWSER_LINE_CAP {
        var rest := Groups(ts[1..], [u]);
        LinesAreFull(ts[1..], [u]);
        assert Groups(ts, cur) == [cur] + rest && rest[0][0] == u;
        forall k | 0 <= k < |rest| ensures Full([cur] + rest, k) {
          if k > 0 {
            assert Full(rest, k - 1);
          }
        }
      } else {
        LinesAreFull(ts[1..], cur + [u]);
      }
    }
  }
}
