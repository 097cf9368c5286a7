/** The resumable decoder of HTTP chunked bodies (kernel/src/net.rs:1538-1636 and 1760-1785), and the
    encoding it inverts (RFC 9112 section 7.1). */
module ChunkedDecoder {
  import opened Bytes
  import opened Characters

  const PAGE_CAP := 65536
  const CHUNK_LINE_CAP := 24
  /** usize is 64 bits wide. */
  const USIZE := 0x1_0000_0000_0000_0000

  const CR: byte := 13
  const LF: byte := 10

  // ----- chunk-size lines

  /** ';', ' ' and tab end the size. */
  predicate Delimiter(b: byte) {
    b == 59 || b == 32 || b == 9
  }

  /** The number that a run of hexadecimal digits writes, if 64 bits hold it. */
  function SizeOf(line: bytes, n: nat): (size: Option<nat>)
    requires n <= |line|
    ensures size.Some? ==> size.value < USIZE
  {
    if n == 0 then Some(0) else
    match SizeOf(line, n - 1)
    case None => None
    case Some(v) =>
      match HexDigit(line[n - 1])
      case None => None
      case Some(d) => if v * 16 + d < USIZE then Some(v * 16 + d) else None
  }

  /** Where the digits end. */
  function DigitsEnd(line: bytes, i: nat): (n: nat)
    requires i <= |line|
    ensures i <= n <= |line|
    ensures forall k :: i <= k < n ==> !Delimiter(line[k])
    ensures n < |line| ==> Delimiter(line[n])
    decreases |line| - i
  {
    if i == |line| || Delimiter(line[i]) then i else DigitsEnd(line, i + 1)
  }

  function StripCr(line: bytes): (s: bytes)
    ensures s <= line && |line| <= |s| + 1
  {
    if |line| > 0 && line[|line| - 1] == CR then line[..|line| - 1] else line
  }

  function ChunkSize(line: bytes): Option<nat> {
    var l := StripCr(line);
    SizeOf(l, DigitsEnd(l, 0))
  }

  lemma {:induction false} NoSizeAfter(line: bytes, i: nat, n: nat)
    requires i <= n <= |line| && SizeOf(line, i).None?
    ensures SizeOf(line, n).None?
  {
    if i < n {
      NoSizeAfter(line, i, n - 1);
    }
  }

  /** parse_chunk_size_line */
  method ParseChunkSizeLine(line0: bytes) returns (size: Option<nat>)
    ensures size == ChunkSize(line0)
  {
    hide HexDigit, Delimiter;
    var line := line0;
    if |line| > 0 && line[|line| - 1] == CR {
      line := line[..|line| - 1];
    }
    var v: nat := 0;
    var i := 0;
    while i < |line|
      invariant i <= |line| && SizeOf(line, i) == Some(v)
      invariant DigitsEnd(line, 0) == DigitsEnd(line, i)
    {
      var b := line[i];
      if Delimiter(b) {
        break;
      }
      var d := HexDigit(b);
      if d.None? || v * 16 >= USIZE || v * 16 + d.value >= USIZE {
        assert SizeOf(line, i + 1).None?;
        NoSizeAfter(line, i + 1, DigitsEnd(line, i));
        return None;
      }
      v := v * 16 + d.value;
      i := i + 1;
    }
    return Some(v);
  }

  // ----- the decoder as a machine that takes one byte at a time

  datatype Phase = SizeLine | Data(remaining: nat) | AfterData(step: nat) | Trailers

  datatype Decoder = Decoder(phase: Phase, line: bytes, page: bytes, truncated: bool) {
    /** What every step keeps. */
    predicate Valid() {
      && (phase.Data? ==> phase.remaining > 0) && (phase.AfterData? ==> phase.step <= 1)
      && |line| <= CHUNK_LINE_CAP && |page| <= PAGE_CAP
    }
  }

  /** A call ends with the input used up, with the body complete, or with an error. */
  datatype Outcome = More(d: Decoder) | Finished(d: Decoder) | Failed(d: Decoder)

  /** page_push_byte */
  function Push(d: Decoder, b: byte): Decoder {
    if |d.page| < PAGE_CAP then d.(page := d.page + [b]) else d.(truncated := true)
  }

  /** Line bytes beyond the buffer are dropped, and so is every CR. */
  function Keep(line: bytes, b: byte): bytes {
    if b != CR && |line| < CHUNK_LINE_CAP then line + [b] else line
  }

  function Step(d: Decoder, b: byte): (o: Outcome)
    requires d.Valid()
    ensures o.d.Valid()
  {
    match d.phase
    case SizeLine =>
      if b != LF then More(d.(line := Keep(d.line, b))) else
      (match ChunkSize(d.line)
       case None => Failed(d)
       case Some(size) => More(d.(line := [], phase := if size == 0 then Trailers else Data(size))))
    case Data(remaining) =>
      More(Push(d, b).(phase := if remaining == 1 then AfterData(0) else Data(remaining - 1)))
    case AfterData(step) =>
      if b == LF then More(d.(phase := SizeLine))
      else if b == CR && step == 0 then More(d.(phase := AfterData(1)))
      else Failed(d)
    case Trailers =>
      if b != LF then More(d.(line := Keep(d.line, b)))
      else if |d.line| == 0 then Finished(d)
      else More(d.(line := []))
  }

  function Run(d: Decoder, data: bytes): (o: Outcome)
    requires d.Valid()
    ensures o.d.Valid()
    decreases data
  {
    if data == [] then More(d) else
    match Step(d, data[0])
    case More(e) => Run(e, data[1..])
    case o => o
  }

  /** Feeding a and then b is feeding a + b, until the body is complete or wrong. */
  lemma {:induction false} RunSplit(d: Decoder, a: bytes, b: bytes)
    requires d.Valid()
    ensures Run(d, a + b) == match Run(d, a) case More(e) => Run(e, b) case o => o
    decreases a
  {
    hide Step;
    if a == [] {
      assert a + b == b;
    } else {
      assert (a + b)[1..] == a[1..] + b;
      match Step(d, a[0])
      case More(e) => RunSplit(e, a[1..], b);
      case _ =>
    }
  }

  /** One call for every piece, for as long as more input is wanted. */
  function RunPieces(d: Decoder, pieces: seq<bytes>): (o: Outcome)
    requires d.Valid()
    ensures o.d.Valid()
    decreases pieces
  {
    if pieces == [] then More(d) else
    match Run(d, pieces[0])
    case More(e) => RunPieces(e, pieces[1..])
    case o => o
  }

  /** How the input is cut into calls does not matter. */
  lemma {:induction false} PiecesDoNotMatter(d: Decoder, pieces: seq<bytes>)
    requires d.Valid()
    ensures RunPieces(d, pieces) == Run(d, Concat(pieces))
    decreases pieces
  {
    hide Run;
    if pieces == [] {
      assert Run(d, []) == More(d) by { RunNothing(d); }
    } else {
      RunSplit(d, pieces[0], Concat(pieces[1..]));
      match Run(d, pieces[0])
      case More(e) => PiecesDoNotMatter(e, pieces[1..]);
      case _ =>
    }
  }

  lemma {:induction false} RunNothing(d: Decoder)
    requires d.Valid()
    ensures Run(d, []) == More(d)
  {
  }

  // ----- the decoder in place

  /** The part of the network stack that decodes a chunked body: what it keeps between calls. */
  class BodyDecoder {
    var phase: Phase
    var line: bytes
    var page: bytes
    var truncated: bool

    function Value(): Decoder
      reads this
    {
      Decoder(phase, line, page, truncated)
    }

    constructor ()
      ensures Value() == Decoder(SizeLine, [], [], false)
    {
      phase, line, page, truncated := SizeLine, [], [], false;
    }

    method PagePushByte(b: byte)
      modifies this
      ensures Value() == Push(old(Value()), b)
    {
      if |page| < PAGE_CAP {
        page := page + [b];
      } else {
        truncated := true;
      }
    }

    method KeepLineByte(b: byte)
      modifies this
      ensures Value() == old(Value()).(line := Keep(old(line), b))
    {
      if b != CR && |line| < CHUNK_LINE_CAP {
        line := line + [b];
      }
    }

    /** The inner loop over a chunk-size line. */
    method IngestSizeLine(data: bytes, i0: nat) returns (i: nat, o: Outcome)
      requires Value().Valid() && phase.SizeLine? && i0 < |data|
      modifies this
      ensures Value().Valid() && o.d == Value() && i0 < i <= |data|
      ensures Run(old(Value()), data[i0..]) == if o.More? then Run(Value(), data[i..]) else o
    {
      hide Run, ChunkSize, Keep;
      i := i0;
      while i < |data|
        invariant i0 <= i <= |data| && Value().Valid() && phase.SizeLine?
        invariant Run(old(Value()), data[i0..]) == Run(Value(), data[i..])
        invariant i == |data| ==> i0 < i
      {
        RunFrom(Value(), data, i);
        var b := data[i];
        i := i + 1;
        if b == LF {
          var size := ParseChunkSizeLine(line);
          if size.None? {
            o := Failed(Value());
            return;
          }
          line := [];
          phase := if size.value == 0 then Trailers else Data(size.value);
          break;
        }
        KeepLineByte(b);
      }
      o := More(Value());
    }

    /** As much of the chunk's data as this call brings. */
    method IngestData(data: bytes, i0: nat) returns (i: nat, o: Outcome)
      requires Value().Valid() && phase.Data? && i0 < |data|
      modifies this
      ensures Value().Valid() && o == More(Value()) && i0 < i <= |data|
      ensures Run(old(Value()), data[i0..]) == Run(Value(), data[i..])
    {
      hide Run, Push;
      var remaining := phase.remaining;
      var take := if remaining < |data| - i0 then remaining else |data| - i0;
      ghost var was := Value();
      for k := 0 to take
        invariant phase == was.phase && Value().(phase := InChunk(remaining, k)).Valid()
        invariant Run(was, data[i0..]) == Run(Value().(phase := InChunk(remaining, k)), data[i0 + k..])
      {
        RunFrom(Value().(phase := InChunk(remaining, k)), data, i0 + k);
        PushKeepsPhase(Value(), InChunk(remaining, k), data[i0 + k]);
        PagePushByte(data[i0 + k]);
      }
      i := i0 + take;
      phase := InChunk(remaining, take);
      o := More(Value());
    }

    /** The line end after a chunk's data: one byte at a time. */
    method IngestAfterData(data: bytes, i0: nat) returns (i: nat, o: Outcome)
      requires Value().Valid() && phase.AfterData? && i0 < |data|
      modifies this
      ensures Value().Valid() && o.d == Value() && i0 < i <= |data|
      ensures Run(old(Value()), data[i0..]) == if o.More? then Run(Value(), data[i..]) else o
    {
      hide Run;
      RunFrom(Value(), data, i0);
      var b := data[i0];
      i := i0 + 1;
      if phase.step == 0 {
        if b == CR {
          phase := AfterData(1);
        } else if b == LF {
          phase := SizeLine;
        } else {
          o := Failed(Value());
          return;
        }
      } else {
        if b == LF {
          phase := SizeLine;
        } else {
          o := Failed(Value());
          return;
        }
      }
      o := More(Value());
    }

    /** The inner loop over trailer lines; the empty one completes the body. */
    method IngestTrailers(data: bytes, i0: nat) returns (i: nat, o: Outcome)
      requires Value().Valid() && phase.Trailers? && i0 < |data|
      modifies this
      ensures Value().Valid() && o.d == Value() && i0 < i <= |data|
      ensures Run(old(Value()), data[i0..]) == if o.More? then Run(Value(), data[i..]) else o
    {
      hide Run, Keep;
      i := i0;
      while i < |data|
        invariant i0 <= i <= |data| && Value().Valid() && phase.Trailers?
        invariant Run(old(Value()), data[i0..]) == Run(Value(), data[i..])
        invariant i == |data| ==> i0 < i
      {
        RunFrom(Value(), data, i);
        var b := data[i];
        i := i + 1;
        if b == LF {
          if |line| == 0 {
            o := Finished(Value());
            return;
          }
          line := [];
        } else {
          KeepLineByte(b);
        }
      }
      o := More(Value());
    }

    /** Takes one call's bytes exactly as the byte-at-a-time machine does, resuming where the last call
        stopped. */
    method IngestChunkedBytes(data: bytes) returns (o: Outcome)
      requires Value().Valid()
      modifies this
      ensures o == Run(old(Value()), data) && Value() == o.d
    {
      hide Run;
      ghost var was := Value();
      var i := 0;
      assert data[0..] == data;
      while i < |data|
        invariant i <= |data| && Value().Valid()
        invariant Run(was, data) == Run(Value(), data[i..])
      {
        match phase {
          case SizeLine => i, o := IngestSizeLine(data, i);
          case Data(_) => i, o := IngestData(data, i);
          case AfterData(_) => i, o := IngestAfterData(data, i);
          case Trailers => i, o := IngestTrailers(data, i);
        }
        if !o.More? {
          return;
        }
      }
      assert data[i..] == [];
      RunNothing(Value());
      o := More(Value());
    }
  }

  /** The phase after k of a chunk's remaining bytes. */
  function InChunk(remaining: nat, k: nat): Phase
    requires k <= remaining
  {
    if k == remaining then AfterData(0) else Data(remaining - k)
  }

  lemma {:induction false} PushKeepsPhase(d: Decoder, phase: Phase, b: byte)
    ensures Push(d.(phase := phase), b) == Push(d, b).(phase := phase)
    ensures Push(d, b).phase == d.phase && Push(d, b).line == d.line
    ensures |d.page| <= PAGE_CAP ==> |Push(d, b).page| <= PAGE_CAP
  {
  }

  lemma {:induction false} RunFrom(d: Decoder, data: bytes, i: nat)
    requires d.Valid() && i < |data|
    ensures Run(d, data[i..]) == match Step(d, data[i]) case More(e) => Run(e, data[i + 1..]) case o => o
  {
    assert data[i..][1..] == data[i + 1..];
  }

  // ----- the encoding

  const CRLF: bytes := [CR, LF]

  predicate NoLf(s: bytes) {
    forall k :: 0 <= k < |s| ==> s[k] != LF
  }

  /** What ends a size: a semicolon, a space or a tab. */
  predicate ExtensionStart(b: byte) {
    b as char == ';' || b as char == ' ' || b as char == '\t'
  }

  /** A size of at most 24 digits, leading zeros included, with an optional extension. */
  predicate SizeOk(digits: bytes, ext: bytes, size: nat) {
    && 0 < |digits| <= CHUNK_LINE_CAP && Writes(digits, size) && size < USIZE
    && NoLf(ext) && (ext == [] || ExtensionStart(ext[0]))
  }

  datatype Chunk = Chunk(digits: bytes, ext: bytes, data: bytes) {
    predicate Ok() {
      |data| > 0 && SizeOk(digits, ext, |data|)
    }
  }

  /** A trailer line is not empty and holds no line end. */
  predicate TrailerOk(line: bytes) {
    |line| > 0 && line[0] != CR && NoLf(line)
  }

  /** A chunked body: chunks, the last chunk's size line, trailers. */
  datatype Body = Body(chunks: seq<Chunk>, lastDigits: bytes, lastExt: bytes, trailers: seq<bytes>) {
    predicate Ok() {
      && (forall k :: 0 <= k < |chunks| ==> chunks[k].Ok())
      && SizeOk(lastDigits, lastExt, 0)
      && (forall k :: 0 <= k < |trailers| ==> TrailerOk(trailers[k]))
    }
  }

  function Payload(chunks: seq<Chunk>): bytes {
    if chunks == [] then [] else chunks[0].data + Payload(chunks[1..])
  }

  function EncodeChunk(c: Chunk): bytes {
    c.digits + c.ext + CRLF + c.data + CRLF
  }

  function EncodeChunks(chunks: seq<Chunk>): bytes {
    if chunks == [] then [] else EncodeChunk(chunks[0]) + EncodeChunks(chunks[1..])
  }

  function EncodeTrailers(lines: seq<bytes>): bytes {
    if lines == [] then [] else lines[0] + CRLF + EncodeTrailers(lines[1..])
  }

  function Encode(b: Body): bytes {
    EncodeChunks(b.chunks) + (b.lastDigits + b.lastExt + CRLF) + EncodeTrailers(b.trailers) + CRLF
  }

  // ----- size lines are read back

  function KeepAll(line: bytes, s: bytes): (l: bytes)
    requires |line| <= CHUNK_LINE_CAP
    ensures |line| <= |l| <= CHUNK_LINE_CAP && line <= l
    ensures (forall k :: 0 <= k < |line| ==> line[k] != CR) ==> forall k :: 0 <= k < |l| ==> l[k] != CR
    decreases s
  {
    if s == [] then line else KeepAll(Keep(line, s[0]), s[1..])
  }

  /** Within a size line or a trailer line, bytes are only collected. */
  lemma {:induction false} LineRun(d: Decoder, s: bytes)
    requires d.Valid() && (d.phase.SizeLine? || d.phase.Trailers?) && NoLf(s)
    ensures Run(d, s) == More(d.(line := KeepAll(d.line, s)))
    decreases s
  {
    hide ChunkSize;
    if s != [] {
      LineRun(d.(line := Keep(d.line, s[0])), s[1..]);
    }
  }

  lemma {:induction false} KeepDigits(line: bytes, digits: bytes, rest: bytes)
    requires HexDigits(digits) && |line| + |digits| <= CHUNK_LINE_CAP
    ensures KeepAll(line, digits + rest) == KeepAll(line + digits, rest)
    decreases digits
  {
    if digits == [] {
      assert digits + rest == rest && line + digits == line;
    } else {
      assert (digits + rest)[1..] == digits[1..] + rest;
      assert line + digits == (line + [digits[0]]) + digits[1..];
      KeepDigits(line + [digits[0]], digits[1..], rest);
    }
  }

  /** What is kept of an extension starts like the extension. */
  lemma {:induction false} KeepExt(line: bytes, ext: bytes)
    requires |line| <= CHUNK_LINE_CAP && (ext == [] || Delimiter(ext[0]))
    ensures var l := KeepAll(line, ext + [CR]);
            |l| > |line| ==> Delimiter(l[|line|])
  {
    if ext == [] {
      assert ext + [CR] == [CR];
      assert KeepAll(line, [CR]) == KeepAll(line, [CR][1..]);
    } else {
      assert KeepAll(line, ext + [CR]) == KeepAll(Keep(line, ext[0]), (ext + [CR])[1..]);
    }
  }

  lemma {:induction false} SizeOfDigits(line: bytes, digits: bytes)
    requires digits <= line && HexDigits(digits) && HexValue(digits) < USIZE
    ensures SizeOf(line, |digits|) == Some(HexValue(digits))
    decreases digits
  {
    if digits != [] {
      SizeOfDigits(line, digits[..|digits| - 1]);
    }
  }

  lemma {:induction false} DigitsEndAt(line: bytes, digits: bytes, i: nat)
    requires i <= |digits| && digits <= line && HexDigits(digits)
    requires |line| > |digits| ==> Delimiter(line[|digits|])
    ensures DigitsEnd(line, i) == |digits|
    decreases |digits| - i
  {
    if i < |digits| {
      assert HexDigit(digits[i]).Some?;
      DigitsEndAt(line, digits, i + 1);
    }
  }

  lemma {:induction false} SizeReadBack(digits: bytes, ext: bytes, size: nat)
    requires SizeOk(digits, ext, size)
    ensures NoLf(digits + ext + [CR])
    ensures ChunkSize(KeepAll([], digits + ext + [CR])) == Some(size)
  {
    hide SizeOf, DigitsEnd, KeepAll, HexValue, Writes;
    ValueIsWritten(digits, size);
    forall k | 0 <= k < |digits| ensures digits[k] != LF {
      assert HexDigit(digits[k]).Some?;
    }
    var l := KeepAll([], digits + ext + [CR]);
    assert digits + ext + [CR] == digits + (ext + [CR]);
    KeepDigits([], digits, ext + [CR]);
    assert [] + digits == digits;
    KeepExt(digits, ext);
    assert StripCr(l) == l;
    DigitsEndAt(l, digits, 0);
    SizeOfDigits(l, digits);
  }

  /** A size line leads to the chunk's data, or past the last chunk to the trailers. */
  lemma {:induction false} SizeLineRun(d: Decoder, digits: bytes, ext: bytes, size: nat)
    requires d.Valid() && d.phase.SizeLine? && d.line == [] && SizeOk(digits, ext, size)
    ensures Run(d, digits + ext + CRLF) == More(d.(phase := if size == 0 then Trailers else Data(size)))
  {
    hide ChunkSize, KeepAll, SizeOk;
    var s := digits + ext + [CR];
    SizeReadBack(digits, ext, size);
    LineRun(d, s);
    assert digits + ext + CRLF == s + [LF];
    RunSplit(d, s, [LF]);
    OneByte(d.(line := KeepAll([], s)), LF);
  }

  lemma {:induction false} OneByte(d: Decoder, b: byte)
    requires d.Valid()
    ensures Run(d, [b]) == Step(d, b)
  {
    hide Step;
    assert [b][1..] == [];
    match Step(d, b)
    case More(e) => RunNothing(e);
    case _ =>
  }

  // ----- chunks

  /** Everything pushed so far, up to the page's size. */
  function Pushed(d: Decoder, data: bytes): Decoder
    requires |d.page| <= PAGE_CAP
  {
    var all := d.page + data;
    d.(page := if |all| <= PAGE_CAP then all else all[..PAGE_CAP], truncated := d.truncated || |all| > PAGE_CAP)
  }

  lemma {:induction false} PushedStep(d: Decoder, data: bytes)
    requires |d.page| <= PAGE_CAP && |data| > 0
    ensures |Push(d, data[0]).page| <= PAGE_CAP
    ensures Pushed(Push(d, data[0]), data[1..]) == Pushed(d, data)
  {
    assert d.page + data == d.page + [data[0]] + data[1..];
  }

  lemma {:induction false} PushedTwice(d: Decoder, a: bytes, b: bytes)
    requires |d.page| <= PAGE_CAP
    ensures |Pushed(d, a).page| <= PAGE_CAP && Pushed(Pushed(d, a), b) == Pushed(d, a + b)
  {
    assert d.page + (a + b) == d.page + a + b;
  }

  lemma {:induction false} DataRun(d: Decoder, data: bytes)
    requires d.Valid() && d.phase == Data(|data|)
    ensures Run(d, data) == More(Pushed(d, data).(phase := AfterData(0)))
    decreases data
  {
    hide Pushed, Push;
    PushedStep(d, data);
    PushKeepsPhase(d, Data(|data| - 1), data[0]);
    var e := Push(d, data[0]).(phase := if |data| == 1 then AfterData(0) else Data(|data| - 1));
    assert Run(d, data) == Run(e, data[1..]);
    if |data| == 1 {
      RunNothing(e);
      PushedNothing(Push(d, data[0]));
      assert data[1..] == [];
    } else {
      DataRun(e, data[1..]);
      PushedPhase(Push(d, data[0]), e.phase, data[1..]);
    }
  }

  lemma {:induction false} PushedNothing(d: Decoder)
    requires |d.page| <= PAGE_CAP
    ensures Pushed(d, []) == d
  {
    assert d.page + [] == d.page;
  }

  lemma {:induction false} PushedPhase(d: Decoder, phase: Phase, data: bytes)
    requires |d.page| <= PAGE_CAP
    ensures Pushed(d.(phase := phase), data) == Pushed(d, data).(phase := phase)
  {
  }

  lemma {:induction false} LineEndRun(d: Decoder)
    requires d.Valid() && d.phase == AfterData(0)
    ensures Run(d, CRLF) == More(d.(phase := SizeLine))
  {
    RunSplit(d, [CR], [LF]);
    OneByte(d, CR);
    OneByte(d.(phase := AfterData(1)), LF);
    assert CRLF == [CR] + [LF];
  }

  lemma {:induction false} ChunkRun(d: Decoder, c: Chunk)
    requires d.Valid() && d.phase.SizeLine? && d.line == [] && c.Ok()
    ensures Run(d, EncodeChunk(c)) == More(Pushed(d, c.data))
  {
    hide SizeOk, Run, Pushed;
    var size, rest := c.digits + c.ext + CRLF, c.data + CRLF;
    assert EncodeChunk(c) == size + rest;
    RunSplit(d, size, rest);
    SizeLineRun(d, c.digits, c.ext, |c.data|);
    var e := d.(phase := Data(|c.data|));
    RunSplit(e, c.data, CRLF);
    DataRun(e, c.data);
    PushedPhase(d, e.phase, c.data);
    PushedKeeps(d, c.data);
    LineEndRun(Pushed(d, c.data).(phase := AfterData(0)));
  }

  lemma {:induction false} PushedKeeps(d: Decoder, data: bytes)
    requires |d.page| <= PAGE_CAP
    ensures Pushed(d, data).phase == d.phase && Pushed(d, data).line == d.line && |Pushed(d, data).page| <= PAGE_CAP
  {
  }

  lemma {:induction false} ChunksRun(d: Decoder, chunks: seq<Chunk>)
    requires d.Valid() && d.phase.SizeLine? && d.line == [] && forall k :: 0 <= k < |chunks| ==> chunks[k].Ok()
    ensures Run(d, EncodeChunks(chunks)) == More(Pushed(d, Payload(chunks)))
    decreases chunks
  {
    hide Run, Pushed, EncodeChunk, Chunk.Ok;
    if chunks == [] {
      RunNothing(d);
      PushedNothing(d);
    } else {
      var e := Pushed(d, chunks[0].data);
      ChunkRun(d, chunks[0]);
      PushedKeeps(d, chunks[0].data);
      RunSplit(d, EncodeChunk(chunks[0]), EncodeChunks(chunks[1..]));
      ChunksRun(e, chunks[1..]);
      PushedTwice(d, chunks[0].data, Payload(chunks[1..]));
    }
  }

  // ----- trailers

  lemma {:induction false} KeepStarts(s: bytes)
    requires |s| > 0 && s[0] != CR
    ensures |KeepAll([], s)| > 0
  {
    assert Keep([], s[0]) == [s[0]];
    assert KeepAll([], s) == KeepAll([s[0]], s[1..]);
  }

  lemma {:induction false} TrailerRun(d: Decoder, line: bytes)
    requires d.Valid() && d.phase.Trailers? && d.line == [] && TrailerOk(line)
    ensures Run(d, line + CRLF) == More(d)
  {
    hide KeepAll;
    var s := line + [CR];
    LineRun(d, s);
    KeepStarts(s);
    RunSplit(d, s, [LF]);
    OneByte(d.(line := KeepAll([], s)), LF);
    assert line + CRLF == s + [LF];
  }

  lemma {:induction false} TrailersRun(d: Decoder, lines: seq<bytes>)
    requires d.Valid() && d.phase.Trailers? && d.line == [] && forall k :: 0 <= k < |lines| ==> TrailerOk(lines[k])
    ensures Run(d, EncodeTrailers(lines)) == More(d)
    decreases lines
  {
    hide Run, TrailerOk;
    if lines == [] {
      RunNothing(d);
    } else {
      TrailerRun(d, lines[0]);
      RunSplit(d, lines[0] + CRLF, EncodeTrailers(lines[1..]));
      TrailersRun(d, lines[1..]);
    }
  }

  // ----- decoding inverts encoding

  function Start(): Decoder {
    Decoder(SizeLine, [], [], false)
  }

  /** Everything but the last byte: the payload is in the page and the decoder waits for the final
      empty line. */
  lemma {:induction false} BeforeLastByte(b: Body)
    requires b.Ok()
    ensures |Encode(b)| > 0
    ensures Run(Start(), Encode(b)[..|Encode(b)| - 1]) == More(Pushed(Start(), Payload(b.chunks)).(phase := Trailers))
  {
    hide Run, Pushed, Chunk.Ok, SizeOk, TrailerOk;
    var data, last, rest := EncodeChunks(b.chunks), b.lastDigits + b.lastExt + CRLF, EncodeTrailers(b.trailers);
    var d := Pushed(Start(), Payload(b.chunks));
    var e := d.(phase := Trailers);
    PushedKeeps(Start(), Payload(b.chunks));
    ChunksRun(Start(), b.chunks);
    SizeLineRun(d, b.lastDigits, b.lastExt, 0);
    TrailersRun(e, b.trailers);
    OneByte(e, CR);
    RunSplit(e, rest, [CR]);
    RunSplit(d, last, rest + [CR]);
    RunSplit(Start(), data, last + (rest + [CR]));
    assert Encode(b)[..|Encode(b)| - 1] == data + (last + (rest + [CR]));
  }

  /** No matter how the encoded body is cut into calls, the decoder finishes exactly at its last byte, and
      the page is the payload, cut at the page's size and marked if it was longer. */
  lemma {:induction false} DecodeInvertsEncode(b: Body, pieces: seq<bytes>)
    requires b.Ok() && Concat(pieces) == Encode(b)
    ensures RunPieces(Start(), pieces).Finished?
    ensures var d, payload := RunPieces(Start(), pieces).d, Payload(b.chunks);
            && d.page <= payload && |d.page| == (if |payload| <= PAGE_CAP then |payload| else PAGE_CAP)
            && d.truncated == (|payload| > PAGE_CAP)
    ensures forall n :: 0 <= n < |Encode(b)| ==> Run(Start(), Encode(b)[..n]).More?
  {
    hide Run, Encode, Body.Ok;
    var enc := Encode(b);
    BeforeLastByte(b);
    var d := Pushed(Start(), Payload(b.chunks)).(phase := Trailers);
    assert [] + Payload(b.chunks) == Payload(b.chunks);
    var init, last := enc[..|enc| - 1], enc[|enc| - 1];
    EndsWithLf(b);
    OneByte(d, LF);
    assert enc == init + [last];
    RunSplit(Start(), init, [last]);
    PiecesDoNotMatter(Start(), pieces);
    forall n | 0 <= n < |enc| ensures Run(Start(), enc[..n]).More? {
      assert init == enc[..n] + enc[n..|enc| - 1];
      RunSplit(Start(), enc[..n], enc[n..|enc| - 1]);
    }
  }

  lemma {:induction false} EndsWithLf(b: Body)
    ensures |Encode(b)| > 0 && Encode(b)[|Encode(b)| - 1] == LF
  {
  }

  // ----- exactly which size lines are accepted

  lemma {:induction false} SizeOfIff(l: bytes, n: nat)
    requires n <= |l|
    ensures SizeOf(l, n).Some? <==> HexDigits(l[..n]) && HexValue(l[..n]) < USIZE
    ensures SizeOf(l, n).Some? ==> SizeOf(l, n).value == HexValue(l[..n])
  {
    if n > 0 {
      SizeOfIff(l, n - 1);
      var s := l[..n];
      assert s[..n - 1] == l[..n - 1] && s[n - 1] == l[n - 1];
      assert HexDigits(s) <==> HexDigits(s[..n - 1]) && HexDigit(l[n - 1]).Some? by {
        if HexDigits(s[..n - 1]) && HexDigit(l[n - 1]).Some? {
          forall k | 0 <= k < n ensures HexDigit(s[k]).Some? {
            assert k < n - 1 ==> s[k] == s[..n - 1][k];
          }
        }
      }
    }
  }

  /** What stands in front of the first semicolon, space or tab of a line. */
  function SizePart(line: bytes): (digits: bytes)
    ensures digits <= line && forall k :: 0 <= k < |digits| ==> !Delimiter(digits[k])
    ensures |digits| < |StripCr(line)| ==> Delimiter(line[|digits|])
  {
    StripCr(line)[..DigitsEnd(StripCr(line), 0)]
  }

  /** A line without the CR at its end. */
  predicate WithoutCr(line: bytes, l: bytes) {
    line == l + [CR] || (line == l && (l == [] || l[|l| - 1] != CR))
  }

  predicate NoExtension(digits: bytes) {
    forall k :: 0 <= k < |digits| ==> !ExtensionStart(digits[k])
  }

  /** What stands in front of an extension is what the decoder reads as a size. */
  lemma {:induction false} SizePartIs(line: bytes, digits: bytes, ext: bytes)
    requires WithoutCr(line, digits + ext) && NoExtension(digits) && (ext == [] || ExtensionStart(ext[0]))
    ensures SizePart(line) == digits
  {
    hide DigitsEnd;
    assert (digits + ext)[..|digits|] == digits;
    assert StripCr(line) == digits + ext;
    EndsAt(digits + ext, 0, |digits|);
  }

  lemma {:induction false} EndsAt(l: bytes, i: nat, n: nat)
    requires i <= n <= |l| && (forall k :: i <= k < n ==> !Delimiter(l[k])) && (n < |l| ==> Delimiter(l[n]))
    ensures DigitsEnd(l, i) == n
    decreases n - i
  {
    if i < n {
      EndsAt(l, i + 1, n);
    }
  }

  /** A size line is accepted with the size n exactly if what stands in front of its extension, if it has one, writes
      n in base 16, and 64 bits hold n; no digits write zero. */
  lemma {:induction false} SizeLanguage(line: bytes, digits: bytes, ext: bytes, n: nat)
    requires WithoutCr(line, digits + ext) && NoExtension(digits) && (ext == [] || ExtensionStart(ext[0]))
    ensures ChunkSize(line) == Some(n) <==> Writes(digits, n) && n < USIZE
  {
    hide SizePart, HexValue, HexDigits, Writes;
    SizePartIs(line, digits, ext);
    SizeWritten(line, n);
  }

  lemma {:induction false} SizeWritten(line: bytes, n: nat)
    ensures ChunkSize(line) == Some(n) <==> Writes(SizePart(line), n) && n < USIZE
  {
    hide SizeOf, DigitsEnd, Writes;
    SizeOfIff(StripCr(line), DigitsEnd(StripCr(line), 0));
    ValueIsWritten(SizePart(line), n);
  }

  /** RFC 9112 section 7.1 asks for at least one digit. The accepted lines without one are those that are empty
      or start with a delimiter, and they count as size zero. */
  lemma {:induction false} NoDigitsMeansZero(line: bytes)
    ensures ChunkSize(line).Some? && SizePart(line) == [] <==> StripCr(line) == [] || Delimiter(StripCr(line)[0])
    ensures SizePart(line) == [] ==> ChunkSize(line) == Some(0)
  {
    hide SizeOf, DigitsEnd;
    SizeWritten(line, 0);
    var l := StripCr(line);
    if SizePart(line) == [] && l != [] {
      assert line[0] == l[0];
    } else if SizePart(line) != [] {
      assert SizePart(line)[0] == l[0];
    }
  }

  lemma {:induction false} KeepNoCr(line: bytes, s: bytes)
    requires |line| <= CHUNK_LINE_CAP && forall k :: 0 <= k < |line| ==> line[k] != CR
    ensures StripCr(KeepAll(line, s)) == KeepAll(line, s)
  {
  }

  /** Whatever line comes where a size is due: what is kept of it decides, and it leads to data, to the trailers or
      to an error. */
  lemma {:induction false} AnySizeLine(d: Decoder, s: bytes, digits: bytes, ext: bytes)
    requires d.Valid() && d.phase.SizeLine? && d.line == [] && NoLf(s)
    requires KeepAll([], s) == digits + ext && NoExtension(digits) && (ext == [] || ExtensionStart(ext[0]))
    ensures forall n: nat :: Writes(digits, n) && n < USIZE ==> Run(d, s + [LF]) == More(d.(phase := if n == 0 then Trailers else Data(n)))
    ensures (forall n: nat :: !(Writes(digits, n) && n < USIZE)) ==> Run(d, s + [LF]) == Failed(d.(line := digits + ext))
  {
    hide ChunkSize, KeepAll, SizePart, Writes, Run, DigitsEnd;
    var l := KeepAll([], s);
    LineRun(d, s);
    RunSplit(d, s, [LF]);
    OneByte(d.(line := l), LF);
    KeepNoCr([], s);
    assert WithoutCr(l, l);
    forall n: nat ensures ChunkSize(l) == Some(n) <==> Writes(digits, n) && n < USIZE {
      SizeLanguage(l, digits, ext, n);
    }
    if ChunkSize(l).Some? {
      assert Writes(digits, ChunkSize(l).value) && ChunkSize(l).value < USIZE;
    }
  }

  /** The line end behind a chunk's data is a LF or a CRLF; any other byte is an error. */
  lemma {:induction false} AnyLineEnd(d: Decoder, s: bytes)
    requires d.Valid() && d.phase == AfterData(0)
    ensures Run(d, s) ==
      if s == [] then More(d)
      else if s[0] == LF then Run(d.(phase := SizeLine), s[1..])
      else if s == [CR] then More(d.(phase := AfterData(1)))
      else if CRLF <= s then Run(d.(phase := SizeLine), s[2..])
      else Failed(if s[0] == CR then d.(phase := AfterData(1)) else d)
  {
    if |s| >= 2 && s[0] == CR {
      assert Run(d, s) == Run(d.(phase := AfterData(1)), s[1..]);
      assert s[1..][1..] == s[2..];
    }
  }

  /** s without its CRs. */
  function WithoutCrs(s: bytes): (r: bytes)
    decreases |s|
  {
    if s == [] then [] else WithoutCrs(s[..|s| - 1]) + if s[|s| - 1] == CR then [] else [s[|s| - 1]]
  }

  lemma {:induction false} KeepLast(line: bytes, s: bytes, b: byte)
    requires |line| <= CHUNK_LINE_CAP
    ensures KeepAll(line, s + [b]) == Keep(KeepAll(line, s), b)
    decreases s
  {
    if s == [] {
      assert s + [b] == [b] && [b][1..] == [];
      assert KeepAll(line, [b]) == KeepAll(Keep(line, b), []);
    } else {
      assert (s + [b])[1..] == s[1..] + [b];
      KeepLast(Keep(line, s[0]), s[1..], b);
    }
  }

  lemma {:induction false} KeepMore(all: bytes, kept: bytes, b: byte)
    requires kept == if |all| <= CHUNK_LINE_CAP then all else all[..CHUNK_LINE_CAP]
    ensures var more := all + if b == CR then [] else [b];
            Keep(kept, b) == if |more| <= CHUNK_LINE_CAP then more else more[..CHUNK_LINE_CAP]
  {
  }

  /** What is kept of a line: its first 24 bytes, CRs not counted. */
  lemma {:induction false} KeptBytes(s: bytes)
    ensures KeepAll([], s) == if |WithoutCrs(s)| <= CHUNK_LINE_CAP then WithoutCrs(s) else WithoutCrs(s)[..CHUNK_LINE_CAP]
    decreases |s|
  {
    if s != [] {
      var init, b := s[..|s| - 1], s[|s| - 1];
      KeptBytes(init);
      KeepLast([], init, b);
      assert s == init + [b];
      hide KeepAll;
      KeepMore(WithoutCrs(init), KeepAll([], init), b);
    }
  }

  /** A line among the trailers completes the body if and only if it is empty, CRs not counted. */
  lemma {:induction false} AnyTrailer(d: Decoder, s: bytes)
    requires d.Valid() && d.phase.Trailers? && d.line == [] && NoLf(s)
    ensures Run(d, s + [LF]) == if WithoutCrs(s) == [] then Finished(d) else More(d)
  {
    hide KeepAll, Run;
    LineRun(d, s);
    KeptBytes(s);
    RunSplit(d, s, [LF]);
    OneByte(d.(line := KeepAll([], s)), LF);
  }

  lemma {:induction false} EndsSize(ext: bytes)
    ensures ext == [] || (Delimiter(ext[0]) <==> ExtensionStart(ext[0]))
  {
  }

  /** In a run, a line without a digit where a size is due ends the chunks. */
  lemma {:induction false} NoDigitsEndChunks(d: Decoder, ext: bytes)
    requires d.Valid() && d.phase.SizeLine? && d.line == [] && NoLf(ext) && (ext == [] || ExtensionStart(ext[0]))
    ensures Run(d, ext + CRLF) == More(d.(phase := Trailers))
  {
    hide ChunkSize, KeepAll, Delimiter;
    var s := ext + [CR];
    var l := KeepAll([], s);
    LineRun(d, s);
    assert ext == [] || Delimiter(ext[0]) by { EndsSize(ext); }
    KeepExt([], ext);
    KeepNoCr([], s);
    NoDigitsMeansZero(l);
    assert ext + CRLF == s + [LF];
    RunSplit(d, s, [LF]);
    OneByte(d.(line := l), LF);
  }

  /** Two empty lines are a complete body without any data. */
  lemma {:induction false} EmptyLinesAreABody()
    ensures Run(Start(), CRLF + CRLF) == Finished(Start().(phase := Trailers))
  {
    hide Run;
    var d := Start().(phase := Trailers);
    assert [] + CRLF == CRLF;
    NoDigitsEndChunks(Start(), []);
    RunSplit(Start(), CRLF, CRLF);
    assert CRLF == [CR] + [LF];
    RunSplit(d, [CR], [LF]);
    OneByte(d, CR);
    OneByte(d, LF);
  }

  // ----- sizes of more than 24 digits

  lemma {:induction false} KeepFull(line: bytes, s: bytes)
    requires |line| == CHUNK_LINE_CAP
    ensures KeepAll(line, s) == line
    decreases s
  {
    if s != [] {
      KeepFull(line, s[1..]);
    }
  }

  /** More digits write at least sixteen times the number. */
  lemma {:induction false} HexValueGrows(digits: bytes, n: nat)
    requires HexDigits(digits) && n < |digits|
    ensures HexDigits(digits[..n]) && HexValue(digits) >= HexValue(digits[..n]) * 16
  {
    var init := digits[..|digits| - 1];
    if n < |digits| - 1 {
      HexValueGrows(init, n);
      assert init[..n] == digits[..n];
    }
  }

  lemma {:induction false} FirstDigits(digits: bytes, ext: bytes)
    requires HexDigits(digits) && |digits| > CHUNK_LINE_CAP
    ensures KeepAll([], digits + ext) == digits[..CHUNK_LINE_CAP]
  {
    var first, more := digits[..CHUNK_LINE_CAP], digits[CHUNK_LINE_CAP..] + ext;
    assert digits + ext == first + more;
    KeepDigits([], first, more);
    assert [] + first == first;
    KeepFull(first, more);
  }

  /** The bound of 24 digits in `SizeOk` is exact: of a longer size only the first 24 digits are kept, and they
      write its number if and only if that is zero. */
  lemma {:induction false} LongSizes(digits: bytes, ext: bytes, n: nat)
    requires Writes(digits, n) && |digits| > CHUNK_LINE_CAP
    ensures ChunkSize(KeepAll([], digits + ext)) == Some(n) <==> n == 0
  {
    hide SizeOf, DigitsEnd, KeepAll, HexValue, Writes;
    ValueIsWritten(digits, n);
    var l := digits[..CHUNK_LINE_CAP];
    FirstDigits(digits, ext);
    KeepNoCr([], digits + ext);
    HexValueGrows(digits, CHUNK_LINE_CAP);
    DigitsEndAt(l, l, 0);
    SizeOfIff(l, |l|);
    assert l[..|l|] == l;
  }
}
