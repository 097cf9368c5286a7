/** The receive path of an HTTP response (kernel/src/net.rs:1467-1536 and 1629-1655, 1679-1687): header
    and body are taken apart as TCP payloads arrive. What the header means is a parameter. */
module HttpReceive {
  import opened Bytes
  import opened ChunkedDecoder

  const STREAM_CAP := 4096
  const REPLAY := 256

  /** How the header says the body ends, or that its encoding is not supported. */
  datatype Framing = Chunked | Length(n: nat) | UntilClose | BadEncoding

  /** fetch_done with or without an error, and the page at the moment the fetch finished. */
  datatype Completion = Pending | Complete(page: bytes) | Error

  /** What the receive path remembers between payloads. */
  datatype Rx = Rx(stream: bytes, headerFound: bool, chunked: bool, remaining: Option<nat>, body: Decoder, done: Completion) {
    predicate Valid() {
      |stream| <= STREAM_CAP && body.Valid()
    }
  }

  function Fresh(): Rx {
    Rx([], false, false, None, Start(), Pending)
  }

  // ----- the end of the header

  predicate PatternAt(buf: bytes, pattern: bytes, i: nat) {
    i + |pattern| <= |buf| && buf[i..i + |pattern|] == pattern
  }

  /** windows(n).position: the first place from i on where the pattern stands. */
  function Position(buf: bytes, pattern: bytes, i: nat): (pos: Option<nat>)
    requires |pattern| > 0
    ensures pos.None? ==> forall k :: i <= k ==> !PatternAt(buf, pattern, k)
    ensures pos.Some? ==> i <= pos.value && PatternAt(buf, pattern, pos.value)
    ensures pos.Some? ==> forall k :: i <= k < pos.value ==> !PatternAt(buf, pattern, k)
    decreases |buf| - i
  {
    if i + |pattern| > |buf| then None
    else if PatternAt(buf, pattern, i) then Some(i)
    else Position(buf, pattern, i + 1)
  }

  const BLANK_CRLF: bytes := [CR, LF, CR, LF]
  const BLANK_LF: bytes := [LF, LF]

  /** find_http_header_end: where the body starts. */
  function HeaderEnd(buf: bytes): (end: Option<nat>)
    ensures end.Some? ==> end.value <= |buf|
  {
    match Position(buf, BLANK_CRLF, 0)
    case Some(pos) => Some(pos + 4)
    case None =>
      match Position(buf, BLANK_LF, 0)
      case Some(pos) => Some(pos + 2)
      case None => None
  }

  // ----- what one payload does

  /** finish_fetch acts once; decompression is not part of this model. */
  function Finish(done: Completion, page: bytes): Completion {
    if done == Pending then Complete(page) else done
  }

  function AfterRun(done: Completion, o: Outcome): Completion {
    match o
    case More(_) => done
    case Finished(d) => Finish(done, d.page)
    case Failed(_) => Error
  }

  /** The bytes behind the header are handed on in pieces, whatever the pieces lead to. */
  function Replay(body: Decoder, done: Completion, tail: bytes): (r: (Decoder, Completion))
    requires body.Valid()
    ensures r.0.Valid()
    decreases |tail|
  {
    if tail == [] then (body, done) else
    var n := if |tail| < REPLAY then |tail| else REPLAY;
    var o := Run(body, tail[..n]);
    Replay(o.d, AfterRun(done, o), tail[n..])
  }

  function Less(n: nat, m: nat): nat {
    if m <= n then n - m else 0
  }

  function AfterHeader(rx: Rx, framing: Framing, tail: bytes): (r: Rx)
    requires rx.Valid()
    ensures r.Valid()
  {
    match framing
    case BadEncoding => rx.(headerFound := true, done := Error)
    case Chunked =>
      var (body, done) := Replay(rx.body.(phase := SizeLine, line := []), rx.done, tail);
      Rx([], true, true, rx.remaining, body, done)
    case Length(n) =>
      var body := Pushed(rx.body, tail);
      Rx([], true, rx.chunked, Some(Less(n, |tail|)), body, if n <= |tail| then Finish(rx.done, body.page) else rx.done)
    case UntilClose =>
      Rx([], true, rx.chunked, None, Pushed(rx.body, tail), rx.done)
  }

  /** append_to_page: only the bytes that are stored count towards the content length. */
  function Append(rx: Rx, data: bytes): (r: Rx)
    requires rx.Valid()
    ensures r.Valid()
  {
    var body := Pushed(rx.body, data);
    match rx.remaining
    case None => rx.(body := body)
    case Some(rem) =>
      var left := Less(rem, |body.page| - |rx.body.page|);
      rx.(body := body, remaining := Some(left), done := if left == 0 then Finish(rx.done, body.page) else rx.done)
  }

  function Taken(rx: Rx, data: bytes): (s: bytes)
    requires rx.Valid()
    ensures |s| <= STREAM_CAP
  {
    rx.stream + if |data| <= STREAM_CAP - |rx.stream| then data else data[..STREAM_CAP - |rx.stream|]
  }

  function Ingest(rx: Rx, interpret: bytes -> Framing, data: bytes): (r: Rx)
    requires rx.Valid()
    ensures r.Valid()
  {
    if !rx.headerFound then
      var s := Taken(rx, data);
      match HeaderEnd(s)
      case None => if |s| >= STREAM_CAP then rx.(stream := s, done := Error) else rx.(stream := s)
      case Some(end) => AfterHeader(rx.(stream := s), interpret(s[..end]), s[end..])
    else if rx.chunked then
      var o := Run(rx.body, data);
      rx.(body := o.d, done := AfterRun(rx.done, o))
    else Append(rx, data)
  }

  /** finish_plain_http_on_tcp_eof: the server has closed the connection. */
  function AtEnd(rx: Rx): Rx {
    rx.(done := if rx.chunked && rx.done == Pending then Error else Finish(rx.done, rx.body.page))
  }

  // ----- the receive path in place

  class HttpReceiver {
    const interpret: bytes -> Framing
    const body: BodyDecoder
    var stream: bytes
    var headerFound: bool
    var chunked: bool
    var remaining: Option<nat>
    var done: Completion

    function Value(): Rx
      reads this, body
    {
      Rx(stream, headerFound, chunked, remaining, body.Value(), done)
    }

    constructor (interpret: bytes -> Framing)
      ensures Value() == Fresh() && this.interpret == interpret && fresh(body)
    {
      this.interpret := interpret;
      body := new BodyDecoder();
      stream, headerFound, chunked, remaining, done := [], false, false, None, Pending;
    }

    method FindHttpHeaderEnd(buf: bytes) returns (end: Option<nat>)
      ensures end == HeaderEnd(buf)
    {
      var i := 0;
      while i + 4 <= |buf|
        invariant Position(buf, BLANK_CRLF, 0) == Position(buf, BLANK_CRLF, i)
        decreases |buf| - i
      {
        if buf[i..i + 4] == BLANK_CRLF {
          return Some(i + 4);
        }
        i := i + 1;
      }
      i := 0;
      while i + 2 <= |buf|
        invariant Position(buf, BLANK_LF, 0) == Position(buf, BLANK_LF, i)
        decreases |buf| - i
      {
        if buf[i..i + 2] == BLANK_LF {
          return Some(i + 2);
        }
        i := i + 1;
      }
      return None;
    }

    method FinishFetch()
      modifies this`done
      ensures done == Finish(old(done), body.page)
    {
      if done == Pending {
        done := Complete(body.page);
      }
    }

    method FinishPlainHttpOnTcpEof()
      modifies this`done
      ensures Value() == AtEnd(old(Value()))
    {
      if chunked && done == Pending {
        done := Error;
      } else {
        FinishFetch();
      }
    }

    method Decode(data: bytes)
      requires Value().Valid()
      modifies this`done, body
      ensures var o := Run(old(body.Value()), data);
              body.Value() == o.d && done == AfterRun(old(done), o)
    {
      hide Run;
      var o := body.IngestChunkedBytes(data);
      match o {
        case More(_) =>
        case Finished(_) => FinishFetch();
        case Failed(_) => done := Error;
      }
    }

    /** The loop over 256-byte pieces. */
    method ReplayTail(tail: bytes)
      requires Value().Valid()
      modifies this`done, body
      ensures (body.Value(), done) == Replay(old(body.Value()), old(done), tail)
    {
      hide Run, AfterRun;
      var off := 0;
      while off < |tail|
        invariant off <= |tail| && Value().Valid()
        invariant Replay(old(body.Value()), old(done), tail) == Replay(body.Value(), done, tail[off..])
        decreases |tail| - off
      {
        var n := if |tail| - off < REPLAY then |tail| - off else REPLAY;
        assert tail[off..][..n] == tail[off..off + n] && tail[off..][n..] == tail[off + n..];
        Decode(tail[off..off + n]);
        off := off + n;
      }
      assert tail[off..] == [];
    }

    /** The loop that pushes the bytes behind the header. */
    method PushTail(tail: bytes)
      requires Value().Valid()
      modifies body
      ensures body.Value() == Pushed(old(body.Value()), tail)
    {
      hide Pushed, Push;
      PushedNothing(body.Value());
      for i := 0 to |tail|
        invariant Value().Valid()
        invariant Pushed(old(body.Value()), tail) == Pushed(body.Value(), tail[i..])
      {
        PushedStep(body.Value(), tail[i..]);
        PushKeepsPhase(body.Value(), body.Value().phase, tail[i]);
        assert tail[i..][1..] == tail[i + 1..];
        body.PagePushByte(tail[i]);
      }
      assert tail[|tail|..] == [];
      PushedNothing(body.Value());
    }

    method AppendToPage(data: bytes)
      requires Value().Valid()
      modifies this`remaining, this`done, body
      ensures Value() == Append(old(Value()), data)
    {
      var room := PAGE_CAP - |body.page|;
      var n := if |data| <= room then |data| else room;
      assert |data| <= room ==> data[..n] == data;
      assert |data| > room ==> (body.page + data)[..PAGE_CAP] == body.page + data[..n];
      body.page := body.page + data[..n];
      if |data| > n {
        body.truncated := true;
      }
      if remaining.Some? {
        var take := if remaining.value < n then remaining.value else n;
        remaining := Some(remaining.value - take);
        if remaining == Some(0) {
          FinishFetch();
        }
      }
    }

    /** What the header says decides how the bytes behind it are taken. */
    method HeaderComplete(end: nat)
      requires Value().Valid() && end <= |stream| && !headerFound
      modifies this, body
      ensures Value() == AfterHeader(old(Value()), interpret(old(stream)[..end]), old(stream)[end..])
    {
      hide Pushed, Replay;
      headerFound := true;
      var framing, tail := interpret(stream[..end]), stream[end..];
      match framing {
        case BadEncoding =>
          done := Error;
          return;
        case Chunked =>
          chunked := true;
          body.phase := SizeLine;
          body.line := [];
          ReplayTail(tail);
        case Length(cl) =>
          remaining := Some(cl - (if |tail| < cl then |tail| else cl));
          PushTail(tail);
          if remaining == Some(0) {
            FinishFetch();
          }
        case UntilClose =>
          remaining := None;
          PushTail(tail);
      }
      stream := [];
    }

    method IngestTcpPayload(data: bytes)
      requires Value().Valid()
      modifies this, body
      ensures Value() == Ingest(old(Value()), interpret, data)
    {
      hide AfterHeader, Append, HeaderEnd, Run;
      if !headerFound {
        var room := STREAM_CAP - |stream|;
        var n := if |data| <= room then |data| else room;
        assert |data| <= room ==> data[..n] == data;
        stream := stream + data[..n];
        var end := FindHttpHeaderEnd(stream);
        if |stream| >= STREAM_CAP && end.None? {
          done := Error;
          return;
        }
        if end.Some? {
          HeaderComplete(end.value);
        }
      } else if chunked {
        Decode(data);
      } else {
        AppendToPage(data);
      }
    }
  }
}
