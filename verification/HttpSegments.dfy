/** How a response is cut into TCP payloads: what every cutting amounts to, and exactly when the cutting does
    not matter. */
module HttpSegments {
  import opened Bytes
  import opened ChunkedDecoder
  import opened HttpReceive
  import opened HttpReplay

  /** A header whose lines end in CRLF: the blank line ends it, and no bare blank line occurs in it. */
  ghost predicate CrlfHeader(header: bytes) {
    && |header| >= 4 && PatternAt(header, BLANK_CRLF, |header| - 4)
    && (forall k :: 0 <= k < |header| - 4 ==> !PatternAt(header, BLANK_CRLF, k))
    && NoBlank(header, BLANK_LF)
  }

  /** A header that a bare blank line ends. */
  ghost predicate LfHeader(header: bytes) {
    && |header| >= 2 && PatternAt(header, BLANK_LF, |header| - 2)
    && (forall k :: 0 <= k < |header| - 2 ==> !PatternAt(header, BLANK_LF, k))
    && NoBlank(header, BLANK_CRLF)
  }

  ghost predicate NoBlank(s: bytes, blank: bytes) {
    forall k: nat :: !PatternAt(s, blank, k)
  }

  ghost predicate IsHeader(header: bytes) {
    CrlfHeader(header) || LfHeader(header)
  }

  /** How much of what has arrived behind a header is taken for a part of it: behind a bare blank line, all up to the
      end of the first CRLF one. */
  ghost function Extra(header: bytes, held: bytes): (n: nat)
    ensures n <= |held|
  {
    if CrlfHeader(header) then 0 else
    match Position(held, BLANK_CRLF, 0)
    case None => 0
    case Some(j) => j + 4
  }

  /** As much of the body as can arrive with the end of the header. */
  function WithHeader(headerLen: nat, body: bytes): (t: bytes)
    ensures t <= body && (headerLen <= STREAM_CAP ==> headerLen + |t| <= STREAM_CAP)
  {
    body[..if headerLen + |body| <= STREAM_CAP then |body| else Less(STREAM_CAP, headerLen)]
  }

  /** A response's header. Behind a bare blank line, a CRLF one in the body would be taken for the header's end if
      it arrived in time. */
  ghost predicate HeaderOk(header: bytes, body: bytes) {
    CrlfHeader(header) || (LfHeader(header) && NoBlank(WithHeader(|header|, body), BLANK_CRLF))
  }

  /** What a fetch amounts to. */
  datatype Received = Received(page: bytes, truncated: bool, done: Completion)

  function Seen(rx: Rx): Received {
    Received(rx.body.page, rx.body.truncated, rx.done)
  }

  function Cut(body: bytes): bytes {
    if |body| <= PAGE_CAP then body else body[..PAGE_CAP]
  }

  /** What the body's bytes amount to if they arrive in one payload of their own. */
  function Expected(framing: Framing, body: bytes): Received {
    match framing
    case Chunked => var o := Run(Start(), body); Received(o.d.page, o.d.truncated, AfterRun(Pending, o))
    case Length(n) => Received(Cut(body), |body| > PAGE_CAP, if n <= |Cut(body)| then Complete(Cut(body)) else Pending)
    case UntilClose => Received(Cut(body), |body| > PAGE_CAP, Pending)
    case BadEncoding => Received([], false, Error)
  }

  /** Payloads are taken until the fetch is over (kernel/src/net.rs:930-932). */
  function Deliver(rx: Rx, interpret: bytes -> Framing, pieces: seq<bytes>): (r: Rx)
    requires rx.Valid()
    ensures r.Valid()
    decreases pieces
  {
    if pieces == [] || rx.done != Pending then rx else Deliver(Ingest(rx, interpret, pieces[0]), interpret, pieces[1..])
  }

  // ----- where a cutting ends the header

  /** What the payload that completes the header, of which `have` bytes came before, brings of the body, and
      the payloads behind it. */
  function Behind(have: nat, headerLen: nat, pieces: seq<bytes>): (bytes, seq<bytes>)
    requires have < headerLen
    decreases pieces
  {
    if pieces == [] then ([], [])
    else if have + |pieces[0]| < headerLen then Behind(have + |pieces[0]|, headerLen, pieces[1..])
    else (pieces[0][headerLen - have..], pieces[1..])
  }

  /** What the header buffer holds of that. */
  function Held(headerLen: nat, tail: bytes): (held: bytes)
    requires headerLen <= STREAM_CAP
    ensures held <= tail && headerLen + |held| <= STREAM_CAP
  {
    if headerLen + |tail| <= STREAM_CAP then tail else tail[..STREAM_CAP - headerLen]
  }

  lemma {:induction false} BehindIs(s: bytes, header: bytes, body: bytes, pieces: seq<bytes>)
    requires |s| < |header| && s + Concat(pieces) == header + body
    ensures var (tail, later) := Behind(|s|, |header|, pieces); tail + Concat(later) == body
    decreases pieces
  {
    var p, rest := pieces[0], Concat(pieces[1..]);
    assert s + p + rest == header + body;
    if |s| + |p| < |header| {
      BehindIs(s + p, header, body, pieces[1..]);
    } else {
      assert body == (header + body)[|header|..] == (s + p + rest)[|header|..] == p[|header| - |s|..] + rest;
    }
  }

  /** A way of cutting a response into payloads such that the header buffer has room for all of the one that
      completes the header. */
  predicate Cutting(header: bytes, body: bytes, pieces: seq<bytes>) {
    && |header| > 0 && Concat(pieces) == header + body
    && |header| + |Behind(0, |header|, pieces).0| <= STREAM_CAP
  }

  // ----- what a cutting amounts to

  /** What has arrived of a body when n bytes of it are stored, or all of it. */
  function Reached(n: nat, got: bytes, later: seq<bytes>): bytes
    decreases later
  {
    if n <= |Cut(got)| || later == [] then got else Reached(n, got + later[0], later[1..])
  }

  /** A body of which `tail` arrives with the end of the header and the rest in later payloads. */
  function Amounts(framing: Framing, tail: bytes, later: seq<bytes>): Received {
    match framing
    case Length(n) => Expected(framing, Reached(n, tail, later))
    case Chunked =>
      if !Run(Start(), tail).Failed? then Expected(framing, tail + Concat(later)) else
      var d := Replay(Start(), Pending, tail).0;
      Received(d.page, d.truncated, Error)
    case _ => Expected(framing, tail + Concat(later))
  }

  // ----- finding the end of the header

  lemma {:induction false} PositionIs(buf: bytes, pattern: bytes, i: nat, pos: nat)
    requires |pattern| > 0 && i <= pos && PatternAt(buf, pattern, pos)
    requires forall k :: i <= k < pos ==> !PatternAt(buf, pattern, k)
    ensures Position(buf, pattern, i) == Some(pos)
    decreases pos - i
  {
    if i < pos {
      PositionIs(buf, pattern, i + 1, pos);
    }
  }

  lemma {:induction false} PatternInPrefix(s: bytes, buf: bytes, pattern: bytes, k: nat)
    requires s <= buf && k + |pattern| <= |s|
    ensures PatternAt(s, pattern, k) == PatternAt(buf, pattern, k)
  {
    assert s[k..k + |pattern|] == buf[k..k + |pattern|];
  }

  lemma {:induction false} PatternBehind(s: bytes, tail: bytes, pattern: bytes, k: nat)
    requires k >= |s|
    ensures PatternAt(s + tail, pattern, k) == PatternAt(tail, pattern, k - |s|)
  {
    if k + |pattern| <= |s + tail| {
      assert (s + tail)[k..k + |pattern|] == tail[k - |s|..k - |s| + |pattern|];
    }
  }

  /** Once a CRLF header is there, its end is found, whatever follows. */
  lemma {:induction false} EndOfCrlf(header: bytes, tail: bytes)
    requires CrlfHeader(header)
    ensures HeaderEnd(header + tail) == Some(|header|)
  {
    hide PatternAt, Position, NoBlank;
    var buf := header + tail;
    PatternInPrefix(header, buf, BLANK_CRLF, |header| - 4);
    forall k | 0 <= k < |header| - 4 ensures !PatternAt(buf, BLANK_CRLF, k) {
      PatternInPrefix(header, buf, BLANK_CRLF, k);
    }
    PositionIs(buf, BLANK_CRLF, 0, |header| - 4);
  }

  /** No CRLF blank line starts in a header that ends with a bare one. */
  lemma {:induction false} NoneAcross(header: bytes, tail: bytes, k: nat)
    requires LfHeader(header) && k < |header|
    ensures !PatternAt(header + tail, BLANK_CRLF, k)
  {
    var buf, n := header + tail, |header|;
    assert buf[n - 2] == LF && buf[n - 1] == LF by {
      assert header[n - 2..n] == BLANK_LF;
      assert header[n - 2..n][0] == BLANK_LF[0] && header[n - 2..n][1] == BLANK_LF[1];
    }
    if k + 4 <= n {
      PatternInPrefix(header, buf, BLANK_CRLF, k);
    } else if k + 4 <= |buf| {
      assert buf[k..k + 4][0] == buf[k] && buf[k..k + 4][1] == buf[k + 1] && buf[k..k + 4][2] == buf[k + 2];
    }
  }

  /** The end of a header with bare line ends is found if and only if no CRLF blank line has arrived with it. */
  lemma {:induction false} EndOfLf(header: bytes, tail: bytes)
    requires LfHeader(header)
    ensures HeaderEnd(header + tail) == Some(|header|) <==> NoBlank(tail, BLANK_CRLF)
  {
    hide PatternAt, Position;
    var buf := header + tail;
    forall k | 0 <= k < |header| ensures !PatternAt(buf, BLANK_CRLF, k) {
      NoneAcross(header, tail, k);
    }
    forall k: nat ensures PatternAt(buf, BLANK_CRLF, k + |header|) == PatternAt(tail, BLANK_CRLF, k) {
      PatternBehind(header, tail, BLANK_CRLF, k + |header|);
    }
    PatternInPrefix(header, buf, BLANK_LF, |header| - 2);
    forall k | 0 <= k < |header| - 2 ensures !PatternAt(buf, BLANK_LF, k) {
      PatternInPrefix(header, buf, BLANK_LF, k);
    }
    PositionIs(buf, BLANK_LF, 0, |header| - 2);
    if NoBlank(tail, BLANK_CRLF) {
      forall k: nat ensures !PatternAt(buf, BLANK_CRLF, k) {
        if k >= |header| {
          assert !PatternAt(tail, BLANK_CRLF, k - |header|);
        }
      }
    }
  }

  lemma {:induction false} NoBlankPrefix(s: bytes, t: bytes, blank: bytes)
    requires s <= t && NoBlank(t, blank)
    ensures NoBlank(s, blank)
  {
    hide PatternAt;
    forall k: nat ensures !PatternAt(s, blank, k) {
      TooLong(s, blank, k);
      if k + |blank| <= |s| {
        PatternInPrefix(s, t, blank, k);
      }
    }
  }

  /** Where the end of a header is found once it is there, whatever follows. */
  lemma {:induction false} EndFound(header: bytes, held: bytes)
    requires IsHeader(header)
    ensures HeaderEnd(header + held) == Some(|header| + Extra(header, held))
  {
    hide CrlfHeader, LfHeader, Position, PatternAt, NoBlank;
    if CrlfHeader(header) {
      EndOfCrlf(header, held);
    } else {
      match Position(held, BLANK_CRLF, 0)
      case None =>
        assert NoBlank(held, BLANK_CRLF) by { NothingFound(held, BLANK_CRLF); }
        EndOfLf(header, held);
      case Some(j) =>
        var buf := header + held;
        forall k | 0 <= k < |header| + j ensures !PatternAt(buf, BLANK_CRLF, k) {
          if k < |header| {
            NoneAcross(header, held, k);
          } else {
            PatternBehind(header, held, BLANK_CRLF, k);
          }
        }
        PatternBehind(header, held, BLANK_CRLF, |header| + j);
        PositionIs(buf, BLANK_CRLF, 0, |header| + j);
    }
  }

  lemma {:induction false} NothingFound(s: bytes, blank: bytes)
    requires |blank| > 0 && Position(s, blank, 0) == None
    ensures NoBlank(s, blank)
  {
    hide Position, PatternAt;
  }

  /** In a response as above, it is where the header ends. */
  lemma {:induction false} NothingExtra(header: bytes, body: bytes, held: bytes)
    requires HeaderOk(header, body) && held <= WithHeader(|header|, body)
    ensures IsHeader(header) && Extra(header, held) == 0
  {
    hide CrlfHeader, LfHeader, WithHeader, Position, PatternAt;
    if !CrlfHeader(header) {
      NoBlankPrefix(held, WithHeader(|header|, body), BLANK_CRLF);
    }
  }

  /** Before that, nothing looks like an end. */
  lemma {:induction false} NoEndYet(header: bytes, s: bytes)
    requires IsHeader(header) && s <= header && |s| < |header|
    ensures HeaderEnd(s) == None
  {
    hide PatternAt;
    forall k: nat ensures !PatternAt(s, BLANK_CRLF, k) && !PatternAt(s, BLANK_LF, k) {
      TooLong(s, BLANK_CRLF, k);
      TooLong(s, BLANK_LF, k);
      if k + 4 <= |s| {
        PatternInPrefix(s, header, BLANK_CRLF, k);
      }
      if k + 2 <= |s| {
        PatternInPrefix(s, header, BLANK_LF, k);
      }
    }
  }

  lemma {:induction false} TooLong(s: bytes, pattern: bytes, k: nat)
    ensures PatternAt(s, pattern, k) ==> k + |pattern| <= |s|
  {
  }

  // ----- one payload after another

  /** A fetch under way that has received the bytes `got` of its body. */
  predicate Receiving(rx: Rx, framing: Framing, got: bytes) {
    && rx.Valid() && rx.headerFound && rx.done == Pending
    && match framing
       case Chunked => rx.chunked && Run(Start(), got) == More(rx.body)
       case Length(n) => !rx.chunked && rx.body == Pushed(Start(), got) && |Cut(got)| < n && rx.remaining == Some(n - |Cut(got)|)
       case UntilClose => !rx.chunked && rx.body == Pushed(Start(), got) && rx.remaining == None
       case BadEncoding => false
  }

  lemma {:induction false} PushedIsCut(got: bytes)
    ensures Pushed(Start(), got).page == Cut(got) && Pushed(Start(), got).truncated == (|got| > PAGE_CAP)
  {
    assert [] + got == got;
  }

  lemma {:induction false} ReceivingSeen(rx: Rx, framing: Framing, got: bytes)
    requires Receiving(rx, framing, got)
    ensures rx.Valid() && rx.done == Pending && Seen(rx) == Expected(framing, got) == Amounts(framing, got, [])
  {
    hide Run, Pushed;
    PushedIsCut(got);
    assert got + [] == got;
  }

  /** The payload that completes the header. */
  lemma {:induction false} HeaderPayload(s: bytes, framing: Framing, tail: bytes)
    requires |s| <= STREAM_CAP && |tail| <= STREAM_CAP
    ensures var r := AfterHeader(Fresh().(stream := s), framing, tail);
            && (r.done != Pending ==> forall later :: Seen(r) == Amounts(framing, tail, later))
            && (r.done == Pending ==> Receiving(r, framing, tail))
  {
    hide Run, Pushed, Replay;
    PushedIsCut(tail);
    ReplayIsRun(Start(), tail);
    if framing.Chunked? {
      forall later ensures Run(Start(), tail).Finished? ==> Run(Start(), tail + Concat(later)) == Run(Start(), tail) {
        RunSplit(Start(), tail, Concat(later));
      }
    }
  }

  /** A payload behind the header. */
  lemma {:induction false} BodyPayload(rx: Rx, interpret: bytes -> Framing, framing: Framing, got: bytes, data: bytes)
    requires Receiving(rx, framing, got)
    ensures var r := Ingest(rx, interpret, data);
            && Seen(r) == Expected(framing, got + data)
            && (r.done == Pending ==> Receiving(r, framing, got + data))
  {
    hide Run, Pushed, HeaderEnd;
    RunSplit(Start(), got, data);
    PushedTwice(Start(), got, data);
    PushedIsCut(got);
    PushedIsCut(got + data);
  }

  /** What the payloads amount to after one more of them. */
  lemma {:induction false} AmountsStep(rx: Rx, framing: Framing, got: bytes, data: bytes, rest: seq<bytes>)
    requires Receiving(rx, framing, got)
    ensures var e := Expected(framing, got + data);
            Amounts(framing, got, [data] + rest) == if e.done != Pending then e else Amounts(framing, got + data, rest)
  {
    hide Run, Pushed;
    var later := [data] + rest;
    assert later[0] == data && later[1..] == rest;
    assert got + Concat(later) == got + data + Concat(rest);
    match framing
    case Length(n) => assert Reached(n, got, later) == Reached(n, got + data, rest);
    case Chunked => RunSplit(Start(), got + data, Concat(rest));
    case _ =>
  }

  lemma {:induction false} BodyRun(rx: Rx, interpret: bytes -> Framing, framing: Framing, got: bytes, pieces: seq<bytes>)
    requires Receiving(rx, framing, got)
    ensures rx.Valid()
    ensures var r := Deliver(rx, interpret, pieces);
            && Seen(r) == Amounts(framing, got, pieces)
            && (r.done == Pending ==> Receiving(r, framing, got + Concat(pieces)))
    decreases pieces
  {
    hide Receiving, Amounts, Expected, Ingest;
    ReceivingSeen(rx, framing, got);
    if pieces == [] {
      assert got + Concat(pieces) == got;
    } else {
      var p, rest := pieces[0], pieces[1..];
      assert pieces == [p] + rest;
      BodyPayload(rx, interpret, framing, got, p);
      AmountsStep(rx, framing, got, p, rest);
      var r := Ingest(rx, interpret, p);
      if r.done == Pending {
        BodyRun(r, interpret, framing, got + p, rest);
        assert got + p + Concat(rest) == got + Concat(pieces);
      }
    }
  }

  /** The buffer is full before the header's end. */
  lemma {:induction false} HeaderTooLong(s: bytes, header: bytes, interpret: bytes -> Framing, p: bytes)
    requires IsHeader(header) && |s| < STREAM_CAP < |header|
    requires s <= header && (s + p <= header || header <= s + p) && |s + p| >= STREAM_CAP
    ensures Seen(Ingest(Fresh().(stream := s), interpret, p)) == Received([], false, Error)
  {
    hide HeaderEnd, IsHeader, AfterHeader, Append, Run;
    var t := Taken(Fresh().(stream := s), p);
    assert t == (s + p)[..STREAM_CAP] == header[..STREAM_CAP];
    NoEndYet(header, t);
  }

  /** What the buffer takes of the payload that completes the header. */
  lemma {:induction false} HeaderTaken(s: bytes, header: bytes, interpret: bytes -> Framing, p: bytes)
    requires IsHeader(header) && |s| < |header| <= STREAM_CAP && header <= s + p
    ensures var held := Held(|header|, p[|header| - |s|..]);
            var x := Extra(header, held);
            Ingest(Fresh().(stream := s), interpret, p)
              == AfterHeader(Fresh().(stream := header + held), interpret(header + held[..x]), held[x..])
  {
    hide HeaderEnd, IsHeader, Extra, AfterHeader, Append, Run;
    var held := Held(|header|, p[|header| - |s|..]);
    var t, x := Taken(Fresh().(stream := s), p), Extra(header, held);
    assert s + p == header + p[|header| - |s|..];
    assert t == header + held;
    EndFound(header, held);
    assert t[..|header| + x] == header + held[..x] && t[|header| + x..] == held[x..];
  }

  lemma {:induction false} HeaderGoesOn(s: bytes, header: bytes, interpret: bytes -> Framing, p: bytes)
    requires IsHeader(header) && s + p <= header && |s + p| < |header| && |s + p| < STREAM_CAP
    ensures Ingest(Fresh().(stream := s), interpret, p) == Fresh().(stream := s + p)
  {
    hide HeaderEnd, IsHeader, AfterHeader, Append, Run;
    NoEndYet(header, s + p);
  }

  /** Any payloads that make up a response, the header's first bytes having arrived before. */
  lemma {:induction false} HeaderRun(s: bytes, header: bytes, interpret: bytes -> Framing, body: bytes, pieces: seq<bytes>)
    requires IsHeader(header) && |s| < |header| && |s| < STREAM_CAP && s + Concat(pieces) == header + body
    ensures var r, (tail, later) := Deliver(Fresh().(stream := s), interpret, pieces), Behind(|s|, |header|, pieces);
            if |header| > STREAM_CAP then Seen(r) == Received([], false, Error) else
            var held := Held(|header|, tail);
            var x := Extra(header, held);
            && Seen(r) == Amounts(interpret(header + held[..x]), held[x..], later)
            && (r.done == Pending ==> Receiving(r, interpret(header + held[..x]), held[x..] + Concat(later)))
    decreases pieces
  {
    hide IsHeader, Extra, Expected, Ingest, AfterHeader, Receiving, Amounts;
    HeaderNotEmpty(header);
    var rx, p, rest := Fresh().(stream := s), pieces[0], pieces[1..];
    var next := s + p;
    assert next + Concat(rest) == header + body;
    assert s <= header by { assert s == (header + body)[..|s|] == header[..|s|]; }
    if |next| < |header| {
      assert next == (header + body)[..|next|] == header[..|next|];
    } else {
      assert header == (next + Concat(rest))[..|header|] == next[..|header|];
    }
    if |header| > STREAM_CAP && |next| >= STREAM_CAP {
      HeaderTooLong(s, header, interpret, p);
    } else if |next| < |header| {
      HeaderGoesOn(s, header, interpret, p);
      HeaderRun(next, header, interpret, body, rest);
    } else {
      HeaderTaken(s, header, interpret, p);
      var held, r := Held(|header|, p[|header| - |s|..]), Ingest(rx, interpret, p);
      var x := Extra(header, held);
      var framing := interpret(header + held[..x]);
      HeaderPayload(header + held, framing, held[x..]);
      if r.done == Pending {
        BodyRun(r, interpret, framing, held[x..], rest);
      }
    }
  }

  /** What any payloads that make up a response amount to: a header longer than the buffer is an error; of the
      payload that completes the header, the buffer keeps what it has room for; and behind a bare blank line, a CRLF
      one among these bytes is taken for the header's end. */
  lemma {:induction false} EveryCutting(header: bytes, interpret: bytes -> Framing, body: bytes, pieces: seq<bytes>)
    requires IsHeader(header) && Concat(pieces) == header + body
    ensures |header| > 0
    ensures var r, (tail, later) := Deliver(Fresh(), interpret, pieces), Behind(0, |header|, pieces);
            if |header| > STREAM_CAP then Seen(r) == Received([], false, Error) else
            var held := Held(|header|, tail);
            var x := Extra(header, held);
            && Seen(r) == Amounts(interpret(header + held[..x]), held[x..], later)
            && (r.done == Pending ==> Receiving(r, interpret(header + held[..x]), held[x..] + Concat(later)))
  {
    hide IsHeader, Extra, Expected, Receiving, Amounts;
    assert [] + Concat(pieces) == header + body;
    assert Fresh().(stream := []) == Fresh();
    HeaderNotEmpty(header);
    HeaderRun([], header, interpret, body, pieces);
  }

  lemma {:induction false} HeaderNotEmpty(header: bytes)
    requires IsHeader(header)
    ensures |header| >= 2
  {
  }

  lemma {:induction false} HeaderIs(header: bytes, body: bytes)
    requires HeaderOk(header, body)
    ensures IsHeader(header)
  {
  }

  /** The same where the buffer has room: nothing of the body is lost. */
  lemma {:induction false} FittingCutting(header: bytes, interpret: bytes -> Framing, body: bytes, pieces: seq<bytes>)
    requires HeaderOk(header, body) && Cutting(header, body, pieces)
    ensures |header| <= STREAM_CAP
    ensures var r, (tail, later) := Deliver(Fresh(), interpret, pieces), Behind(0, |header|, pieces);
            && tail + Concat(later) == body && Held(|header|, tail) == tail
            && Seen(r) == Amounts(interpret(header), tail, later)
            && (r.done == Pending ==> Receiving(r, interpret(header), body))
  {
    hide HeaderOk, IsHeader, Extra, Receiving, Amounts;
    assert [] + Concat(pieces) == header + body;
    BehindIs([], header, body, pieces);
    var tail := Behind(0, |header|, pieces).0;
    NothingExtra(header, body, tail);
    assert header + tail[..0] == header && tail[0..] == tail;
    EveryCutting(header, interpret, body, pieces);
  }

  // ----- bodies with a content length

  lemma {:induction false} ReachedIs(n: nat, got: bytes, later: seq<bytes>)
    ensures var all, r := got + Concat(later), Reached(n, got, later);
            && got <= r <= all && (n <= |Cut(r)| <==> n <= |Cut(all)|) && (|Cut(r)| < n ==> r == all)
    decreases later
  {
    var all := got + Concat(later);
    if later == [] {
      assert all == got;
    } else if |Cut(got)| < n {
      assert all == got + later[0] + Concat(later[1..]);
      ReachedIs(n, got + later[0], later[1..]);
    }
  }

  /** With a content length n, the fetch completes by count as soon as n bytes of the body have arrived, if the
      page can hold them, and never otherwise. The page is then all that arrived until that payload's end. */
  lemma {:induction false} CompletesAtContentLength(header: bytes, interpret: bytes -> Framing, n: nat, body: bytes,
                                                    pieces: seq<bytes>)
    requires HeaderOk(header, body) && Cutting(header, body, pieces) && interpret(header) == Length(n)
    ensures var r, (tail, later) := Seen(Deliver(Fresh(), interpret, pieces)), Behind(0, |header|, pieces);
            && (r.done != Pending <==> n <= |body| && n <= PAGE_CAP)
            && (r.done != Pending ==> r.done == Complete(r.page) && n <= |r.page| && r.page == Cut(Reached(n, tail, later)))
            && (r.done == Pending ==> r.page == Cut(body) && r.truncated == (|body| > PAGE_CAP))
            && r.page <= body && (|body| <= n ==> r.page == Cut(body))
  {
    hide HeaderOk, Receiving;
    FittingCutting(header, interpret, body, pieces);
    var (tail, later) := Behind(0, |header|, pieces);
    ReachedIs(n, tail, later);
  }

  // ----- chunked bodies

  /** A chunked response completes, or fails, however it is cut; its page can differ only if it is malformed and
      more than 256 bytes arrive with the end of the header, and does exactly if one of the 256-byte pieces
      behind the failing one stores a byte. */
  lemma {:induction false} ChunkedCutting(header: bytes, interpret: bytes -> Framing, body: bytes, pieces: seq<bytes>)
    requires HeaderOk(header, body) && Cutting(header, body, pieces) && interpret(header) == Chunked
    ensures var r, e, tail := Seen(Deliver(Fresh(), interpret, pieces)), Expected(Chunked, body), Behind(0, |header|, pieces).0;
            && r.done == e.done
            && (r == e <==> !StoresAfterError(Start(), tail))
            && (|tail| <= REPLAY || !Run(Start(), body).Failed? ==> r == e)
  {
    hide Run, StoresAfterError, Receiving, HeaderOk, Replay, PieceStores;
    FittingCutting(header, interpret, body, pieces);
    var (tail, later) := Behind(0, |header|, pieces);
    RunSplit(Start(), tail, Concat(later));
    ReplayIsRun(Start(), tail);
    ReplayDiffers(Start(), tail);
    if |tail| <= REPLAY {
      OnePiece(Start(), Pending, tail);
    }
  }

  /** A chunked response, cut anyhow, completes at its last byte with the payload as its page. */
  lemma {:induction false} CompletesAtLastChunk(header: bytes, interpret: bytes -> Framing, b: Body, pieces: seq<bytes>)
    requires HeaderOk(header, Encode(b)) && interpret(header) == Chunked && b.Ok()
    requires Cutting(header, Encode(b), pieces)
    ensures var r := Seen(Deliver(Fresh(), interpret, pieces));
            && r == Received(Cut(Payload(b.chunks)), |Payload(b.chunks)| > PAGE_CAP, Complete(Cut(Payload(b.chunks))))
  {
    hide Run, Encode, Payload, HeaderOk, Cutting, Deliver, StoresAfterError, Body.Ok;
    DecodeInvertsEncode(b, [Encode(b)]);
    PiecesDoNotMatter(Start(), [Encode(b)]);
    assert Concat([Encode(b)]) == Encode(b) by {
      assert [Encode(b)][1..] == [];
      assert Encode(b) + [] == Encode(b);
    }
    var d, payload := Run(Start(), Encode(b)).d, Payload(b.chunks);
    assert d.page == payload[..|d.page|] == Cut(payload);
    ChunkedCutting(header, interpret, Encode(b), pieces);
  }

  // ----- exactly when the cutting does not matter

  /** A condition on header and body alone: with a content length, the body is not longer, or the length is
      more than the page holds, or all of the body comes too late; a chunked body stores nothing in a 256-byte
      piece behind the one that fails. */
  predicate CutsAgree(framing: Framing, headerLen: nat, body: bytes) {
    headerLen > STREAM_CAP ||
    match framing
    case Length(n) => |body| <= n || n > PAGE_CAP || (n == 0 && headerLen == STREAM_CAP)
    case Chunked => !StoresAfterError(Start(), WithHeader(headerLen, body))
    case _ => true
  }

  /** What all cuttings then amount to. */
  function Agreed(framing: Framing, headerLen: nat, body: bytes): Received {
    if framing == Length(0) && headerLen == STREAM_CAP then Received([], false, Complete([])) else Expected(framing, body)
  }

  lemma {:induction false} CuttingAgrees(header: bytes, interpret: bytes -> Framing, body: bytes, pieces: seq<bytes>)
    requires HeaderOk(header, body) && Cutting(header, body, pieces) && CutsAgree(interpret(header), |header|, body)
    ensures Seen(Deliver(Fresh(), interpret, pieces)) == Agreed(interpret(header), |header|, body)
  {
    hide Run, StoresAfterError, Receiving, HeaderOk, Replay;
    FittingCutting(header, interpret, body, pieces);
    var (tail, later) := Behind(0, |header|, pieces);
    match interpret(header)
    case Length(n) => ReachedIs(n, tail, later);
    case Chunked =>
      ChunkedCutting(header, interpret, body, pieces);
      var t := WithHeader(|header|, body);
      assert tail <= t;
      assert t == tail + t[|tail|..];
      if StoresAfterError(Start(), tail) {
        StoresAfterErrorMore(Start(), tail, t[|tail|..]);
      }
    case _ =>
  }

  /** The header alone, then the body. */
  lemma {:induction false} HeaderFirst(header: bytes, body: bytes, rest: seq<bytes>)
    requires 0 < |header| <= STREAM_CAP && Concat(rest) == body
    ensures Behind(0, |header|, [header] + rest) == ([], rest) && Cutting(header, body, [header] + rest)
  {
    var pieces := [header] + rest;
    assert pieces[0] == header && pieces[1..] == rest && header[|header|..] == [];
  }

  /** The header with a part of the body, then the rest. */
  lemma {:induction false} HeaderWith(header: bytes, t: bytes, rest: bytes)
    requires 0 < |header| && |header| + |t| <= STREAM_CAP
    ensures Behind(0, |header|, [header + t, rest]) == (t, [rest]) && Cutting(header, t + rest, [header + t, rest])
  {
    var pieces := [header + t, rest];
    assert pieces[1..] == [rest] && (header + t)[|header|..] == t;
    ConcatOne(rest);
    assert Concat(pieces) == header + t + rest == header + (t + rest);
  }

  lemma {:induction false} ConcatOne(p: bytes)
    ensures Concat([p]) == p
  {
    assert [p][1..] == [] && p + [] == p;
  }

  lemma {:induction false} ConcatTwo(p: bytes, q: bytes)
    ensures Concat([p, q]) == p + q
  {
    assert [p, q][1..] == [q];
    ConcatOne(q);
  }

  /** What a cutting of a body with a content length amounts to. */
  lemma {:induction false} LengthCutting(header: bytes, interpret: bytes -> Framing, n: nat, body: bytes, pieces: seq<bytes>,
                                         tail: bytes, later: seq<bytes>)
    requires HeaderOk(header, body) && interpret(header) == Length(n) && Cutting(header, body, pieces)
    requires Behind(0, |header|, pieces) == (tail, later)
    ensures Seen(Deliver(Fresh(), interpret, pieces)) == Expected(Length(n), Reached(n, tail, later))
  {
    hide HeaderOk, Receiving, Cutting, Expected;
    FittingCutting(header, interpret, body, pieces);
  }

  /** With a content length of zero, what arrives with the end of the header is the page. */
  lemma {:induction false} EmptyBodyCuts(header: bytes, interpret: bytes -> Framing, body: bytes)
    returns (p: seq<bytes>, q: seq<bytes>)
    requires HeaderOk(header, body) && interpret(header) == Length(0) && body != [] && |header| < STREAM_CAP
    ensures Cutting(header, body, p) && Cutting(header, body, q)
    ensures Seen(Deliver(Fresh(), interpret, p)) == Received([], false, Complete([]))
    ensures Seen(Deliver(Fresh(), interpret, q)).page == body[..1]
  {
    hide HeaderOk, Cutting, Deliver;
    HeaderIs(header, body);
    HeaderNotEmpty(header);
    ConcatOne(body);
    p := [header] + [body];
    HeaderFirst(header, body, [body]);
    LengthCutting(header, interpret, 0, body, p, [], [body]);
    q := [header + body[..1], body[1..]];
    HeaderWith(header, body[..1], body[1..]);
    assert body[..1] + body[1..] == body;
    LengthCutting(header, interpret, 0, body, q, body[..1], [body[1..]]);
  }

  /** With another one, cut behind byte n or not. */
  lemma {:induction false} LaterBodyCuts(header: bytes, interpret: bytes -> Framing, n: nat, body: bytes)
    returns (p: seq<bytes>, q: seq<bytes>)
    requires HeaderOk(header, body) && interpret(header) == Length(n) && 0 < n < |body| && n <= PAGE_CAP && |header| <= STREAM_CAP
    ensures Cutting(header, body, p) && Cutting(header, body, q)
    ensures Seen(Deliver(Fresh(), interpret, p)) == Received(body[..n], false, Complete(body[..n]))
    ensures Seen(Deliver(Fresh(), interpret, q)) == Expected(Length(n), body)
  {
    hide HeaderOk, Cutting, Deliver;
    HeaderIs(header, body);
    HeaderNotEmpty(header);
    ConcatOne(body);
    var now, rest := body[..n], body[n..];
    assert now + rest == body;
    ConcatTwo(now, rest);
    p := [header] + [now, rest];
    HeaderFirst(header, body, [now, rest]);
    assert [] + now == now;
    LengthCutting(header, interpret, n, body, p, [], [now, rest]);
    q := [header] + [body];
    HeaderFirst(header, body, [body]);
    assert [] + body == body;
    LengthCutting(header, interpret, n, body, q, [], [body]);
  }

  /** The page ends with the payload in which byte n arrives, so that it matters what else that one brings. */
  lemma {:induction false} LongBodyCuts(header: bytes, interpret: bytes -> Framing, n: nat, body: bytes)
    returns (p: seq<bytes>, q: seq<bytes>)
    requires HeaderOk(header, body) && interpret(header) == Length(n) && !CutsAgree(Length(n), |header|, body)
    ensures Cutting(header, body, p) && Cutting(header, body, q)
    ensures Seen(Deliver(Fresh(), interpret, p)) == Received(body[..n], false, Complete(body[..n]))
    ensures Seen(Deliver(Fresh(), interpret, q)) != Seen(Deliver(Fresh(), interpret, p))
  {
    hide HeaderOk, Cutting, Deliver;
    if n == 0 {
      p, q := EmptyBodyCuts(header, interpret, body);
    } else {
      p, q := LaterBodyCuts(header, interpret, n, body);
    }
  }

  lemma {:induction false} MalformedBodyCuts(header: bytes, interpret: bytes -> Framing, body: bytes)
    returns (p: seq<bytes>, q: seq<bytes>)
    requires HeaderOk(header, body) && interpret(header) == Chunked && !CutsAgree(Chunked, |header|, body)
    ensures Cutting(header, body, p) && Cutting(header, body, q)
    ensures Seen(Deliver(Fresh(), interpret, q)) != Seen(Deliver(Fresh(), interpret, p))
  {
    hide HeaderOk, Run, Cutting, Expected;
    HeaderIs(header, body);
    HeaderNotEmpty(header);
    var t := WithHeader(|header|, body);
    assert t + body[|t|..] == body;
    ConcatOne(body);
    p := [header] + [body];
    HeaderFirst(header, body, [body]);
    q := [header + t, body[|t|..]];
    HeaderWith(header, t, body[|t|..]);
    ChunkedCutting(header, interpret, body, p);
    ChunkedCutting(header, interpret, body, q);
  }

  /** Two cuttings of one response into payloads leave the same page, truncation mark and completion, for all
      such cuttings, if and only if header and body are as `CutsAgree` says. */
  lemma {:induction false} SegmentationDoesNotMatter(header: bytes, interpret: bytes -> Framing, body: bytes)
    requires HeaderOk(header, body)
    ensures (forall p, q :: Cutting(header, body, p) && Cutting(header, body, q)
               ==> Seen(Deliver(Fresh(), interpret, p)) == Seen(Deliver(Fresh(), interpret, q)))
            <==> CutsAgree(interpret(header), |header|, body)
  {
    hide HeaderOk, Cutting, Deliver, CutsAgree, Agreed;
    var framing := interpret(header);
    if CutsAgree(framing, |header|, body) {
      forall p | Cutting(header, body, p) ensures Seen(Deliver(Fresh(), interpret, p)) == Agreed(framing, |header|, body) {
        CuttingAgrees(header, interpret, body, p);
      }
    } else {
      OnlyThese(framing, |header|, body);
      if framing.Chunked? {
        var p, q := MalformedBodyCuts(header, interpret, body);
      } else {
        var p, q := LongBodyCuts(header, interpret, framing.n, body);
      }
    }
  }

  lemma {:induction false} OnlyThese(framing: Framing, headerLen: nat, body: bytes)
    requires !CutsAgree(framing, headerLen, body)
    ensures framing.Length? || framing.Chunked?
  {
  }

  /** "AB" for a content length of one: in the payload that ends the header, both bytes go to the page; cut
      between them, only the first does. */
  lemma {:induction false} OverlongBody(header: bytes, interpret: bytes -> Framing)
    requires HeaderOk(header, [65, 66]) && |header| + 2 <= STREAM_CAP && interpret(header) == Length(1)
    ensures Cutting(header, [65, 66], [header + [65, 66]]) && Cutting(header, [65, 66], [header + [65], [66]])
    ensures Seen(Deliver(Fresh(), interpret, [header + [65, 66]])) == Received([65, 66], false, Complete([65, 66]))
    ensures Seen(Deliver(Fresh(), interpret, [header + [65], [66]])) == Received([65], false, Complete([65]))
  {
    hide HeaderOk, Receiving;
    var body: bytes := [65, 66];
    HeaderIs(header, body);
    HeaderNotEmpty(header);
    ConcatOne(header + body);
    assert (header + body)[|header|..] == body;
    HeaderWith(header, [65], [66]);
    assert [65] + [66] == body;
    FittingCutting(header, interpret, body, [header + body]);
    FittingCutting(header, interpret, body, [header + [65], [66]]);
  }

  /** The malformed tail as two cuttings of one response: with the end of the header it leaves two bytes, behind
      it one. */
  lemma {:induction false} MalformedBody(header: bytes, interpret: bytes -> Framing)
    requires HeaderOk(header, MalformedTail()) && |header| + |MalformedTail()| <= STREAM_CAP && interpret(header) == Chunked
    ensures Cutting(header, MalformedTail(), [header + MalformedTail()])
    ensures Cutting(header, MalformedTail(), [header] + [MalformedTail()])
    ensures Seen(Deliver(Fresh(), interpret, [header + MalformedTail()])) == Received([65, 66], false, Error)
    ensures Seen(Deliver(Fresh(), interpret, [header] + [MalformedTail()])) == Received([65], false, Error)
  {
    hide HeaderOk, Receiving, MalformedTail, Run, Replay;
    var body := MalformedTail();
    HeaderIs(header, body);
    HeaderNotEmpty(header);
    ReplayGoesOnAfterAnError();
    ConcatOne(header + body);
    ConcatOne(body);
    assert (header + body)[|header|..] == body;
    HeaderFirst(header, body, [body]);
    RunNothing(Start());
    assert [] + body == body;
    FittingCutting(header, interpret, body, [header + body]);
    FittingCutting(header, interpret, body, [header] + [body]);
  }

  /** A header that a bare blank line ends, and a body with a CRLF blank line, the first at j: every cutting is taken for
      a response with that header or for one whose header goes on to the end of that blank line, and which of the two
      depends only on how much arrives with the end of the header. */
  lemma {:induction false} LfCutting(header: bytes, interpret: bytes -> Framing, body: bytes, j: nat, pieces: seq<bytes>)
    requires LfHeader(header) && Cutting(header, body, pieces) && Position(body, BLANK_CRLF, 0) == Some(j)
    ensures j + 4 <= |body| && |header| <= STREAM_CAP
    ensures var r, (tail, later) := Seen(Deliver(Fresh(), interpret, pieces)), Behind(0, |header|, pieces);
            r == if |tail| < j + 4 then Amounts(interpret(header), tail, later)
                 else Amounts(interpret(header + body[..j + 4]), tail[j + 4..], later)
  {
    hide LfHeader, Extra, Amounts, Position, PatternAt;
    var (tail, later) := Behind(0, |header|, pieces);
    assert [] + Concat(pieces) == header + body;
    BehindIs([], header, body, pieces);
    EveryCutting(header, interpret, body, pieces);
    PatternFits(body, BLANK_CRLF, j);
    LfExtra(header, body, tail, j);
    var x := Extra(header, tail);
    assert header + tail[..0] == header && tail[0..] == tail;
    if |tail| >= j + 4 {
      assert tail[..j + 4] == body[..j + 4];
    }
  }

  lemma {:induction false} PatternFits(s: bytes, pattern: bytes, k: nat)
    requires |pattern| > 0 && Position(s, pattern, 0) == Some(k)
    ensures k + |pattern| <= |s|
  {
    hide Position;
  }

  /** Of a body whose first CRLF blank line is at j, a part holds it if and only if it goes as far. */
  lemma {:induction false} LfExtra(header: bytes, body: bytes, tail: bytes, j: nat)
    requires LfHeader(header) && tail <= body && Position(body, BLANK_CRLF, 0) == Some(j)
    ensures Extra(header, tail) == if |tail| < j + 4 then 0 else j + 4
  {
    hide LfHeader, CrlfHeader, Position, PatternAt;
    NotBoth(header);
    forall k: nat ensures PatternAt(tail, BLANK_CRLF, k) ==> k + 4 <= |tail| && PatternAt(body, BLANK_CRLF, k) {
      TooLong(tail, BLANK_CRLF, k);
      if k + 4 <= |tail| {
        PatternInPrefix(tail, body, BLANK_CRLF, k);
      }
    }
    if |tail| >= j + 4 {
      PatternInPrefix(tail, body, BLANK_CRLF, j);
      PositionIs(tail, BLANK_CRLF, 0, j);
    }
  }

  lemma {:induction false} NotBoth(header: bytes)
    requires LfHeader(header)
    ensures !CrlfHeader(header) && IsHeader(header)
  {
    hide PatternAt;
  }

  /** "A", a CRLF blank line and "B". */
  const BLANK_INSIDE: bytes := [65, CR, LF, CR, LF, 66]

  lemma {:induction false} EndInside(header: bytes)
    requires LfHeader(header)
    ensures HeaderEnd(header + BLANK_INSIDE) == Some(|header| + 5)
  {
    hide Position, LfHeader;
    var buf := header + BLANK_INSIDE;
    forall k | 0 <= k < |header| + 1 ensures !PatternAt(buf, BLANK_CRLF, k) {
      if k < |header| {
        NoneAcross(header, BLANK_INSIDE, k);
      } else {
        assert buf[k..k + 4][0] == 65;
      }
    }
    assert buf[|header| + 1..|header| + 5] == BLANK_CRLF;
    PositionIs(buf, BLANK_CRLF, 0, |header| + 1);
  }

  /** Behind a header with bare line ends, a CRLF blank line in the body is taken for the header's end if it arrives in
      the same payload, and for data if it arrives later. */
  lemma {:induction false} BlankLineInBody(header: bytes, interpret: bytes -> Framing)
    requires LfHeader(header) && |header| + 6 <= STREAM_CAP
    requires interpret(header) == UntilClose && interpret(header + BLANK_INSIDE[..5]) == UntilClose
    ensures Cutting(header, BLANK_INSIDE, [header + BLANK_INSIDE]) && Cutting(header, BLANK_INSIDE, [header] + [BLANK_INSIDE])
    ensures Seen(Deliver(Fresh(), interpret, [header + BLANK_INSIDE])) == Received([66], false, Pending)
    ensures Seen(Deliver(Fresh(), interpret, [header] + [BLANK_INSIDE])) == Received(BLANK_INSIDE, false, Pending)
  {
    hide HeaderEnd, Receiving, Position, NoBlank;
    var body := BLANK_INSIDE;
    ConcatOne(header + body);
    ConcatOne(body);
    HeaderFirst(header, body, [body]);
    EndInside(header);
    var buf := header + body;
    assert buf[..|header| + 5] == header + body[..5] && buf[|header| + 5..] == [66];
    assert buf[|header|..] == body;
    OneDelivery(interpret, buf);
    NothingBlank();
    EndOfLf(header, []);
    assert header + [] == header && header[..|header|] == header && header[|header|..] == [];
    var r := Ingest(Fresh(), interpret, header);
    HeaderPayload(header, UntilClose, []);
    OneDelivery(interpret, header);
    BodyRun(r, interpret, UntilClose, [], [body]);
    assert ([header] + [body])[1..] == [body];
    assert [] + body == body && [] + [66] == [66];
  }

  lemma {:induction false} NothingBlank()
    ensures NoBlank([], BLANK_CRLF)
  {
  }

  lemma {:induction false} OneDelivery(interpret: bytes -> Framing, p: bytes)
    ensures Deliver(Fresh(), interpret, [p]) == Ingest(Fresh(), interpret, p)
    ensures |p| <= STREAM_CAP && HeaderEnd(p).Some? ==>
              var end := HeaderEnd(p).value;
              Ingest(Fresh(), interpret, p) == AfterHeader(Fresh().(stream := p), interpret(p[..end]), p[end..])
  {
    hide HeaderEnd, AfterHeader;
    assert [p][1..] == [] && [] + p == p;
  }

  // ----- the end of the connection

  /** When the server closes the connection, a chunked response that is not finished is an error; every other
      one completes with the page as it is, even if fewer bytes arrived than announced. */
  lemma {:induction false} EndOfConnection(header: bytes, interpret: bytes -> Framing, body: bytes, pieces: seq<bytes>)
    requires HeaderOk(header, body) && Cutting(header, body, pieces)
    ensures var r, framing := Seen(AtEnd(Deliver(Fresh(), interpret, pieces))), interpret(header);
            && r.done != Pending
            && (r.done == Error <==> framing.BadEncoding? || (framing.Chunked? && !Run(Start(), body).Finished?))
            && (r.done != Error ==> r.done == Complete(r.page))
            && (framing.UntilClose? ==> r == Received(Cut(body), |body| > PAGE_CAP, Complete(Cut(body))))
            && (framing.Length? && |body| <= framing.n ==> r.page == Cut(body))
            && (framing.Chunked? && r.done != Error ==> r.page == Run(Start(), body).d.page)
  {
    hide HeaderOk, Run, Behind, StoresAfterError, Cutting;
    FittingCutting(header, interpret, body, pieces);
    var framing, r := interpret(header), Deliver(Fresh(), interpret, pieces);
    PushedIsCut(body);
    match framing
    case Length(n) => CompletesAtContentLength(header, interpret, n, body, pieces);
    case Chunked => ChunkedCutting(header, interpret, body, pieces);
    case _ =>
  }
}
