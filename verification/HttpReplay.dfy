/** The bytes that arrive in one payload with the end of a chunked header (kernel/src/net.rs:1500-1514):
    they are handed to the decoder in 256-byte pieces, whatever the pieces lead to. When that differs from
    handing them over whole, and in what. */
module HttpReplay {
  import opened Bytes
  import opened ChunkedDecoder
  import opened HttpReceive

  function PieceLen(tail: bytes): (n: nat)
    requires tail != []
    ensures 0 < n <= |tail|
  {
    if |tail| < REPLAY then |tail| else REPLAY
  }

  // ----- behind the end of the body

  /** Behind the final empty line, the decoder leaves the page alone. */
  lemma {:induction false} TrailersKeepPage(d: Decoder, data: bytes)
    requires d.Valid() && d.phase.Trailers?
    ensures var o := Run(d, data);
            !o.Failed? && o.d.page == d.page && o.d.truncated == d.truncated && o.d.phase.Trailers?
    decreases data
  {
    hide ChunkSize, Keep;
    if data != [] {
      match Step(d, data[0])
      case More(e) => TrailersKeepPage(e, data[1..]);
      case _ =>
    }
  }

  lemma {:induction false} ReplayAfterFinish(d: Decoder, done: Completion, tail: bytes)
    requires d.Valid() && d.phase.Trailers? && done.Complete?
    ensures var r := Replay(d, done, tail);
            r.1 == done && r.0.page == d.page && r.0.truncated == d.truncated
    decreases |tail|
  {
    hide Run;
    if tail != [] {
      var n := PieceLen(tail);
      TrailersKeepPage(d, tail[..n]);
      ReplayAfterFinish(Run(d, tail[..n]).d, done, tail[n..]);
    }
  }

  lemma {:induction false} FinishedInTrailers(d: Decoder, data: bytes)
    requires d.Valid() && Run(d, data).Finished?
    ensures Run(d, data).d.phase.Trailers?
    decreases data
  {
    hide ChunkSize, Keep, Push;
    if data != [] {
      match Step(d, data[0])
      case More(e) => FinishedInTrailers(e, data[1..]);
      case _ =>
    }
  }

  // ----- behind an error

  lemma {:induction false} ReplayAfterError(d: Decoder, tail: bytes)
    requires d.Valid()
    ensures Replay(d, Error, tail).1 == Error
    decreases |tail|
  {
    hide Run;
    if tail != [] {
      ReplayAfterError(Run(d, tail[..PieceLen(tail)]).d, tail[PieceLen(tail)..]);
    }
  }

  /** The pieces never change whether and how the fetch completes, and unless the tail is malformed they do
      not change the page either. */
  lemma {:induction false} ReplayIsRun(d: Decoder, tail: bytes)
    requires d.Valid()
    ensures var r, o := Replay(d, Pending, tail), Run(d, tail);
            && r.1 == AfterRun(Pending, o)
            && (!o.Failed? ==> r.0.page == o.d.page && r.0.truncated == o.d.truncated)
            && (o.More? ==> r.0 == o.d)
    decreases |tail|
  {
    hide Run;
    if tail == [] {
      RunNothing(d);
    } else {
      var n := PieceLen(tail);
      assert tail == tail[..n] + tail[n..];
      RunSplit(d, tail[..n], tail[n..]);
      match Run(d, tail[..n])
      case More(e) => ReplayIsRun(e, tail[n..]);
      case Finished(e) =>
        FinishedInTrailers(d, tail[..n]);
        ReplayAfterFinish(e, AfterRun(Pending, Run(d, tail[..n])), tail[n..]);
      case Failed(e) => ReplayAfterError(e, tail[n..]);
    }
  }

  /** A tail of at most 256 bytes is one piece. */
  lemma {:induction false} OnePiece(d: Decoder, done: Completion, tail: bytes)
    requires d.Valid() && |tail| <= REPLAY
    ensures tail != [] ==> Replay(d, done, tail) == (Run(d, tail).d, AfterRun(done, Run(d, tail)))
    ensures done == Pending ==> Replay(d, done, tail) == (Run(d, tail).d, AfterRun(done, Run(d, tail)))
  {
    hide Run;
    if tail == [] {
      RunNothing(d);
    } else {
      assert tail[..PieceLen(tail)] == tail && tail[PieceLen(tail)..] == [];
      assert Replay(Run(d, tail).d, AfterRun(done, Run(d, tail)), []) == (Run(d, tail).d, AfterRun(done, Run(d, tail)));
    }
  }

  // ----- what a malformed tail can change

  /** Some byte of the data is chunk data, which goes to the page. */
  predicate Stores(d: Decoder, data: bytes)
    requires d.Valid()
    decreases data
  {
    data != [] && (d.phase.Data? || (Step(d, data[0]).More? && Stores(Step(d, data[0]).d, data[1..])))
  }

  /** Some piece stores a byte, though each starts where the one before stopped or failed. */
  predicate PieceStores(d: Decoder, tail: bytes)
    requires d.Valid()
    decreases |tail|
  {
    tail != [] &&
    var n := PieceLen(tail);
    Stores(d, tail[..n]) || PieceStores(Run(d, tail[..n]).d, tail[n..])
  }

  /** Some piece behind the one that fails stores a byte. */
  predicate StoresAfterError(d: Decoder, tail: bytes)
    requires d.Valid()
    decreases |tail|
  {
    tail != [] &&
    var n := PieceLen(tail);
    match Run(d, tail[..n])
    case More(e) => StoresAfterError(e, tail[n..])
    case Finished(_) => false
    case Failed(e) => PieceStores(e, tail[n..])
  }

  /** While the page has room, it grows exactly when a byte is stored. */
  lemma {:induction false} RunGrows(d: Decoder, data: bytes)
    requires d.Valid() && |d.page| + |data| <= PAGE_CAP
    ensures var e := Run(d, data).d;
            && e.truncated == d.truncated && |d.page| <= |e.page| <= |d.page| + |data|
            && (Stores(d, data) <==> |e.page| > |d.page|)
            && (!Stores(d, data) ==> e.page == d.page)
    decreases data
  {
    hide ChunkSize, Keep;
    if data != [] {
      match Step(d, data[0])
      case More(e) => RunGrows(e, data[1..]);
      case _ =>
    }
  }

  lemma {:induction false} ReplayGrows(d: Decoder, tail: bytes)
    requires d.Valid() && |d.page| + |tail| <= PAGE_CAP
    ensures var e := Replay(d, Error, tail).0;
            && e.truncated == d.truncated && |d.page| <= |e.page|
            && (PieceStores(d, tail) <==> |e.page| > |d.page|)
            && (!PieceStores(d, tail) ==> e.page == d.page)
    decreases |tail|
  {
    hide Run, Stores;
    if tail != [] {
      var n := PieceLen(tail);
      RunGrows(d, tail[..n]);
      ReplayGrows(Run(d, tail[..n]).d, tail[n..]);
    }
  }

  /** The pieces change what is received if and only if one behind the failing piece stores a byte. */
  lemma {:induction false} ReplayDiffers(d: Decoder, tail: bytes)
    requires d.Valid() && |d.page| + |tail| <= PAGE_CAP
    ensures var e, f := Replay(d, Pending, tail).0, Run(d, tail).d;
            (e.page == f.page && e.truncated == f.truncated) <==> !StoresAfterError(d, tail)
    ensures StoresAfterError(d, tail) ==> Run(d, tail).Failed? && Replay(d, Pending, tail).0.page != Run(d, tail).d.page
    decreases |tail|
  {
    hide Run, PieceStores;
    if tail == [] {
      RunNothing(d);
    } else {
      var n := PieceLen(tail);
      assert tail == tail[..n] + tail[n..];
      RunSplit(d, tail[..n], tail[n..]);
      RunGrows(d, tail[..n]);
      match Run(d, tail[..n])
      case More(e) => ReplayDiffers(e, tail[n..]);
      case Finished(e) =>
        FinishedInTrailers(d, tail[..n]);
        ReplayAfterFinish(e, AfterRun(Pending, Run(d, tail[..n])), tail[n..]);
      case Failed(e) => ReplayGrows(e, tail[n..]);
    }
  }

  lemma {:induction false} StoresMore(d: Decoder, a: bytes, b: bytes)
    requires d.Valid() && Stores(d, a)
    ensures Stores(d, a + b)
    decreases a
  {
    hide Step;
    if !d.phase.Data? {
      assert (a + b)[1..] == a[1..] + b;
      StoresMore(Step(d, a[0]).d, a[1..], b);
    }
  }

  lemma {:induction false} PieceStoresMore(d: Decoder, a: bytes, b: bytes)
    requires d.Valid() && PieceStores(d, a)
    ensures PieceStores(d, a + b)
    decreases |a|
  {
    hide Run, Stores;
    FirstPiece(a, b);
    var n, m := PieceLen(a), PieceLen(a + b);
    if Stores(d, a[..n]) {
      StoresMore(d, a[..n], (a + b)[n..m]);
    } else {
      assert a[n..] != [] && n == m;
      PieceStoresMore(Run(d, a[..n]).d, a[n..], b);
    }
  }

  /** The first piece of a longer tail is the first piece, or continues it if it is the last. */
  lemma {:induction false} FirstPiece(a: bytes, b: bytes)
    requires a != []
    ensures var n, m := PieceLen(a), PieceLen(a + b);
            && n <= m && (a + b)[..m] == a[..n] + (a + b)[n..m]
            && (n < |a| ==> m == n && (a + b)[..m] == a[..n] && (a + b)[m..] == a[n..] + b)
  {
  }

  /** A longer tail stores at least as much behind an error. */
  lemma {:induction false} StoresAfterErrorMore(d: Decoder, a: bytes, b: bytes)
    requires d.Valid() && StoresAfterError(d, a)
    ensures StoresAfterError(d, a + b)
    decreases |a|
  {
    hide Run, PieceStores;
    FirstPiece(a, b);
    var n := PieceLen(a);
    match Run(d, a[..n])
    case More(e) => StoresAfterErrorMore(e, a[n..], b);
    case Failed(e) => PieceStoresNonEmpty(e, a[n..]); PieceStoresMore(e, a[n..], b);
    case _ =>
  }

  lemma {:induction false} PieceStoresNonEmpty(d: Decoder, tail: bytes)
    requires d.Valid() && PieceStores(d, tail)
    ensures tail != []
  {
  }

  // ----- a malformed size line is the end of it

  predicate NoCr(line: bytes) {
    forall k :: 0 <= k < |line| ==> line[k] != CR
  }

  predicate BadSize(d: Decoder) {
    d.phase.SizeLine? && NoCr(d.line) && ChunkSize(d.line).None?
  }

  lemma {:induction false} SizeOfPrefix(l: bytes, longer: bytes, n: nat)
    requires l <= longer && n <= |l|
    ensures SizeOf(longer, n) == SizeOf(l, n)
  {
    if n > 0 {
      SizeOfPrefix(l, longer, n - 1);
    }
  }

  lemma {:induction false} DigitsEndPrefix(l: bytes, longer: bytes, i: nat)
    requires l <= longer && i <= |l|
    ensures DigitsEnd(l, i) <= DigitsEnd(longer, i)
    decreases |l| - i
  {
    if i < |l| && !Delimiter(l[i]) {
      DigitsEndPrefix(l, longer, i + 1);
    }
  }

  /** More bytes do not make a size line well-formed. */
  lemma {:induction false} BadSizeStays(d: Decoder, b: byte)
    requires d.Valid() && BadSize(d)
    ensures var o := Step(d, b); BadSize(o.d) && (o.More? || o == Failed(d))
  {
    hide SizeOf, DigitsEnd;
    var l := Keep(d.line, b);
    assert StripCr(d.line) == d.line && StripCr(l) == l;
    var n, m := DigitsEnd(d.line, 0), DigitsEnd(l, 0);
    DigitsEndPrefix(d.line, l, 0);
    SizeOfPrefix(d.line, l, n);
    NoSizeAfter(l, n, m);
  }

  lemma {:induction false} BadSizeRun(d: Decoder, data: bytes)
    requires d.Valid() && BadSize(d)
    ensures !Stores(d, data) && BadSize(Run(d, data).d)
    decreases data
  {
    hide Step, ChunkSize, NoCr;
    if data != [] {
      BadSizeStays(d, data[0]);
      match Step(d, data[0])
      case More(e) => BadSizeRun(e, data[1..]);
      case _ =>
    }
  }

  lemma {:induction false} BadSizePieces(d: Decoder, tail: bytes)
    requires d.Valid() && BadSize(d)
    ensures !PieceStores(d, tail)
    decreases |tail|
  {
    hide Run, BadSize, Stores;
    if tail != [] {
      BadSizeRun(d, tail[..PieceLen(tail)]);
      BadSizePieces(Run(d, tail[..PieceLen(tail)]).d, tail[PieceLen(tail)..]);
    }
  }

  lemma {:induction false} RunFailsIn(d: Decoder, data: bytes)
    requires d.Valid() && NoCr(d.line)
    ensures var o := Run(d, data);
            NoCr(o.d.line) && (o.Failed? ==> BadSize(o.d) || o.d.phase.AfterData?)
    decreases data
  {
    hide ChunkSize, Push;
    if data != [] {
      match Step(d, data[0])
      case More(e) =>
        PushKeepsPhase(d, d.phase, data[0]);
        RunFailsIn(e, data[1..]);
      case _ =>
    }
  }

  /** A tail that fails in a size line changes nothing behind it: only a wrong line end after a chunk's data
      makes the pieces matter. */
  lemma {:induction false} OnlyLineEndsMatter(d: Decoder, tail: bytes)
    requires d.Valid() && NoCr(d.line) && StoresAfterError(d, tail)
    ensures Run(d, tail).Failed? && Run(d, tail).d.phase.AfterData?
    decreases |tail|
  {
    hide Run, PieceStores, NoCr;
    var n := PieceLen(tail);
    assert tail == tail[..n] + tail[n..];
    RunSplit(d, tail[..n], tail[n..]);
    RunFailsIn(d, tail[..n]);
    match Run(d, tail[..n])
    case More(e) => OnlyLineEndsMatter(e, tail[n..]);
    case Failed(e) =>
      if BadSize(e) {
        BadSizePieces(e, tail[n..]);
      }
    case _ =>
  }

  // ----- a tail for which the pieces matter

  /** "1\nAZ", 252 zero bytes, and "\n1\nB" in the next piece. */
  function MalformedTail(): bytes {
    [49, LF, 65, 90] + Zeros(252) + [LF, 49, LF, 66]
  }

  lemma {:induction false} SizeOne()
    ensures Keep([], 49) == [49] && ChunkSize([49]) == Some(1)
  {
    assert SizeOf([49], 0) == Some(0);
    assert SizeOf([49], 1) == Some(1);
    assert DigitsEnd([49], 0) == 1;
  }

  lemma {:induction false} BadChunkEnd()
    ensures Run(Start(), [49, LF, 65, 90]) == Failed(Decoder(AfterData(0), [], [65], false))
  {
    hide Run, ChunkSize;
    var s: bytes := [49, LF, 65, 90];
    assert Push(Decoder(Data(1), [], [], false), 65) == Decoder(Data(1), [], [65], false);
    var d := Start();
    SizeOne();
    RunFrom(d, s, 0);
    RunFrom(d.(line := [49]), s, 1);
    RunFrom(Decoder(Data(1), [], [], false), s, 2);
    RunFrom(Decoder(AfterData(0), [], [65], false), s, 3);
    assert s[0..] == s;
  }

  lemma {:induction false} NextChunk()
    ensures Run(Decoder(AfterData(0), [], [65], false), [LF, 49, LF, 66]) == More(Decoder(AfterData(0), [], [65, 66], false))
  {
    hide Run, ChunkSize;
    var s: bytes := [LF, 49, LF, 66];
    assert Push(Decoder(Data(1), [], [65], false), 66) == Decoder(Data(1), [], [65, 66], false);
    SizeOne();
    RunFrom(Decoder(AfterData(0), [], [65], false), s, 0);
    RunFrom(Decoder(SizeLine, [], [65], false), s, 1);
    RunFrom(Decoder(SizeLine, [49], [65], false), s, 2);
    RunFrom(Decoder(Data(1), [], [65], false), s, 3);
    assert s[0..] == s && s[4..] == [];
    RunNothing(Decoder(AfterData(0), [], [65, 66], false));
  }

  /** The decoder goes on behind the error, and a byte that a single call would never have reached is
      appended to the page. */
  lemma {:induction false} ReplayGoesOnAfterAnError()
    ensures Run(Start(), MalformedTail()) == Failed(Decoder(AfterData(0), [], [65], false))
    ensures Replay(Start(), Pending, MalformedTail()) == (Decoder(AfterData(0), [], [65, 66], false), Error)
  {
    hide Run, ChunkSize, Replay, Zeros;
    var bad, more := [49, LF, 65, 90], [LF, 49, LF, 66];
    var first := bad + Zeros(252);
    BadChunkEnd();
    NextChunk();
    RunSplit(Start(), bad, Zeros(252));
    RunSplit(Start(), first, more);
    FullPiece(Start(), Pending, first, more);
    OnePiece(Decoder(AfterData(0), [], [65], false), Error, more);
  }

  lemma {:induction false} FullPiece(d: Decoder, done: Completion, first: bytes, more: bytes)
    requires d.Valid() && |first| == REPLAY
    ensures Replay(d, done, first + more) == Replay(Run(d, first).d, AfterRun(done, Run(d, first)), more)
  {
    hide Run;
    var tail := first + more;
    assert tail[..REPLAY] == first && tail[REPLAY..] == more;
  }
}
