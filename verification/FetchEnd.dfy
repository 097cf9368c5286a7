/** When a plain HTTP fetch ends (kernel/src/net.rs:621-629, 731-794 and 908-1084), said of a run of drives alone: of the
    packets that came, and of the drives whose frame the card took. */
module FetchEnd {
  import opened Arithmetic
  import opened FetchTimers

  // ----- what a run tells

  /** After the packets h the server's address is known: it was given, or a DNS reply brought it. */
  predicate Known(name: bool, h: seq<Packet>) {
    !name || exists q :: 0 <= q < |h| && h[q] == DnsReply(true)
  }

  /** The request went out, in answer to a SYN-ACK from the known server. */
  predicate Requested(name: bool, h: seq<Packet>) {
    exists q :: 0 <= q < |h| && Known(name, h[..q]) && h[q] == TcpSynAck(true, true)
  }

  /** Packet q of h ends a fetch: a reset; a payload that completes the page or is the last; the end of the
      connection, after the request; a SYN-ACK whose request does not fit its buffer. */
  predicate EndsAt(name: bool, h: seq<Packet>, q: nat)
    requires q < |h|
  {
    && Known(name, h[..q])
    && match h[q]
       case TcpReset => true
       case TcpPayload(completes, fin) => completes || fin
       case TcpFin => Requested(name, h[..q])
       case TcpSynAck(requestFits, _) => !requestFits && !Requested(name, h[..q])
       case _ => false
  }

  /** From packet `from` on, there is one that ends the fetch. */
  predicate EndsFrom(name: bool, h: seq<Packet>, from: nat) {
    exists q :: from <= q < |h| && EndsAt(name, h, q)
  }

  predicate HearsAt(name: bool, h: seq<Packet>, q: nat)
    requires q < |h|
  {
    Known(name, h[..q]) && h[q].TcpPayload?
  }

  predicate HearsFrom(name: bool, h: seq<Packet>, from: nat) {
    exists q :: from <= q < |h| && HearsAt(name, h, q)
  }

  /** The last of the first n drives that brought a payload of the server; 0 if none did. */
  function LastHeard(name: bool, run: seq<Drive>, n: nat): (k: nat)
    requires n <= |run|
    ensures k <= n
  {
    if n == 0 then 0
    else if HearsFrom(name, Packets(run, n), |Packets(run, n - 1)|) then n
    else LastHeard(name, run, n - 1)
  }

  /** In drive n the address is known and the card takes a frame. */
  predicate CanSend(name: bool, run: seq<Drive>, n: nat)
    requires 0 < n <= |run|
  {
    Known(name, Packets(run, n)) && run[n - 1].frameFits
  }

  /** How many SYN frames the first n drives send: with the address known and the card taking the frame, the first time
      at once, and then whenever the clock, which read `since` at the start, shows a multiple of 96 before the request. */
  function Syns(name: bool, run: seq<Drive>, since: nat, n: nat): (k: nat)
    requires n <= |run|
    ensures k <= n
  {
    if n == 0 then 0 else
    var before, h := Syns(name, run, since, n - 1), Packets(run, n);
    if CanSend(name, run, n) && (before == 0 || (!Requested(name, h) && Add32(since, n) % 96 == 0))
    then before + 1 else before
  }

  /** Drive n runs out of patience: no address after 3,072 drives; no request after 16,000, or after 12 SYN frames; or,
      with the request out, nothing heard for 12,000. */
  predicate GivesUp(name: bool, run: seq<Drive>, since: nat, n: nat)
    requires 0 < n <= |run|
  {
    var h := Packets(run, n);
    if !Known(name, h) then n > 3_072
    else if !Requested(name, h) then n > 16_000 || Syns(name, run, since, n - 1) >= 12
    else n - LastHeard(name, run, n) > 12_000
  }

  /** Within the first n drives a packet ended the fetch, or a drive gave up. */
  predicate Ended(name: bool, run: seq<Drive>, since: nat, n: nat)
    requires n <= |run|
  {
    EndsFrom(name, Packets(run, n), 0) || exists i :: 0 < i <= n && GivesUp(name, run, since, i)
  }

  // ----- one more packet

  lemma {:induction false} KnownMore(name: bool, h: seq<Packet>, p: Packet)
    ensures Known(name, h + [p]) == (Known(name, h) || p == DnsReply(true))
  {
    assert forall q :: 0 <= q < |h| ==> (h + [p])[q] == h[q];
    assert (h + [p])[|h|] == p;
  }

  lemma {:induction false} RequestedMore(name: bool, h: seq<Packet>, p: Packet)
    ensures Requested(name, h + [p]) == (Requested(name, h) || (Known(name, h) && p == TcpSynAck(true, true)))
  {
    hide Known;
    var g := h + [p];
    forall q | 0 <= q < |h| ensures g[..q] == h[..q] && g[q] == h[q] {}
    assert g[..|h|] == h && g[|h|] == p;
    if Requested(name, h) {
      var q :| 0 <= q < |h| && Known(name, h[..q]) && h[q] == TcpSynAck(true, true);
      assert Known(name, g[..q]) && g[q] == TcpSynAck(true, true);
    }
  }

  lemma {:induction false} EarlierStays(name: bool, h: seq<Packet>, p: Packet)
    ensures forall q :: 0 <= q < |h| ==> EndsAt(name, h + [p], q) == EndsAt(name, h, q) && HearsAt(name, h + [p], q) == HearsAt(name, h, q)
  {
    hide Known, Requested;
    forall q | 0 <= q < |h|
      ensures EndsAt(name, h + [p], q) == EndsAt(name, h, q) && HearsAt(name, h + [p], q) == HearsAt(name, h, q)
    {
      assert (h + [p])[..q] == h[..q] && (h + [p])[q] == h[q];
    }
  }

  lemma {:induction false} FromMore(name: bool, h: seq<Packet>, p: Packet, from: nat)
    requires from <= |h|
    ensures EndsFrom(name, h + [p], from) == (EndsFrom(name, h, from) || EndsAt(name, h + [p], |h|))
    ensures HearsFrom(name, h + [p], from) == (HearsFrom(name, h, from) || HearsAt(name, h + [p], |h|))
  {
    hide EndsAt, HearsAt;
    EarlierStays(name, h, p);
    var g := h + [p];
    if EndsFrom(name, h, from) {
      var q :| from <= q < |h| && EndsAt(name, h, q);
      assert EndsAt(name, g, q);
    }
    if HearsFrom(name, h, from) {
      var q :| from <= q < |h| && HearsAt(name, h, q);
      assert HearsAt(name, g, q);
    }
  }

  // ----- the fetch follows the run

  /** A fetch that is not over, after the packets h: what its fields say. */
  predicate Live(f: Fetch, log: FetchLog, name: bool, h: seq<Packet>, heard: nat, syns: nat) {
    && !f.done && f.dnsDone == Known(name, h) && f.getSent == Requested(name, h)
    && log.lastPayload == heard && log.syns == syns
  }

  lemma {:induction false} PacketTells(f: Fetch, log: FetchLog, tick: nat, name: bool, h: seq<Packet>, heard: nat, syns: nat, p: Packet)
    requires FetchTimely(f, log, tick, 1) && Live(f, log, name, h, heard, syns)
    ensures AfterPacket(f, p, tick).done == EndsAt(name, h + [p], |h|)
    ensures !AfterPacket(f, p, tick).done ==>
      Live(AfterPacket(f, p, tick), LogPacket(f, log, p), name, h + [p], if HearsAt(name, h + [p], |h|) then log.drives else heard, syns)
    ensures LogPacket(f, log, p).syns == log.syns
  {
    hide Known, Requested, Add32;
    assert (h + [p])[..|h|] == h && (h + [p])[|h|] == p;
    KnownMore(name, h, p);
    RequestedMore(name, h, p);
    assert Requested(name, h) ==> Known(name, h) by { RequestedKnown(name, h); }
  }

  lemma {:induction false} RequestedKnown(name: bool, h: seq<Packet>)
    ensures Requested(name, h) ==> Known(name, h)
  {
  }

  lemma {:induction false} PacketsTell(f: Fetch, log: FetchLog, tick: nat, name: bool, h: seq<Packet>, heard: nat, syns: nat, ps: seq<Packet>)
    requires FetchTimely(f, log, tick, 1) && Live(f, log, name, h, heard, syns)
    ensures var g, l := AfterPackets(f, ps, tick), LogPackets(f, log, ps, tick);
            && FetchTimely(g, l, tick, 1) && l.since == log.since && l.drives == log.drives && l.syns == log.syns
            && g.done == EndsFrom(name, h + ps, |h|)
            && (!g.done ==> Live(g, l, name, h + ps, if HearsFrom(name, h + ps, |h|) then log.drives else heard, syns))
    decreases |ps|
  {
    hide EndsAt, HearsAt, FetchTimely, AfterPacket, LogPacket, Known, Requested;
    if ps == [] {
      assert h + ps == h;
    } else {
      var init, p := ps[..|ps| - 1], ps[|ps| - 1];
      PacketsTell(f, log, tick, name, h, heard, syns, init);
      var g, l := AfterPackets(f, init, tick), LogPackets(f, log, init, tick);
      assert h + ps == (h + init) + [p];
      FromMore(name, h + init, p, |h|);
      PacketKeepsTime(g, l, tick, p);
      LogPacketKeeps(g, l, p);
      if !g.done {
        PacketTells(g, l, tick, name, h + init, if HearsFrom(name, h + init, |h|) then log.drives else heard, syns, p);
      }
    }
  }

  lemma {:induction false} LogPacketKeeps(f: Fetch, log: FetchLog, p: Packet)
    ensures var l := LogPacket(f, log, p); l.since == log.since && l.drives == log.drives && l.syns == log.syns
  {
  }

  lemma {:induction false} TimersTell(f: Fetch, log: FetchLog, tick: nat, name: bool, run: seq<Drive>, since: nat, n: nat)
    requires 0 < n <= |run| && FetchTimely(f, log, tick, 1) && log.since == since && log.drives == n
    requires Live(f, log, name, Packets(run, n), LastHeard(name, run, n), Syns(name, run, since, n - 1))
    ensures var fits := run[n - 1].frameFits;
            var g, l := AfterTimers(f, tick, fits), LogTimers(f, log, tick, fits);
            && g.done == GivesUp(name, run, since, n) && l.syns <= Syns(name, run, since, n)
            && (!g.done ==> Live(g, l, name, Packets(run, n), LastHeard(name, run, n), Syns(name, run, since, n)))
  {
    hide Known, Requested, Packets, LastHeard, Add32, Sub32;
    if f.dnsDone {
      FetchElapsed(f, log, tick);
    }
    RequestedKnown(name, Packets(run, n));
  }

  /** After n drives: over if and only if the run says so, and otherwise in the state that the run says. */
  predicate Tells(f: Fetch, log: FetchLog, name: bool, run: seq<Drive>, since: nat, n: nat)
    requires n <= |run|
  {
    && log.since == since && log.drives == n && log.syns <= Syns(name, run, since, n)
    && f.done == Ended(name, run, since, n)
    && (!f.done ==> Live(f, log, name, Packets(run, n), LastHeard(name, run, n), Syns(name, run, since, n)))
  }

  lemma {:induction false} NothingEnded(name: bool, run: seq<Drive>, since: nat)
    ensures !Ended(name, run, since, 0) && !Requested(name, []) && Known(name, []) == !name
  {
  }

  /** What another drive adds to the reasons for the end. */
  lemma {:induction false} EndedMore(name: bool, run: seq<Drive>, since: nat, n: nat)
    requires 0 < n <= |run|
    ensures Ended(name, run, since, n)
         == (Ended(name, run, since, n - 1) || EndsFrom(name, Packets(run, n), |Packets(run, n - 1)|) || GivesUp(name, run, since, n))
  {
    hide GivesUp, EndsAt;
    EndsSplit(name, Packets(run, n - 1), run[n - 1].packets);
    if Ended(name, run, since, n - 1) && !EndsFrom(name, Packets(run, n - 1), 0) {
      var i :| 0 < i <= n - 1 && GivesUp(name, run, since, i);
      assert GivesUp(name, run, since, i);
    }
  }

  lemma {:induction false} EndsSplit(name: bool, h: seq<Packet>, ps: seq<Packet>)
    ensures EndsFrom(name, h + ps, 0) == (EndsFrom(name, h, 0) || EndsFrom(name, h + ps, |h|))
    decreases |ps|
  {
    hide EndsAt, HearsFrom;
    if ps == [] {
      assert h + ps == h;
    } else {
      var init, p := ps[..|ps| - 1], ps[|ps| - 1];
      assert h + ps == (h + init) + [p];
      EndsSplit(name, h, init);
      FromMore(name, h + init, p, 0);
      FromMore(name, h + init, p, |h|);
    }
  }

  lemma {:induction false} PacketsKeepDone(f: Fetch, log: FetchLog, ps: seq<Packet>, tick: nat)
    requires FetchTimely(f, log, tick, 1) && f.done
    ensures var g, l := AfterPackets(f, ps, tick), LogPackets(f, log, ps, tick);
            FetchTimely(g, l, tick, 1) && g.done && l == log
    decreases |ps|
  {
    hide FetchTimely, AfterPacket;
    if ps != [] {
      var init, p := ps[..|ps| - 1], ps[|ps| - 1];
      PacketsKeepDone(f, log, init, tick);
      PacketKeepsTime(AfterPackets(f, init, tick), LogPackets(f, log, init, tick), tick, p);
      DoneIsNotArmed(AfterPackets(f, init, tick), LogPackets(f, log, init, tick), tick);
    }
  }

  lemma {:induction false} DoneIsNotArmed(f: Fetch, log: FetchLog, tick: nat)
    requires FetchTimely(f, log, tick, 1) && f.done
    ensures !f.armed
  {
  }

  /** One drive more. */
  lemma {:induction false} DriveTells(f: Fetch, log: FetchLog, tick: nat, name: bool, run: seq<Drive>, since: nat, n: nat)
    requires n < |run| && FetchTimely(f, log, tick, 0) && Tells(f, log, name, run, since, n)
    ensures Tells(AfterDrive(f, run[n], Inc32(tick)), LogDrive(f, log, run[n], Inc32(tick)), name, run, since, n + 1)
  {
    hide FetchTimely, Ended, GivesUp, EndsFrom, HearsFrom, Live, AfterTimers, LogTimers;
    var now, started := Inc32(tick), log.(drives := log.drives + 1);
    var d, h := run[n], Packets(run, n);
    TickOn(f, log, tick);
    EndedMore(name, run, since, n + 1);
    if f.done {
      PacketsKeepDone(f, started, d.packets, now);
      DoneStays(AfterPackets(f, d.packets, now), LogPackets(f, started, d.packets, now), now, d.frameFits);
    } else {
      LiveLater(f, log, name, h, LastHeard(name, run, n), Syns(name, run, since, n));
      PacketsTell(f, started, now, name, h, LastHeard(name, run, n), Syns(name, run, since, n), d.packets);
      var g, l := AfterPackets(f, d.packets, now), LogPackets(f, started, d.packets, now);
      if g.done {
        DoneStays(g, l, now, d.frameFits);
      } else {
        TimersTell(g, l, now, name, run, since, n + 1);
        LogTimersKeep(g, l, now, d.frameFits);
      }
    }
  }

  lemma {:induction false} LiveLater(f: Fetch, log: FetchLog, name: bool, h: seq<Packet>, heard: nat, syns: nat)
    requires Live(f, log, name, h, heard, syns)
    ensures Live(f, log.(drives := log.drives + 1), name, h, heard, syns) && !f.done && log.syns == syns
  {
  }

  lemma {:induction false} DoneStays(f: Fetch, log: FetchLog, tick: nat, frameFits: bool)
    requires FetchTimely(f, log, tick, 1) && f.done
    ensures AfterTimers(f, tick, frameFits).done && LogTimers(f, log, tick, frameFits) == log
  {
  }

  lemma {:induction false} FirstTells(f: Fetch, log: FetchLog, name: bool, run: seq<Drive>, since: nat)
    requires !f.done && f.dnsDone == !name && !f.getSent && log == FetchLog(since, 0, 0, 0)
    ensures Tells(f, log, name, run, since, 0)
  {
    NothingEnded(name, run, since);
  }

  lemma {:induction false} EndTells(f: Fetch, log: FetchLog, tick: nat, name: bool, run: seq<Drive>, since: nat)
    requires FetchTimely(f, log, tick, 0) && Tells(f, log, name, run, since, |run|)
    ensures f.done == Ended(name, run, since, |run|) && log.syns <= 12 && log.syns <= Syns(name, run, since, |run|)
    ensures !f.done ==> log.syns == Syns(name, run, since, |run|)
  {
    hide Ended;
  }

  lemma {:induction false} OneDrive(d: Drive, since: nat)
    ensures Ended(false, [d], since, 1) == EndsFrom(false, d.packets, 0)
    ensures Syns(false, [d], since, 1) == if d.frameFits then 1 else 0
  {
    hide EndsAt, Requested;
    assert Packets([d], 1) == d.packets;
  }

  // ----- what follows from it

  /** In time: over after 16,001 drives, unless something was heard within the last 12,000. */
  lemma {:induction false} EndedInTime(name: bool, run: seq<Drive>, since: nat)
    requires |run| > 16_000 && |run| - LastHeard(name, run, |run|) > 12_000
    ensures Ended(name, run, since, |run|)
  {
    hide Known, Requested, Packets, Syns, LastHeard;
    assert GivesUp(name, run, since, |run|);
  }

  /** A SYN frame is sent as soon as the card takes one for a known address. */
  lemma {:induction false} SynIsTried(name: bool, run: seq<Drive>, since: nat, n: nat)
    requires n <= |run|
    ensures Syns(name, run, since, n) > 0 <==> exists i :: 0 < i <= n && CanSend(name, run, i)
  {
    hide CanSend, Requested, Packets;
    if n > 0 {
      SynIsTried(name, run, since, n - 1);
    }
  }
}
