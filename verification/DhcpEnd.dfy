/** How a DHCP exchange ends (kernel/src/net.rs:404-505 and 656-697), said of a run of drives alone: of the messages that
    came, and of the drives they came in. */
module DhcpEnd {
  import opened Bytes
  import opened Arithmetic
  import opened FetchTimers
  import opened DhcpReply
  import opened DhcpTimers

  // ----- what a run tells

  /** The exchange: its transaction number and the address of its card. */
  datatype Exchange = Exchange(xid: nat, mac: bytes)

  /** Packet q of h is an offer of this exchange. */
  predicate OfferAt(x: Exchange, h: seq<Packet>, q: nat)
    requires q < |h|
  {
    h[q].DhcpMessage? && IsOffer(h[q].bootp, x.xid, x.mac)
  }

  predicate Offered(x: Exchange, h: seq<Packet>) {
    exists q :: 0 <= q < |h| && OfferAt(x, h, q)
  }

  /** Packet q of h is an acknowledgement behind an offer. */
  predicate AckAt(x: Exchange, h: seq<Packet>, q: nat)
    requires q < |h|
  {
    Offered(x, h[..q]) && h[q].DhcpMessage? && IsAck(h[q].bootp, x.xid, x.mac)
  }

  predicate Acked(x: Exchange, h: seq<Packet>) {
    exists q :: 0 <= q < |h| && AckAt(x, h, q)
  }

  /** The message m is the first acknowledgement. */
  predicate FirstAck(x: Exchange, h: seq<Packet>, m: bytes) {
    exists q :: 0 <= q < |h| && AckAt(x, h, q) && h[q] == DhcpMessage(m) && forall k :: 0 <= k < q ==> !AckAt(x, h, k)
  }

  /** The drive, among the first n, that brought the first offer; 0 if none did. */
  function OfferDrive(x: Exchange, run: seq<Drive>, n: nat): (k: nat)
    requires n <= |run|
    ensures k <= n
  {
    if n == 0 then 0
    else if Offered(x, Packets(run, n - 1)) then OfferDrive(x, run, n - 1)
    else if Offered(x, Packets(run, n)) then n else 0
  }

  /** Drive n runs out of patience: without an acknowledgement 12,000 drives after the offer, or without an offer 12,000
      drives after the first. */
  predicate DhcpGivesUp(x: Exchange, run: seq<Drive>, n: nat)
    requires n <= |run|
  {
    && !Acked(x, Packets(run, n))
    && if Offered(x, Packets(run, n)) then n - OfferDrive(x, run, n) > 12_000 else n - 1 > 12_000
  }

  predicate DhcpGaveUp(x: Exchange, run: seq<Drive>, n: nat)
    requires n <= |run|
  {
    exists i :: 0 < i <= n && DhcpGivesUp(x, run, i)
  }

  /** An exchange never waits for more than 24,002 drives. */
  lemma {:induction false} DhcpSettles(x: Exchange, run: seq<Drive>)
    requires |run| > 24_002
    ensures DhcpGaveUp(x, run, |run|) || Acked(x, Packets(run, |run|))
  {
    hide Offered, Acked, Packets;
    var n := |run|;
    var o := OfferDrive(x, run, n);
    OfferDriveIs(x, run, n);
    if !Acked(x, Packets(run, n)) {
      if !Offered(x, Packets(run, n)) || n - o > 12_000 {
        assert DhcpGivesUp(x, run, n);
      } else {
        AckedLater(x, run, o - 1, n);
        assert DhcpGivesUp(x, run, o - 1);
      }
    }
  }

  lemma {:induction false} OfferDriveIs(x: Exchange, run: seq<Drive>, n: nat)
    requires n <= |run|
    ensures var o := OfferDrive(x, run, n);
            if Offered(x, Packets(run, n)) then 0 < o && Offered(x, Packets(run, o)) && !Offered(x, Packets(run, o - 1)) else o == 0
  {
    hide Offered;
    if n == 0 {
      NothingOffered(x);
    } else {
      OfferDriveIs(x, run, n - 1);
      OfferedMore(x, Packets(run, n - 1), run[n - 1].packets);
    }
  }

  lemma {:induction false} NothingOffered(x: Exchange)
    ensures !Offered(x, [])
  {
  }

  lemma {:induction false} OfferedMore(x: Exchange, h: seq<Packet>, ps: seq<Packet>)
    ensures Offered(x, h) ==> Offered(x, h + ps)
  {
    if Offered(x, h) {
      var q :| 0 <= q < |h| && OfferAt(x, h, q);
      assert OfferAt(x, h + ps, q);
    }
  }

  lemma {:induction false} AckedMore(x: Exchange, h: seq<Packet>, ps: seq<Packet>)
    ensures Acked(x, h) ==> Acked(x, h + ps)
  {
    hide Offered;
    if Acked(x, h) {
      var q :| 0 <= q < |h| && AckAt(x, h, q);
      assert (h + ps)[..q] == h[..q];
      assert AckAt(x, h + ps, q);
    }
  }

  lemma {:induction false} AckedLater(x: Exchange, run: seq<Drive>, i: nat, n: nat)
    requires i <= n <= |run|
    ensures Acked(x, Packets(run, i)) ==> Acked(x, Packets(run, n))
    decreases n
  {
    hide Acked;
    if i < n {
      AckedLater(x, run, i, n - 1);
      AckedMore(x, Packets(run, n - 1), run[n - 1].packets);
    }
  }

  // ----- one more packet

  lemma {:induction false} OfferedNow(x: Exchange, h: seq<Packet>, p: Packet)
    ensures Offered(x, h + [p]) == (Offered(x, h) || (p.DhcpMessage? && IsOffer(p.bootp, x.xid, x.mac)))
  {
    hide IsOffer;
    var g := h + [p];
    OfferedMore(x, h, [p]);
    assert g[|h|] == p && forall q :: 0 <= q < |h| ==> g[q] == h[q];
    if p.DhcpMessage? && IsOffer(p.bootp, x.xid, x.mac) {
      assert OfferAt(x, g, |h|);
    }
    if Offered(x, g) {
      var q :| 0 <= q < |g| && OfferAt(x, g, q);
      assert q < |h| ==> OfferAt(x, h, q);
    }
  }

  lemma {:induction false} EarlierAcks(x: Exchange, h: seq<Packet>, p: Packet)
    ensures forall q :: 0 <= q < |h| ==> AckAt(x, h + [p], q) == AckAt(x, h, q)
    ensures AckAt(x, h + [p], |h|) == (Offered(x, h) && p.DhcpMessage? && IsAck(p.bootp, x.xid, x.mac))
  {
    hide Offered, IsAck;
    var g := h + [p];
    assert g[..|h|] == h && g[|h|] == p;
    forall q | 0 <= q < |h| ensures AckAt(x, g, q) == AckAt(x, h, q) {
      assert g[..q] == h[..q] && g[q] == h[q];
    }
  }

  lemma {:induction false} AckedNow(x: Exchange, h: seq<Packet>, p: Packet)
    ensures Acked(x, h + [p]) == (Acked(x, h) || (Offered(x, h) && p.DhcpMessage? && IsAck(p.bootp, x.xid, x.mac)))
    ensures forall m :: FirstAck(x, h, m) ==> FirstAck(x, h + [p], m)
    ensures !Acked(x, h) && Acked(x, h + [p]) ==> p.DhcpMessage? && FirstAck(x, h + [p], p.bootp)
  {
    hide Offered, IsAck, AckAt;
    var g := h + [p];
    EarlierAcks(x, h, p);
    assert g[|h|] == p && forall q :: 0 <= q < |h| ==> g[q] == h[q];
    if Acked(x, h) {
      var q :| 0 <= q < |h| && AckAt(x, h, q);
      assert AckAt(x, g, q);
    }
    forall m | FirstAck(x, h, m) ensures FirstAck(x, g, m) {
      var q :| 0 <= q < |h| && AckAt(x, h, q) && h[q] == DhcpMessage(m) && forall k :: 0 <= k < q ==> !AckAt(x, h, k);
      assert AckAt(x, g, q) && g[q] == DhcpMessage(m);
    }
    if !Acked(x, h) && Acked(x, g) {
      assert AckAt(x, g, |h|);
      AckIsMessage(x, g, |h|);
    }
  }

  lemma {:induction false} AckIsMessage(x: Exchange, h: seq<Packet>, q: nat)
    requires q < |h| && AckAt(x, h, q)
    ensures h[q].DhcpMessage?
  {
  }

  // ----- the client follows the run

  /** A client that has not given up, after the packets h: `o` is the drive of the first offer, `start` the clock before it. */
  predicate Follows(d: DhcpClient, log: DhcpLog, x: Exchange, h: seq<Packet>, since: nat, o: nat, start: nat) {
    && d.xid == x.xid
    && if Acked(x, h) then d.phase == Bound && FirstAck(x, h, log.ack)
       else if Offered(x, h) then d.phase == WaitAck && d.phaseStart == since + o
       else d.phase == WaitOffer && d.phaseStart == start
  }

  lemma {:induction false} DhcpPacketTells(d: DhcpClient, log: DhcpLog, x: Exchange, h: seq<Packet>, since: nat, o: nat, start: nat, n: nat, p: Packet)
    requires Follows(d, log, x, h, since, o, start)
    ensures Follows(AfterDhcpPacket(d, x.mac, p, since + n), LogDhcpPacket(d, x.mac, log, p), x, h + [p], since, if Offered(x, h) then o else n, start)
  {
    hide Offered, Acked, FirstAck, IsOffer, IsAck, OptionsOf;
    OfferedNow(x, h, p);
    AckedNow(x, h, p);
  }

  lemma {:induction false} DhcpPacketsTell(d: DhcpClient, log: DhcpLog, x: Exchange, h: seq<Packet>, since: nat, o: nat, start: nat, n: nat, ps: seq<Packet>)
    requires Follows(d, log, x, h, since, o, start)
    ensures Follows(AfterDhcpPackets(d, x.mac, ps, since + n), LogDhcpPackets(d, x.mac, log, ps, since + n), x, h + ps, since,
                    if Offered(x, h) then o else n, start)
    decreases |ps|
  {
    hide Follows, Offered, AfterDhcpPacket, LogDhcpPacket;
    if ps == [] {
      assert h + ps == h;
      NotYet(d, log, x, h, since, o, n, start);
    } else {
      var init, p := ps[..|ps| - 1], ps[|ps| - 1];
      DhcpPacketsTell(d, log, x, h, since, o, start, n, init);
      OfferedMore(x, h, init);
      assert h + ps == (h + init) + [p];
      DhcpPacketTells(AfterDhcpPackets(d, x.mac, init, since + n), LogDhcpPackets(d, x.mac, log, init, since + n), x, h + init, since,
                      if Offered(x, h) then o else n, start, n, p);
    }
  }

  /** Before an offer, its drive does not matter; behind it, later drives do not. */
  lemma {:induction false} NotYet(d: DhcpClient, log: DhcpLog, x: Exchange, h: seq<Packet>, since: nat, o: nat, n: nat, start: nat)
    requires Follows(d, log, x, h, since, o, start)
    ensures Follows(d, log, x, h, since, if Offered(x, h) then o else n, start)
  {
    hide Offered, Acked, FirstAck;
    AckNeedsOffer(x, h);
  }

  lemma {:induction false} AckNeedsOffer(x: Exchange, h: seq<Packet>)
    ensures Acked(x, h) ==> Offered(x, h)
  {
    if Acked(x, h) {
      var q :| 0 <= q < |h| && AckAt(x, h, q);
      OfferedMore(x, h[..q], h[q..]);
      assert h[..q] + h[q..] == h;
    }
  }

  /** After n drives. */
  predicate DhcpTells(d: DhcpClient, log: DhcpLog, x: Exchange, run: seq<Drive>, since: nat, n: nat)
    requires n <= |run|
  {
    if DhcpGaveUp(x, run, n) then d.phase == Idle
    else Follows(d, log, x, Packets(run, n), since, OfferDrive(x, run, n), if n == 0 then 0 else since + 1)
  }

  lemma {:induction false} IdleStays(d: DhcpClient, mac: bytes, ps: seq<Packet>, tick: nat)
    requires d.phase == Idle
    ensures AfterDhcpPackets(d, mac, ps, tick) == d && AfterDhcpTick(d, tick) == d
    decreases |ps|
  {
    if ps != [] {
      IdleStays(d, mac, ps[..|ps| - 1], tick);
    }
  }

  /** The timeout check of drive n. */
  lemma {:induction false} DhcpTickTells(d: DhcpClient, log: DhcpLog, x: Exchange, run: seq<Drive>, since: nat, n: nat)
    requires 0 < n <= |run| && since + n < U32
    requires Follows(d, log, x, Packets(run, n), since, OfferDrive(x, run, n), if n == 1 then 0 else since + 1)
    ensures var e := AfterDhcpTick(d, since + n);
            if DhcpGivesUp(x, run, n) then e.phase == Idle
            else Follows(e, log, x, Packets(run, n), since, OfferDrive(x, run, n), since + 1)
  {
    hide Offered, Acked, FirstAck, Packets, OfferDrive;
    OfferDriveIs(x, run, n);
  }

  lemma {:induction false} GaveUpMore(x: Exchange, run: seq<Drive>, n: nat)
    requires 0 < n <= |run|
    ensures DhcpGaveUp(x, run, n) == (DhcpGaveUp(x, run, n - 1) || DhcpGivesUp(x, run, n))
  {
    hide DhcpGivesUp;
  }

  /** One drive more. */
  lemma {:induction false} DhcpDriveTells(d: DhcpClient, log: DhcpLog, x: Exchange, run: seq<Drive>, since: nat, n: nat)
    requires n < |run| && since + n + 1 < U32 && DhcpTells(d, log, x, run, since, n)
    ensures var ps, tick := run[n].packets, since + n + 1;
            DhcpTells(AfterDhcpTick(AfterDhcpPackets(d, x.mac, ps, tick), tick), LogDhcpPackets(d, x.mac, log, ps, tick), x, run, since, n + 1)
  {
    hide Offered, DhcpGaveUp, DhcpGivesUp, Follows, AfterDhcpPackets, LogDhcpPackets, AfterDhcpTick;
    var ps, tick := run[n].packets, since + n + 1;
    GaveUpMore(x, run, n + 1);
    if DhcpGaveUp(x, run, n) {
      IdleStays(d, x.mac, ps, tick);
    } else {
      var h, start := Packets(run, n), if n == 0 then 0 else since + 1;
      var e, l := AfterDhcpPackets(d, x.mac, ps, tick), LogDhcpPackets(d, x.mac, log, ps, tick);
      assert since + (n + 1) == tick;
      DhcpPacketsTell(d, log, x, h, since, OfferDrive(x, run, n), start, n + 1, ps);
      var o := if Offered(x, h) then OfferDrive(x, run, n) else n + 1;
      assert Packets(run, n + 1) == h + ps;
      AnyOfferDrive(e, l, x, run, since, n + 1, o, start);
      DhcpTickTells(e, l, x, run, since, n + 1);
    }
  }

  lemma {:induction false} AnyOfferDrive(d: DhcpClient, log: DhcpLog, x: Exchange, run: seq<Drive>, since: nat, n: nat, o: nat, start: nat)
    requires 0 < n <= |run| && Follows(d, log, x, Packets(run, n), since, o, start)
    requires o == if Offered(x, Packets(run, n - 1)) then OfferDrive(x, run, n - 1) else n
    ensures Follows(d, log, x, Packets(run, n), since, OfferDrive(x, run, n), start)
  {
    hide Offered, Acked, FirstAck, Packets;
    AckNeedsOffer(x, Packets(run, n));
  }

  lemma {:induction false} FirstDhcpTells(d: DhcpClient, log: DhcpLog, x: Exchange, run: seq<Drive>, since: nat)
    requires d.phase == WaitOffer && d.phaseStart == 0 && d.xid == x.xid
    ensures DhcpTells(d, log, x, run, since, 0)
  {
  }

  lemma {:induction false} DhcpEndTells(config: IpConfig, d: DhcpClient, addrs: Addrs, log: DhcpLog, x: Exchange, run: seq<Drive>, since: nat)
    requires config.Dhcp? && DhcpOk(config, x.mac, d, addrs, log) && DhcpTells(d, log, x, run, since, |run|)
    ensures var h := Packets(run, |run|);
            if DhcpGaveUp(x, run, |run|) then d.phase == Idle && addrs == SLIRP
            else if Acked(x, h) then d.phase == Bound && FirstAck(x, h, log.ack)
                                     && addrs == Addrs(Yours(log.ack), GatewayFrom(log.ack), DnsFrom(log.ack))
            else Waiting(d) && addrs == ZERO
  {
    hide Offered, Acked, FirstAck, DhcpGaveUp, IsOffer, IsAck, OptionsOf;
  }
}
