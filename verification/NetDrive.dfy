/** The network stack's clock: one call of `drive` per frame (kernel/src/net.rs:304-350, 404-505, 536-618
    and 631-796), with packets as events. Counters wrap at 32 bits. */
module NetDrive {
  import opened Bytes
  import opened Arithmetic
  import opened FetchTimers
  import opened FetchEnd
  import opened DhcpReply
  import opened DhcpTimers
  import opened DhcpEnd

  lemma {:induction false} OnlyWaiting(d: DhcpClient, mac: bytes, log: DhcpLog, p: Packet, tick: nat)
    requires !Waiting(d)
    ensures AfterDhcpPacket(d, mac, p, tick) == d && LogDhcpPacket(d, mac, log, p) == log
  {
  }

  class Stack {
    const mac: bytes
    const config: IpConfig
    var tick: nat
    var addrs: Addrs
    var gwKnown: bool
    var dhcp: DhcpClient
    var fetch: Fetch
    ghost var dhcpLog: DhcpLog
    ghost var fetchLog: FetchLog

    ghost predicate Valid()
      reads this
    {
      tick < U32 && DhcpOk(config, mac, dhcp, addrs, dhcpLog)
    }

    /** An address, a gateway that answered, and no DHCP exchange under way. */
    predicate Online()
      reads this
    {
      gwKnown && addrs.our != ZERO_IP && !Waiting(dhcp)
    }

    /** A stack whose settings have just been applied (sync_ip_from_settings); `xid` stands for the mix of
        tick and sequence number. */
    constructor (config: IpConfig, mac: bytes, tick: nat, xid: nat)
      requires tick < U32
      ensures Valid() && this.config == config && this.mac == mac && this.tick == tick
      ensures DhcpTimely(dhcp, dhcpLog, tick, 0) && dhcpLog.since == tick
      ensures Waiting(dhcp) == config.Dhcp? && dhcp.xid == if xid == 0 then 0x0102_0304 else xid
      ensures addrs == match config case Slirp => SLIRP case Static(our, gw, dns) => Addrs(our, gw, dns) case Dhcp => ZERO
      ensures !gwKnown && !fetch.armed && !fetch.done
    {
      this.mac, this.config, this.tick, gwKnown := mac, config, tick, false;
      addrs := match config case Slirp => SLIRP case Static(our, gw, dns) => Addrs(our, gw, dns) case Dhcp => ZERO;
      dhcp := DhcpClient(if config.Dhcp? then WaitOffer else Idle, if xid == 0 then 0x0102_0304 else xid, ZERO_IP, ZERO_IP, 0);
      fetch := Fetch(false, false, false, false, 0, false, 0, false, 0, tick);
      dhcpLog, fetchLog := DhcpLog([], [], tick), FetchLog(tick, 0, 0, 0);
    }

    /** handle_dhcp_reply */
    method HandleDhcpReply(m: bytes)
      modifies this`dhcp, this`addrs, this`gwKnown, this`dhcpLog
      ensures dhcp == AfterReply(old(dhcp), mac, m, tick)
      ensures addrs == ReplyAddrs(old(dhcp), mac, old(addrs), m) && dhcpLog == ReplyLog(old(dhcp), mac, old(dhcpLog), m)
      ensures gwKnown == (old(gwKnown) && !TakesAck(old(dhcp), mac, m))
    {
      hide OptionsOf, FromBE;
      if |m| < 240 {
        return;
      }
      if m[0] != 2 {
        return;
      }
      if FromBE(m[4..8]) != dhcp.xid {
        return;
      }
      if m[28..34] != mac {
        return;
      }
      var yi := m[16..20];
      var o := ParseOptions(m);
      if dhcp.phase == WaitOffer && o.msg == DHCP_OFFER {
        if o.serverId.None? {
          return;
        }
        dhcp := DhcpClient(WaitAck, dhcp.xid, o.serverId.value, yi, tick);
        dhcpLog := dhcpLog.(offer := m);
      } else if dhcp.phase == WaitAck && o.msg == DHCP_ACK {
        var gw := if o.router.Some? then o.router.value else m[20..24];
        if gw == ZERO_IP {
          gw := yi;
        }
        addrs := Addrs(yi, gw, if o.dns.Some? then o.dns.value else gw);
        dhcp := dhcp.(phase := Bound);
        gwKnown := false;
        dhcpLog := dhcpLog.(ack := m);
      }
    }

    /** start_fetch for a plain HTTP address that parses; names need a DNS answer first. */
    method StartFetch(name: bool)
      requires tick < U32
      modifies this`fetch, this`fetchLog
      ensures fetch == Fetch(true, false, name, !name, 0, false, 0, false, tick, tick)
      ensures FetchTimely(fetch, fetchLog, tick, 0) && fetchLog == FetchLog(tick, 0, 0, 0)
    {
      fetch := Fetch(true, false, name, !name, 0, false, 0, false, tick, tick);
      fetchLog := FetchLog(tick, 0, 0, 0);
      Add32Twice(tick, 0, 0);
    }

    /** set_err and finish_fetch: either way the fetch is over. */
    method EndFetch()
      modifies this`fetch
      ensures fetch == Over(old(fetch))
    {
      fetch := fetch.(armed := false, done := true);
    }

    /** handle_rx and the handlers behind it, for a plain HTTP fetch. */
    method HandleRx(p: Packet)
      modifies this`dhcp, this`addrs, this`gwKnown, this`dhcpLog, this`fetch, this`fetchLog
      ensures fetch == AfterPacket(old(fetch), p, tick) && fetchLog == LogPacket(old(fetch), old(fetchLog), p)
      ensures if p.DhcpMessage? && Waiting(old(dhcp)) then
          && dhcp == AfterReply(old(dhcp), mac, p.bootp, tick) && addrs == ReplyAddrs(old(dhcp), mac, old(addrs), p.bootp)
          && dhcpLog == ReplyLog(old(dhcp), mac, old(dhcpLog), p.bootp) && gwKnown == (old(gwKnown) && !TakesAck(old(dhcp), mac, p.bootp))
        else dhcp == old(dhcp) && addrs == old(addrs) && dhcpLog == old(dhcpLog) && gwKnown == (old(gwKnown) || p.ArpReply?)
    {
      match p {
        case ArpReply =>
          gwKnown := true;
        case DhcpMessage(bootp) =>
          if Waiting(dhcp) {
            HandleDhcpReply(bootp);
          }
        case DnsReply(answers) =>
          if fetch.armed && fetch.needsDns && !fetch.dnsDone && answers {
            fetch := fetch.(dnsDone := true, needsDns := false, dnsXmit := 0, synSent := false, synRetries := 0);
          }
        case TcpReset =>
          if fetch.armed && fetch.dnsDone {
            EndFetch();
          }
        case TcpSynAck(requestFits, sent) =>
          if fetch.armed && fetch.dnsDone && !fetch.getSent {
            if !requestFits {
              EndFetch();
            } else if sent {
              fetch := fetch.(getSent := true);
            }
          }
        case TcpPayload(completes, fin) =>
          if fetch.armed && fetch.dnsDone {
            fetch := fetch.(progress := tick);
            fetchLog := fetchLog.(lastPayload := fetchLog.drives);
            if completes || fin {
              EndFetch();
            }
          }
        case TcpFin =>
          if fetch.armed && fetch.dnsDone && fetch.getSent {
            EndFetch();
          }
      }
    }

    /** The DHCP half of drive: the client gives up 12,000 ticks after its phase began. */
    method DriveDhcp()
      modifies this`dhcp, this`addrs, this`gwKnown
      ensures dhcp == AfterDhcpTick(old(dhcp), tick) && addrs == TickAddrs(old(dhcp), old(addrs), tick)
      ensures gwKnown == (old(gwKnown) && !(Waiting(old(dhcp)) && !Waiting(dhcp)))
    {
      if dhcp.phase == WaitOffer || dhcp.phase == WaitAck {
        if dhcp.phaseStart == 0 {
          dhcp := dhcp.(phaseStart := tick);
        }
        if Sub32(tick, dhcp.phaseStart) > DHCP_TICKS {
          addrs := SLIRP;
          dhcp := dhcp.(phase := Idle, phaseStart := 0);
          gwKnown := false;
        }
      }
    }

    /** The fetch half of drive. */
    method DriveFetch(frameFits: bool)
      modifies this`fetch, this`fetchLog
      ensures fetch == AfterTimers(old(fetch), tick, frameFits) && fetchLog == LogTimers(old(fetch), old(fetchLog), tick, frameFits)
    {
      hide Sub32;
      if fetch.armed && fetch.needsDns && !fetch.dnsDone {
        fetch := fetch.(dnsXmit := Inc32(fetch.dnsXmit));
        if fetch.dnsXmit > DNS_LIMIT {
          EndFetch();
        }
        return;
      }
      if fetch.armed && fetch.dnsDone && !fetch.done {
        if fetch.synRetries >= SYN_LIMIT && !fetch.getSent {
          EndFetch();
          return;
        }
        if !fetch.getSent && Sub32(tick, fetch.connectStart) > TCP_CONNECT_TICKS {
          EndFetch();
          return;
        }
        var trySyn := !fetch.synSent || (fetch.synRetries < SYN_LIMIT && tick % 96 == 0 && !fetch.getSent);
        if trySyn && frameFits {
          fetch := fetch.(synSent := true, synRetries := if fetch.synRetries < 255 then fetch.synRetries + 1 else 255);
          fetchLog := fetchLog.(syns := fetchLog.syns + 1);
        }
        if fetch.getSent && Sub32(tick, fetch.progress) > HTTP_PROGRESS_TICKS {
          EndFetch();
          return;
        }
      }
    }

    /** What a run of drives keeps. */
    ghost predicate Steady()
      reads this
    {
      Valid() && DhcpTimely(dhcp, dhcpLog, tick, 0)
    }

    ghost predicate Fetching()
      reads this
    {
      Online() && FetchTimely(fetch, fetchLog, tick, 0)
    }

    /** The loop over the packets of a tick. */
    method ReceiveAll(packets: seq<Packet>, ghost fetching: bool)
      requires Valid() && DhcpTimely(dhcp, dhcpLog, tick, 1)
      requires fetching ==> Online() && FetchTimely(fetch, fetchLog, tick, 1)
      modifies this`dhcp, this`addrs, this`gwKnown, this`dhcpLog, this`fetch, this`fetchLog
      ensures Valid() && DhcpTimely(dhcp, dhcpLog, tick, 1) && dhcpLog.since == old(dhcpLog.since)
      ensures fetching ==> Online() && FetchTimely(fetch, fetchLog, tick, 1)
      ensures !Waiting(old(dhcp)) ==> dhcp == old(dhcp) && addrs == old(addrs)
      ensures fetch == AfterPackets(old(fetch), packets, tick)
      ensures fetchLog == LogPackets(old(fetch), old(fetchLog), packets, tick)
      ensures dhcp == AfterDhcpPackets(old(dhcp), mac, packets, tick)
      ensures dhcpLog == LogDhcpPackets(old(dhcp), mac, old(dhcpLog), packets, tick)
    {
      hide DhcpOk, FetchTimely, DhcpTimely, AfterPacket, LogPacket, TakesOffer, TakesAck;
      for k := 0 to |packets|
        invariant Valid() && DhcpTimely(dhcp, dhcpLog, tick, 1) && dhcpLog.since == old(dhcpLog.since)
        invariant fetching ==> Online() && FetchTimely(fetch, fetchLog, tick, 1)
        invariant !Waiting(old(dhcp)) ==> dhcp == old(dhcp) && addrs == old(addrs)
        invariant fetch == AfterPackets(old(fetch), packets[..k], tick)
        invariant fetchLog == LogPackets(old(fetch), old(fetchLog), packets[..k], tick)
        invariant dhcp == AfterDhcpPackets(old(dhcp), mac, packets[..k], tick)
        invariant dhcpLog == LogDhcpPackets(old(dhcp), mac, old(dhcpLog), packets[..k], tick)
      {
        var p := packets[k];
        assert packets[..k + 1][..k] == packets[..k];
        if fetching {
          PacketKeepsTime(fetch, fetchLog, tick, p);
        }
        if !Waiting(dhcp) {
          OnlyWaiting(dhcp, mac, dhcpLog, p, tick);
        }
        if p.DhcpMessage? {
          ReplyKeepsDhcp(config, mac, dhcp, addrs, dhcpLog, p.bootp, tick);
        }
        HandleRx(p);
      }
      assert packets[..|packets|] == packets;
    }

    /** drive: one tick of the whole stack. */
    method Drive(d: Drive)
      requires Steady() && (Waiting(dhcp) ==> tick + 1 < U32)
      modifies this
      ensures Steady() && tick == Inc32(old(tick)) && dhcpLog.since == old(dhcpLog.since)
      ensures !Waiting(old(dhcp)) ==> dhcp == old(dhcp) && addrs == old(addrs)
      ensures config.Dhcp? ==> dhcp == AfterDhcpTick(AfterDhcpPackets(old(dhcp), mac, d.packets, tick), tick)
      ensures config.Dhcp? ==> dhcpLog == LogDhcpPackets(old(dhcp), mac, old(dhcpLog), d.packets, tick)
      ensures old(Fetching()) ==> Fetching() && fetch == AfterDrive(old(fetch), d, tick) && fetchLog == LogDrive(old(fetch), old(fetchLog), d, tick)
    {
      hide DhcpOk, FetchTimely, DhcpTimely, AfterPackets, LogPackets, AfterTimers, AfterDhcpPackets, LogDhcpPackets, AfterDhcpTick, LogTimers;
      ghost var fetching := Fetching();
      if fetching {
        TickOn(fetch, fetchLog, tick);
      }
      TickOnDhcp(dhcp, dhcpLog, tick);
      tick := if tick + 1 == U32 then 0 else tick + 1;
      fetchLog := fetchLog.(drives := fetchLog.drives + 1);
      ReceiveAll(d.packets, fetching);
      OnlyDhcpWaits(config, mac, dhcp, addrs, dhcpLog);
      if config.Dhcp? {
        ghost var before := dhcp;
        if Waiting(dhcp) {
          TickKeepsDhcp(config, mac, dhcp, addrs, dhcpLog, tick);
        } else {
          SettledStays(dhcp, addrs, tick);
          SettledIsTimely(dhcp, dhcpLog, tick);
        }
        DriveDhcp();
        if dhcp.phase == WaitOffer || dhcp.phase == WaitAck {
          return;
        }
      } else {
        SettledIsTimely(dhcp, dhcpLog, tick);
      }
      if addrs.our == ZERO_IP {
        return;
      }
      if !gwKnown {
        return;
      }
      if fetching {
        TimersKeepTime(fetch, fetchLog, tick, d.frameFits);
      }
      DriveFetch(d.frameFits);
    }

    /** A fetch on a stack that is online, over any run: it is over if and only if the run says so (`Ended`), no matter
        what else arrives, is lost or is refused by the card, and wherever the clock wraps. Until then it sends the SYN
        frames that the run says, and never more than 12. */
    method FetchRun(name: bool, run: seq<Drive>)
      requires Steady() && Online()
      modifies this
      ensures fetch.done == Ended(name, run, old(tick), |run|)
      ensures fetchLog.syns <= Syns(name, run, old(tick), |run|) && fetchLog.syns <= 12
      ensures !fetch.done ==> fetchLog.syns == Syns(name, run, old(tick), |run|)
      ensures Fetching() && Steady()
    {
      hide FetchTimely, DhcpTimely, DhcpOk, Tells, AfterDrive, LogDrive;
      ghost var since := tick;
      StartFetch(name);
      assert Tells(fetch, fetchLog, name, run, since, 0) by { FirstTells(fetch, fetchLog, name, run, since); }
      for k := 0 to |run|
        invariant Steady() && Fetching()
        invariant Tells(fetch, fetchLog, name, run, since, k)
      {
        DriveTells(fetch, fetchLog, tick, name, run, since, k);
        Drive(run[k]);
      }
      EndTells(fetch, fetchLog, tick, name, run, since);
    }

    /** The first drive of a fetch from an address sends a SYN frame if the card takes it, and the fetch goes on waiting
        unless a packet ends it. */
    method FirstDrive(d: Drive)
      requires Steady() && Online()
      modifies this
      ensures fetch.done == EndsFrom(false, d.packets, 0)
      ensures !fetch.done ==> fetchLog.syns == if d.frameFits then 1 else 0
    {
      hide FetchTimely, DhcpTimely, DhcpOk, EndsFrom;
      OneDrive(d, tick);
      FetchRun(false, [d]);
    }

    /** With fixed settings, over any run from the start of an exchange: the client gives up if and only if the run says
        so (`DhcpGaveUp`), and then has the default addresses; otherwise it has the addresses of the first acknowledgement
        behind an offer once there is one, and waits with zero addresses until then. */
    method DhcpRun(run: seq<Drive>)
      requires Steady() && dhcpLog.since == tick && tick + |run| < U32
      modifies this
      ensures Steady()
      ensures !Waiting(old(dhcp)) ==> dhcp == old(dhcp) && addrs == old(addrs)
      ensures Waiting(old(dhcp)) ==>
              var x, h := Exchange(old(dhcp.xid), mac), Packets(run, |run|);
              if DhcpGaveUp(x, run, |run|) then dhcp.phase == Idle && addrs == SLIRP
              else if Acked(x, h) then dhcp.phase == Bound && FirstAck(x, h, dhcpLog.ack)
                                       && addrs == Addrs(Yours(dhcpLog.ack), GatewayFrom(dhcpLog.ack), DnsFrom(dhcpLog.ack))
              else Waiting(dhcp) && addrs == ZERO
    {
      hide DhcpTimely, DhcpOk, DhcpTells, AfterDhcpPackets, LogDhcpPackets, AfterDhcpTick;
      ghost var since, x, waits := tick, Exchange(dhcp.xid, mac), Waiting(dhcp);
      OnlyDhcpWaits(config, mac, dhcp, addrs, dhcpLog);
      if waits {
        StartsWaiting(dhcp, dhcpLog, tick);
        FirstDhcpTells(dhcp, dhcpLog, x, run, since);
      }
      for k := 0 to |run|
        invariant Steady() && tick == since + k
        invariant if waits then DhcpTells(dhcp, dhcpLog, x, run, since, k) else dhcp == old(dhcp) && addrs == old(addrs)
      {
        if waits {
          DhcpDriveTells(dhcp, dhcpLog, x, run, since, k);
        }
        Drive(run[k]);
      }
      if waits {
        DhcpEndTells(config, dhcp, addrs, dhcpLog, x, run, since);
      }
    }
  }
}
