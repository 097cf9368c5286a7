/** The DHCP client as the clock and the replies drive it (kernel/src/net.rs:304-350, 404-505 and 656-697): its state, its
    steps, and what they keep. */
module DhcpTimers {
  import opened Bytes
  import opened Arithmetic
  import opened FetchTimers
  import opened DhcpReply

  const DHCP_TICKS := 12_000

  datatype IpConfig = Slirp | Static(our: bytes, gw: bytes, dns: bytes) | Dhcp

  datatype DhcpPhase = Idle | WaitOffer | WaitAck | Bound

  datatype Addrs = Addrs(our: bytes, gw: bytes, dns: bytes)

  const SLIRP := Addrs([10, 0, 2, 15], [10, 0, 2, 2], [10, 0, 2, 3])
  const ZERO := Addrs(ZERO_IP, ZERO_IP, ZERO_IP)

  /** The DHCP client's fields. */
  datatype DhcpClient = DhcpClient(phase: DhcpPhase, xid: nat, serverId: bytes, offerYi: bytes, phaseStart: nat)

  /** The messages that moved the DHCP client on, and the tick at which it started to wait. */
  datatype DhcpLog = DhcpLog(offer: bytes, ack: bytes, since: nat)

  predicate Waiting(d: DhcpClient) {
    d.phase == WaitOffer || d.phase == WaitAck
  }

  // ----- one step of each kind

  predicate TakesOffer(d: DhcpClient, mac: bytes, m: bytes) {
    d.phase == WaitOffer && IsOffer(m, d.xid, mac)
  }

  predicate TakesAck(d: DhcpClient, mac: bytes, m: bytes) {
    d.phase == WaitAck && IsAck(m, d.xid, mac)
  }

  /** The client after a DHCP message. */
  function AfterReply(d: DhcpClient, mac: bytes, m: bytes, tick: nat): DhcpClient {
    if TakesOffer(d, mac, m) then DhcpClient(WaitAck, d.xid, OptionsOf(m).serverId.value, Yours(m), tick)
    else if TakesAck(d, mac, m) then d.(phase := Bound)
    else d
  }

  /** The client after the timeout check of a tick; giving up makes it idle. */
  function AfterDhcpTick(d: DhcpClient, tick: nat): DhcpClient {
    if !Waiting(d) then d else
    var start := if d.phaseStart == 0 then tick else d.phaseStart;
    if Sub32(tick, start) > DHCP_TICKS then d.(phase := Idle, phaseStart := 0) else d.(phaseStart := start)
  }

  function AfterDhcpPacket(d: DhcpClient, mac: bytes, p: Packet, tick: nat): DhcpClient {
    if p.DhcpMessage? then AfterReply(d, mac, p.bootp, tick) else d
  }

  function LogDhcpPacket(d: DhcpClient, mac: bytes, log: DhcpLog, p: Packet): DhcpLog {
    if p.DhcpMessage? then ReplyLog(d, mac, log, p.bootp) else log
  }

  /** The client after the packets of a tick. */
  function AfterDhcpPackets(d: DhcpClient, mac: bytes, ps: seq<Packet>, tick: nat): DhcpClient {
    if ps == [] then d else AfterDhcpPacket(AfterDhcpPackets(d, mac, ps[..|ps| - 1], tick), mac, ps[|ps| - 1], tick)
  }

  function LogDhcpPackets(d: DhcpClient, mac: bytes, log: DhcpLog, ps: seq<Packet>, tick: nat): DhcpLog {
    if ps == [] then log else
    LogDhcpPacket(AfterDhcpPackets(d, mac, ps[..|ps| - 1], tick), mac, LogDhcpPackets(d, mac, log, ps[..|ps| - 1], tick), ps[|ps| - 1])
  }

  // ----- what every step keeps

  /** What DHCP keeps true in every state: no address before the acknowledgement, and an address only from
      an acknowledgement that followed an offer, both for our transaction and card. */
  predicate DhcpOk(config: IpConfig, mac: bytes, d: DhcpClient, addrs: Addrs, log: DhcpLog) {
    match d.phase
    case Idle => config.Dhcp? ==> addrs == SLIRP
    case WaitOffer => config.Dhcp? && addrs == ZERO
    case WaitAck => config.Dhcp? && addrs == ZERO && IsOffer(log.offer, d.xid, mac) && d.offerYi == Yours(log.offer)
                    && Some(d.serverId) == OptionsOf(log.offer).serverId
    case Bound => config.Dhcp? && IsOffer(log.offer, d.xid, mac) && IsAck(log.ack, d.xid, mac)
                  && addrs == Addrs(Yours(log.ack), GatewayFrom(log.ack), DnsFrom(log.ack))
  }

  /** How long the client may still wait; `slack` is 1 between the tick and the check of the timeout. */
  predicate DhcpTimely(d: DhcpClient, log: DhcpLog, tick: nat, slack: nat) {
    match d.phase
    case WaitOffer =>
      if d.phaseStart == 0 then tick == log.since + slack
      else d.phaseStart == log.since + 1 <= tick <= d.phaseStart + DHCP_TICKS + slack
    case WaitAck =>
      log.since < d.phaseStart <= log.since + DHCP_TICKS + 2 && d.phaseStart <= tick <= d.phaseStart + DHCP_TICKS + slack
    case _ => true
  }

  /** A DHCP message keeps the history and the clock of the client. */
  lemma {:induction false} ReplyKeepsDhcp(config: IpConfig, mac: bytes, d: DhcpClient, addrs: Addrs, log: DhcpLog, m: bytes, tick: nat)
    requires DhcpOk(config, mac, d, addrs, log) && DhcpTimely(d, log, tick, 1)
    ensures var e := AfterReply(d, mac, m, tick);
            && DhcpOk(config, mac, e, ReplyAddrs(d, mac, addrs, m), ReplyLog(d, mac, log, m))
            && DhcpTimely(e, ReplyLog(d, mac, log, m), tick, 1)
  {
    hide OptionsOf, FromBE;
  }

  function ReplyAddrs(d: DhcpClient, mac: bytes, addrs: Addrs, m: bytes): Addrs {
    if TakesAck(d, mac, m) then Addrs(Yours(m), GatewayFrom(m), DnsFrom(m)) else addrs
  }

  function ReplyLog(d: DhcpClient, mac: bytes, log: DhcpLog, m: bytes): DhcpLog {
    if TakesOffer(d, mac, m) then log.(offer := m) else if TakesAck(d, mac, m) then log.(ack := m) else log
  }

  function TickAddrs(d: DhcpClient, addrs: Addrs, tick: nat): Addrs {
    if Waiting(d) && !Waiting(AfterDhcpTick(d, tick)) then SLIRP else addrs
  }

  lemma {:induction false} TickKeepsDhcp(config: IpConfig, mac: bytes, d: DhcpClient, addrs: Addrs, log: DhcpLog, tick: nat)
    requires DhcpOk(config, mac, d, addrs, log) && DhcpTimely(d, log, tick, 1) && 0 < tick < U32
    ensures DhcpOk(config, mac, AfterDhcpTick(d, tick), TickAddrs(d, addrs, tick), log)
    ensures DhcpTimely(AfterDhcpTick(d, tick), log, tick, 0)
  {
    hide OptionsOf, FromBE, IsOffer, IsAck;
  }

  lemma {:induction false} OnlyDhcpWaits(config: IpConfig, mac: bytes, d: DhcpClient, addrs: Addrs, log: DhcpLog)
    requires DhcpOk(config, mac, d, addrs, log)
    ensures Waiting(d) ==> config.Dhcp? && addrs == ZERO
  {
  }

  lemma {:induction false} SettledStays(d: DhcpClient, addrs: Addrs, tick: nat)
    requires !Waiting(d)
    ensures AfterDhcpTick(d, tick) == d && TickAddrs(d, addrs, tick) == addrs
  {
  }

  lemma {:induction false} TickOnDhcp(d: DhcpClient, log: DhcpLog, tick: nat)
    requires DhcpTimely(d, log, tick, 0) && (Waiting(d) ==> tick + 1 < U32)
    ensures DhcpTimely(d, log, Inc32(tick), 1)
  {
  }

  lemma {:induction false} SettledIsTimely(d: DhcpClient, log: DhcpLog, tick: nat)
    requires !Waiting(d)
    ensures DhcpTimely(d, log, tick, 0)
  {
  }

  lemma {:induction false} StartsWaiting(d: DhcpClient, log: DhcpLog, tick: nat)
    requires DhcpTimely(d, log, tick, 0) && Waiting(d) && log.since == tick
    ensures d.phase == WaitOffer && d.phaseStart == 0
  {
  }
}
