/** A plain HTTP fetch as the clock and the packets drive it (kernel/src/net.rs:583-619, 731-794 and 908-1084): its state,
    its steps, and how long it can last. Counters wrap at 32 bits. */
module FetchTimers {
  import opened Arithmetic
  import opened Bytes

  const DNS_LIMIT := 64 * 48
  const SYN_LIMIT := 12
  const TCP_CONNECT_TICKS := 16_000
  const HTTP_PROGRESS_TICKS := 12_000

  /** wrapping_sub */
  function Sub32(a: nat, b: nat): (r: nat)
    ensures r < U32
  {
    (a - b) % U32
  }

  /** The time between two readings of a wrapping clock, less than one round apart. */
  lemma {:induction false} Elapsed(s: nat, n: nat, p: nat)
    requires p <= n < p + U32
    ensures Sub32(Add32(s, n), Add32(s, p)) == n - p
  {
    assert s + n == (s + n) / U32 * U32 + Add32(s, n);
    assert s + p == (s + p) / U32 * U32 + Add32(s, p);
    var q := (s + n) / U32 - (s + p) / U32;
    assert Add32(s, n) - Add32(s, p) == n - p - q * U32;
    assert (n - p - q * U32) % U32 == (n - p) % U32;
  }

  /** A packet, as far as the handlers tell packets apart. What the payload does to the page, and whether
      the card takes a frame, is up to the environment. */
  datatype Packet =
    | ArpReply
    | DhcpMessage(bootp: bytes)
    | DnsReply(answers: bool)
    | TcpReset
    | TcpSynAck(requestFits: bool, sent: bool)
    | TcpPayload(completes: bool, fin: bool)
    | TcpFin

  /** The fetch's fields. */
  datatype Fetch = Fetch(armed: bool, done: bool, needsDns: bool, dnsDone: bool, dnsXmit: nat,
                         synSent: bool, synRetries: nat, getSent: bool, connectStart: nat, progress: nat)

  /** The current fetch: the tick at its start, the number of drives since then, the number of the last
      drive that received a payload (0 if none did), and the number of SYN frames sent. */
  datatype FetchLog = FetchLog(since: nat, drives: nat, lastPayload: nat, syns: nat)

  /** What the environment does around one call of drive. */
  datatype Drive = Drive(packets: seq<Packet>, frameFits: bool)

  /** The packets of the first n drives. */
  function Packets(run: seq<Drive>, n: nat): seq<Packet>
    requires n <= |run|
  {
    if n == 0 then [] else Packets(run, n - 1) + run[n - 1].packets
  }

  // ----- one step of each kind

  function Over(f: Fetch): Fetch {
    f.(armed := false, done := true)
  }

  /** A plain HTTP fetch after a packet. */
  function AfterPacket(f: Fetch, p: Packet, tick: nat): Fetch {
    match p
    case ArpReply => f
    case DhcpMessage(_) => f
    case DnsReply(answers) =>
      if f.armed && f.needsDns && !f.dnsDone && answers
      then f.(dnsDone := true, needsDns := false, dnsXmit := 0, synSent := false, synRetries := 0) else f
    case TcpReset => if f.armed && f.dnsDone then Over(f) else f
    case TcpSynAck(requestFits, sent) =>
      if !(f.armed && f.dnsDone && !f.getSent) then f
      else if !requestFits then Over(f)
      else if sent then f.(getSent := true) else f
    case TcpPayload(completes, fin) =>
      if !(f.armed && f.dnsDone) then f
      else if completes || fin then Over(f.(progress := tick)) else f.(progress := tick)
    case TcpFin => if f.armed && f.dnsDone && f.getSent then Over(f) else f
  }

  function LogPacket(f: Fetch, log: FetchLog, p: Packet): FetchLog {
    if p.TcpPayload? && f.armed && f.dnsDone then log.(lastPayload := log.drives) else log
  }

  /** A connection attempt is due: the first, or a retry every 96 ticks. */
  predicate TriesSyn(f: Fetch, tick: nat) {
    !f.synSent || (f.synRetries < SYN_LIMIT && tick % 96 == 0 && !f.getSent)
  }

  /** The fetch has waited too long for its connection. */
  predicate NoConnect(f: Fetch, tick: nat) {
    !f.getSent && (f.synRetries >= SYN_LIMIT || Sub32(tick, f.connectStart) > TCP_CONNECT_TICKS)
  }

  predicate SendsSyn(f: Fetch, tick: nat, frameFits: bool) {
    f.armed && f.dnsDone && !f.done && !NoConnect(f, tick) && TriesSyn(f, tick) && frameFits
  }

  function Inc32(n: nat): nat {
    if n + 1 == U32 then 0 else n + 1
  }

  /** A plain HTTP fetch after the timers of a tick. */
  function AfterTimers(f: Fetch, tick: nat, frameFits: bool): Fetch {
    if f.armed && f.needsDns && !f.dnsDone then
      var g := f.(dnsXmit := Inc32(f.dnsXmit));
      if g.dnsXmit > DNS_LIMIT then Over(g) else g
    else if !(f.armed && f.dnsDone && !f.done) then f
    else if NoConnect(f, tick) then Over(f)
    else
      var g := if SendsSyn(f, tick, frameFits)
               then f.(synSent := true, synRetries := if f.synRetries < 255 then f.synRetries + 1 else 255) else f;
      if g.getSent && Sub32(tick, g.progress) > HTTP_PROGRESS_TICKS then Over(g) else g
  }

  function LogTimers(f: Fetch, log: FetchLog, tick: nat, frameFits: bool): FetchLog {
    if SendsSyn(f, tick, frameFits) then log.(syns := log.syns + 1) else log
  }

  lemma {:induction false} LogTimersKeep(f: Fetch, log: FetchLog, tick: nat, frameFits: bool)
    ensures var r := LogTimers(f, log, tick, frameFits);
            r.since == log.since && r.drives == log.drives && r.lastPayload == log.lastPayload
  {
    hide SendsSyn;
  }

  // ----- a whole drive

  /** A fetch after the packets of a tick. */
  function AfterPackets(f: Fetch, ps: seq<Packet>, tick: nat): Fetch {
    if ps == [] then f else AfterPacket(AfterPackets(f, ps[..|ps| - 1], tick), ps[|ps| - 1], tick)
  }

  function LogPackets(f: Fetch, log: FetchLog, ps: seq<Packet>, tick: nat): FetchLog {
    if ps == [] then log
    else LogPacket(AfterPackets(f, ps[..|ps| - 1], tick), LogPackets(f, log, ps[..|ps| - 1], tick), ps[|ps| - 1])
  }

  /** A fetch after a drive whose tick is `tick`. */
  function AfterDrive(f: Fetch, d: Drive, tick: nat): Fetch {
    AfterTimers(AfterPackets(f, d.packets, tick), tick, d.frameFits)
  }

  function LogDrive(f: Fetch, log: FetchLog, d: Drive, tick: nat): FetchLog {
    var heard := LogPackets(f, log.(drives := log.drives + 1), d.packets, tick);
    LogTimers(AfterPackets(f, d.packets, tick), heard, tick, d.frameFits)
  }

  // ----- what every step keeps

  /** How old an unfinished fetch can be, and how often it can have tried to connect; `slack` is 1 between
      the tick and the checks of the timeouts. */
  predicate FetchTimely(f: Fetch, log: FetchLog, tick: nat, slack: nat) {
    && tick == Add32(log.since, log.drives) && f.connectStart == Add32(log.since, 0)
    && log.lastPayload <= log.drives && f.progress == Add32(log.since, log.lastPayload)
    && f.armed == !f.done
    && f.synRetries == log.syns <= SYN_LIMIT && f.synSent == (log.syns > 0)
    && (f.armed ==> StageTimely(f, log, slack))
  }

  predicate StageTimely(f: Fetch, log: FetchLog, slack: nat) {
    if !f.dnsDone then f.needsDns && !f.getSent && log.syns == 0 && f.dnsXmit + slack == log.drives <= DNS_LIMIT + slack
    else if !f.getSent then log.drives <= TCP_CONNECT_TICKS + slack
    else log.drives <= TCP_CONNECT_TICKS + slack || log.drives - log.lastPayload <= HTTP_PROGRESS_TICKS + slack
  }

  /** Any packet keeps a fetch in time. */
  lemma {:induction false} PacketKeepsTime(f: Fetch, log: FetchLog, tick: nat, p: Packet)
    requires FetchTimely(f, log, tick, 1)
    ensures FetchTimely(AfterPacket(f, p, tick), LogPacket(f, log, p), tick, 1)
    ensures f.done ==> AfterPacket(f, p, tick).done
  {
    hide Add32;
  }

  /** The timers leave no fetch overdue: what is not ended is in time. */
  lemma {:induction false} TimersKeepTime(f: Fetch, log: FetchLog, tick: nat, frameFits: bool)
    requires FetchTimely(f, log, tick, 1)
    ensures FetchTimely(AfterTimers(f, tick, frameFits), LogTimers(f, log, tick, frameFits), tick, 0)
    ensures f.done ==> AfterTimers(f, tick, frameFits).done
  {
    hide Add32, Sub32;
    if f.armed && f.dnsDone {
      FetchElapsed(f, log, tick);
    }
  }

  /** The two clocks of a fetch, read without wrapping. */
  lemma {:induction false} FetchElapsed(f: Fetch, log: FetchLog, tick: nat)
    requires f.armed && f.dnsDone && FetchTimely(f, log, tick, 1)
    ensures !f.getSent ==> Sub32(tick, f.connectStart) == log.drives
    ensures Sub32(tick, f.progress) == log.drives - log.lastPayload
  {
    hide Add32, Sub32;
    if !f.getSent {
      Elapsed(log.since, log.drives, 0);
    }
    Elapsed(log.since, log.drives, log.lastPayload);
  }

  lemma {:induction false} TickOn(f: Fetch, log: FetchLog, tick: nat)
    requires FetchTimely(f, log, tick, 0)
    ensures FetchTimely(f, log.(drives := log.drives + 1), Inc32(tick), 1)
  {
    Add32Twice(log.since, log.drives, 1);
  }
}
