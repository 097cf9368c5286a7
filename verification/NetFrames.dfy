/** The IPv4 frames the network stack sends (kernel/src/net.rs:2065-2238 and 2287-2430), and what a
    receiver checks in them (RFC 791 section 3.1, RFC 9293 section 3.1, RFC 768). */
module NetFrames {
  import opened Bytes
  import opened InternetChecksum

  const VIRTIO_NET_HDR := 12
  const TCP: byte := 6
  const UDP: byte := 17

  /** Where a frame goes from and to, on both layers. */
  datatype Route = Route(srcMac: bytes, dstMac: bytes, src: bytes, dst: bytes) {
    predicate Valid() {
      |srcMac| == 6 && |dstMac| == 6 && |src| == 4 && |dst| == 4
    }
  }

  // ----- what the builders write

  function Ethernet(r: Route): bytes {
    Zeros(VIRTIO_NET_HDR) + r.dstMac + r.srcMac + BE(0x0800, 2)
  }

  /** The IP header while its checksum is zero. */
  function IpBlank(r: Route, ipLen: nat, ident: nat, proto: byte): bytes {
    [0x45, 0] + BE(ipLen, 2) + BE(ident, 2) + BE(0, 2) + [64, proto] + BE(0, 2) + r.src + r.dst
  }

  function PseudoSum(src: bytes, dst: bytes, proto: byte, len: nat): nat {
    WordSum(src) + WordSum(dst) + proto + len % 0x1_0000
  }

  /** Fills in the checksum field at an even offset. */
  function Checksummed(blank: bytes, at: nat, sum: nat): (s: bytes)
    requires at + 2 <= |blank|
    ensures |s| == |blank|
  {
    WithWord(blank, at, Sum16(blank, sum))
  }

  function IpHeader(r: Route, ipLen: nat, ident: nat, proto: byte): (s: bytes)
    requires r.Valid()
    ensures |s| == 20
  {
    Checksummed(IpBlank(r, ipLen, ident, proto), 10, 0)
  }

  /** The fields of a TCP segment that the builders choose. */
  datatype Tcp = Tcp(sport: nat, dport: nat, seqNo: nat, ack: nat, flags: byte, window: nat, payload: bytes)

  function TcpBlank(t: Tcp): bytes {
    BE(t.sport, 2) + BE(t.dport, 2) + BE(t.seqNo, 4) + BE(t.ack, 4) + [0x50, t.flags] + BE(t.window, 2)
    + BE(0, 2) + BE(0, 2) + t.payload
  }

  function UdpBlank(sport: nat, dport: nat, payload: bytes): bytes {
    BE(sport, 2) + BE(dport, 2) + BE(8 + |payload|, 2) + BE(0, 2) + payload
  }

  /** A segment with its checksum, behind its IP and Ethernet headers. */
  function Frame(r: Route, ident: nat, proto: byte, blank: bytes, at: nat): bytes
    requires r.Valid() && at + 2 <= |blank|
  {
    Ethernet(r) + IpHeader(r, 20 + |blank|, ident, proto) + Checksummed(blank, at, PseudoSum(r.src, r.dst, proto, |blank|))
  }

  // ----- what a receiver checks

  /** The checks of a receiver that knows nothing of the builders: version, lengths, both checksums, the
      latter with the pseudo-header (RFC 9293, section 3.1): addresses, protocol and length as found in the frame. */
  predicate Accepted(frame: bytes) {
    && |frame| >= VIRTIO_NET_HDR + 34
    && var packet := frame[VIRTIO_NET_HDR + 14..];
    && var segment := packet[20..];
    && packet[0] == 0x45
    && FromBE(packet[2..4]) == |packet|
    && Sum16(packet[..20], 0) == 0
    && Sum16(packet[12..20] + [0, packet[9]] + BE(|segment|, 2) + segment, 0) == 0
    && (packet[9] == UDP ==> |segment| >= 8 && FromBE(segment[4..6]) == |segment|)
  }

  lemma {:induction false} BlankIsItself(blank: bytes, at: nat)
    requires at + 2 <= |blank| && blank[at..at + 2] == BE(0, 2)
    ensures WithWord(blank, at, 0) == blank
  {
  }

  lemma {:induction false} ChecksummedResums(blank: bytes, at: nat, sum: nat)
    requires at + 2 <= |blank| && at % 2 == 0 && blank[at..at + 2] == BE(0, 2)
    ensures Sum16(Checksummed(blank, at, sum), sum) == 0
  {
    BlankIsItself(blank, at);
    Resums(blank, at, sum);
  }

  /** What a receiver reads in the IP header. */
  lemma {:induction false} IpFields(r: Route, ipLen: nat, ident: nat, proto: byte)
    requires r.Valid() && ipLen < 0x1_0000
    ensures var h := IpHeader(r, ipLen, ident, proto);
            && h[0] == 0x45 && FromBE(h[2..4]) == ipLen && h[9] == proto && h[12..16] == r.src && h[16..20] == r.dst
            && Sum16(h, 0) == 0
  {
    hide BE, Sum16;
    var b := IpBlank(r, ipLen, ident, proto);
    var h := IpHeader(r, ipLen, ident, proto);
    assert b[10..12] == BE(0, 2) && b[2..4] == BE(ipLen, 2);
    ChecksummedResums(b, 10, 0);
    assert h[2..4] == b[2..4];
    assert h[12..16] == b[12..16] && h[16..20] == b[16..20];
    Pow256Values();
    FromBEofBE(ipLen, 2);
  }

  /** The sum over the pseudo-header that the builders start from is that of its bytes. */
  lemma {:induction false} PseudoHeader(src: bytes, dst: bytes, proto: byte, segment: bytes)
    requires |src| == 4 && |dst| == 4 && |segment| < 0x1_0000
    ensures Sum16(src + dst + [0, proto] + BE(|segment|, 2) + segment, 0) == Sum16(segment, PseudoSum(src, dst, proto, |segment|))
  {
    hide WordSum, BE, Fold;
    WordSumConcat(src, dst);
    WordSumConcat(src + dst, [0, proto]);
    WordSumConcat(src + dst + [0, proto], BE(|segment|, 2));
    WordSumConcat(src + dst + [0, proto] + BE(|segment|, 2), segment);
    OneWord(0, proto);
    WordSumOfWord(|segment|);
  }

  lemma {:induction false} FrameAccepted(r: Route, ident: nat, proto: byte, blank: bytes, at: nat)
    requires r.Valid() && at + 2 <= |blank| && at % 2 == 0 && blank[at..at + 2] == BE(0, 2) && 20 + |blank| < 0x1_0000
    requires proto == UDP ==> at == 6 && |blank| >= 8 && blank[4..6] == BE(|blank|, 2)
    ensures Accepted(Frame(r, ident, proto, blank, at))
  {
    hide BE, Sum16, IpHeader, Ethernet, Checksummed, PseudoSum;
    var ip := IpHeader(r, 20 + |blank|, ident, proto);
    var segment := Checksummed(blank, at, PseudoSum(r.src, r.dst, proto, |blank|));
    var frame := Frame(r, ident, proto, blank, at);
    EthernetLength(r);
    IpFields(r, 20 + |blank|, ident, proto);
    ChecksummedResums(blank, at, PseudoSum(r.src, r.dst, proto, |blank|));
    var packet := frame[VIRTIO_NET_HDR + 14..];
    assert packet == ip + segment;
    assert packet[..20] == ip && packet[20..] == segment;
    assert packet[2..4] == ip[2..4] && packet[12..16] == ip[12..16] && packet[16..20] == ip[16..20];
    assert packet[12..20] == r.src + r.dst;
    PseudoHeader(r.src, r.dst, proto, segment);
    if proto == UDP {
      KeepsLength(blank, PseudoSum(r.src, r.dst, proto, |blank|));
      Pow256Values();
      FromBEofBE(|blank|, 2);
    }
  }

  lemma {:induction false} EthernetLength(r: Route)
    requires r.Valid()
    ensures |Ethernet(r)| == VIRTIO_NET_HDR + 14
  {
  }

  lemma {:induction false} KeepsLength(blank: bytes, sum: nat)
    requires |blank| >= 8
    ensures Checksummed(blank, 6, sum)[4..6] == blank[4..6]
  {
  }

  /** What a receiver finds in front of the segment: the virtio header, both hardware addresses, the IP type; and in the
      IP header no service type, the identification, no fragment, 64 hops, protocol and both addresses. */
  lemma {:induction false} FrameFields(r: Route, ident: nat, proto: byte, blank: bytes, at: nat)
    requires r.Valid() && at + 2 <= |blank| && ident < 0x1_0000
    ensures var f := Frame(r, ident, proto, blank, at);
            && |f| == 46 + |blank| && f[..12] == Zeros(12) && f[12..18] == r.dstMac && f[18..24] == r.srcMac && FromBE(f[24..26]) == 0x0800
            && f[26] == 0x45 && f[27] == 0 && FromBE(f[30..32]) == ident && FromBE(f[32..34]) == 0 && f[34] == 64 && f[35] == proto
            && f[38..42] == r.src && f[42..46] == r.dst
  {
    hide BE, FromBE, Zeros, IpHeader, Ethernet, Checksummed, PseudoSum;
    var e, h := Ethernet(r), IpHeader(r, 20 + |blank|, ident, proto);
    var f := Frame(r, ident, proto, blank, at);
    EthernetLength(r);
    EthernetSlices(r);
    IpSlices(r, 20 + |blank|, ident, proto);
    assert f[..26] == e && f[26..46] == h;
    assert f[..12] == e[..12] && f[12..18] == e[12..18] && f[18..24] == e[18..24] && f[24..26] == e[24..26];
    assert f[30..32] == h[4..6] && f[32..34] == h[6..8] && f[38..42] == h[12..16] && f[42..46] == h[16..20];
    assert f[26] == h[0] && f[27] == h[1] && f[34] == h[8] && f[35] == h[9];
    Pow256Values();
    FromBEofBE(0x0800, 2);
    FromBEofBE(ident, 2);
    FromBEofBE(0, 2);
  }

  lemma {:induction false} EthernetSlices(r: Route)
    requires r.Valid()
    ensures var e := Ethernet(r);
            e[..12] == Zeros(12) && e[12..18] == r.dstMac && e[18..24] == r.srcMac && e[24..26] == BE(0x0800, 2)
  {
    hide BE;
  }

  lemma {:induction false} IpSlices(r: Route, ipLen: nat, ident: nat, proto: byte)
    requires r.Valid()
    ensures var h := IpHeader(r, ipLen, ident, proto);
            && h[0] == 0x45 && h[1] == 0 && h[4..6] == BE(ident, 2) && h[6..8] == BE(0, 2)
            && h[8] == 64 && h[9] == proto && h[12..16] == r.src && h[16..20] == r.dst
  {
    hide BE, Sum16;
    var b, h := IpBlank(r, ipLen, ident, proto), IpHeader(r, ipLen, ident, proto);
    assert b[..10] == [0x45, 0] + BE(ipLen, 2) + BE(ident, 2) + BE(0, 2) + [64, proto];
    assert h[..10] == b[..10] && h[12..] == b[12..];
    assert h[4..6] == b[..10][4..6] && h[6..8] == b[..10][6..8];
    assert h[12..16] == b[12..16] && h[16..20] == b[16..20];
  }

  /** Every TCP frame passes the receiver's checks. */
  lemma {:induction false} TcpAccepted(r: Route, ident: nat, t: Tcp)
    requires r.Valid() && 40 + |t.payload| < 0x1_0000
    ensures Accepted(Frame(r, ident, TCP, TcpBlank(t), 16))
  {
    hide BE, Accepted, Frame;
    assert TcpBlank(t)[16..18] == BE(0, 2);
    FrameAccepted(r, ident, TCP, TcpBlank(t), 16);
  }

  /** Every UDP frame does, and its length field counts the bytes written. */
  lemma {:induction false} UdpAccepted(r: Route, ident: nat, sport: nat, dport: nat, payload: bytes)
    requires r.Valid() && 28 + |payload| < 0x1_0000
    ensures Accepted(Frame(r, ident, UDP, UdpBlank(sport, dport, payload), 6))
  {
    hide BE, Accepted, Frame;
    var blank := UdpBlank(sport, dport, payload);
    assert blank[6..8] == BE(0, 2) && blank[4..6] == BE(|blank|, 2);
    FrameAccepted(r, ident, UDP, blank, 6);
  }

  // ----- the builders

  /** Appends to what has been written so far. */
  method Emit(out: array<byte>, pos: nat, s: bytes) returns (next: nat)
    requires pos + |s| <= out.Length
    modifies out
    ensures next == pos + |s| && out[..next] == old(out[..pos]) + s
  {
    CopyIn(out, pos, s);
    next := pos + |s|;
    assert out[..next] == out[..][..next];
  }

  /** Fills in a checksum field; the bytes before the block stay. */
  method PutChecksum(out: array<byte>, block: nat, end: nat, at: nat, sum: nat)
    requires block + at + 2 <= end <= out.Length && end - block <= 0xffff && sum < 0x6_0000
    modifies out
    ensures out[..end] == old(out[..block]) + Checksummed(old(out[block..end]), at, sum)
  {
    hide Sum16, BE, WordSum, Splice, WithWord;
    var c := Sum16Of(out[block..end], sum);
    WordInBlock(out[..], block, end, at, c);
    assert out[..][block..end] == out[block..end] && out[..][..block] == out[..block];
    CopyIn(out, block + at, BE(c, 2));
    assert out[..end] == out[..][..end];
  }

  lemma {:induction false} WordInBlock(was: bytes, block: nat, end: nat, at: nat, v: nat)
    requires block + at + 2 <= end <= |was|
    ensures Splice(was, block + at, BE(v, 2))[..end] == was[..block] + WithWord(was[block..end], at, v)
  {
    hide BE;
  }

  lemma {:induction false} PseudoBound(src: bytes, dst: bytes, proto: byte, len: nat)
    requires |src| == 4 && |dst| == 4
    ensures PseudoSum(src, dst, proto, len) < 0x6_0000
  {
  }

  method EmitEthernet(out: array<byte>, r: Route) returns (pos: nat)
    requires r.Valid() && VIRTIO_NET_HDR + 14 <= out.Length
    modifies out
    ensures pos == VIRTIO_NET_HDR + 14 && out[..pos] == Ethernet(r)
  {
    pos := Emit(out, 0, Zeros(VIRTIO_NET_HDR));
    pos := Emit(out, pos, r.dstMac);
    pos := Emit(out, pos, r.srcMac);
    pos := Emit(out, pos, BE(0x0800, 2));
  }

  method EmitIpBlank(out: array<byte>, ip: nat, r: Route, ipLen: nat, ident: nat, proto: byte) returns (pos: nat)
    requires r.Valid() && ip + 20 <= out.Length
    modifies out
    ensures pos == ip + 20 && out[..pos] == old(out[..ip]) + IpBlank(r, ipLen, ident, proto)
  {
    hide BE;
    pos := Emit(out, ip, [0x45, 0]);
    pos := Emit(out, pos, BE(ipLen, 2));
    pos := Emit(out, pos, BE(ident, 2));
    pos := Emit(out, pos, BE(0, 2));
    pos := Emit(out, pos, [64, proto]);
    pos := Emit(out, pos, BE(0, 2));
    pos := Emit(out, pos, r.src);
    pos := Emit(out, pos, r.dst);
  }

  method EmitIp(out: array<byte>, ip: nat, r: Route, ipLen: nat, ident: nat, proto: byte) returns (pos: nat)
    requires r.Valid() && ip + 20 <= out.Length
    modifies out
    ensures pos == ip + 20 && out[..pos] == old(out[..ip]) + IpHeader(r, ipLen, ident, proto)
  {
    hide IpBlank, Checksummed;
    ghost var before := out[..ip];
    pos := EmitIpBlank(out, ip, r, ipLen, ident, proto);
    assert out[ip..pos] == out[..pos][ip..] && out[..ip] == out[..pos][..ip];
    PutChecksum(out, ip, pos, 10, 0);
  }

  /** What all three TCP builders write; they differ in flags, window and payload. */
  method BuildTcp(r: Route, ident: nat, t: Tcp, out: array<byte>) returns (total: nat)
    requires r.Valid() && out.Length <= 0xffff
    modifies out
    ensures var frame := Frame(r, ident, TCP, TcpBlank(t), 16);
            if |frame| <= out.Length then total == |frame| && out[..total] == frame
            else total == 0 && out[..] == old(out[..])
  {
    hide BE, Checksummed, Ethernet, IpHeader, PseudoSum;
    EthernetLength(r);
    if VIRTIO_NET_HDR + 14 + 20 + 20 + |t.payload| > out.Length {
      return 0;
    }
    var ip := EmitEthernet(out, r);
    var tcp := EmitIp(out, ip, r, 20 + 20 + |t.payload|, ident, TCP);
    ghost var before := out[..tcp];
    total := EmitTcp(out, tcp, t);
    PseudoBound(r.src, r.dst, TCP, |TcpBlank(t)|);
    assert out[tcp..total] == out[..total][tcp..] && out[..tcp] == out[..total][..tcp];
    PutChecksum(out, tcp, total, 16, PseudoSum(r.src, r.dst, TCP, total - tcp));
  }

  /** The fixed fields of a segment, up to the flags, and behind them. */
  function TcpHead(t: Tcp): bytes {
    BE(t.sport, 2) + BE(t.dport, 2) + BE(t.seqNo, 4) + BE(t.ack, 4) + [0x50, t.flags]
  }

  function TcpRest(t: Tcp): bytes {
    BE(t.window, 2) + BE(0, 2) + BE(0, 2) + t.payload
  }

  lemma {:induction false} TcpParts(t: Tcp)
    ensures TcpBlank(t) == TcpHead(t) + TcpRest(t) && |TcpHead(t)| == 14
  {
    hide BE;
    var h := BE(t.sport, 2) + BE(t.dport, 2) + BE(t.seqNo, 4) + BE(t.ack, 4) + [0x50, t.flags];
    assert h + BE(t.window, 2) + BE(0, 2) + BE(0, 2) + t.payload == h + (BE(t.window, 2) + BE(0, 2) + BE(0, 2) + t.payload);
  }

  method EmitTcpHead(out: array<byte>, tcp: nat, t: Tcp) returns (pos: nat)
    requires tcp + |TcpHead(t)| <= out.Length
    modifies out
    ensures pos == tcp + |TcpHead(t)| && out[..pos] == old(out[..tcp]) + TcpHead(t)
  {
    hide BE;
    pos := Emit(out, tcp, BE(t.sport, 2));
    pos := Emit(out, pos, BE(t.dport, 2));
    pos := Emit(out, pos, BE(t.seqNo, 4));
    pos := Emit(out, pos, BE(t.ack, 4));
    pos := Emit(out, pos, [0x50, t.flags]);
  }

  method EmitTcp(out: array<byte>, tcp: nat, t: Tcp) returns (pos: nat)
    requires tcp + |TcpBlank(t)| <= out.Length
    modifies out
    ensures pos == tcp + |TcpBlank(t)| && out[..pos] == old(out[..tcp]) + TcpBlank(t)
  {
    TcpParts(t);
    hide BE, TcpHead, TcpBlank;
    pos := EmitTcpHead(out, tcp, t);
    pos := Emit(out, pos, BE(t.window, 2));
    pos := Emit(out, pos, BE(0, 2));
    pos := Emit(out, pos, BE(0, 2));
    pos := Emit(out, pos, t.payload);
  }

  const LOCAL_PORT := 49152

  /** The buffer holds the whole frame, or was too short and is as before. */
  ghost predicate Built(frame: bytes, total: nat, was: bytes, now: bytes) {
    if |frame| <= |was| then total == |frame| && total <= |now| && now[..total] == frame
    else total == 0 && now == was
  }

  method BuildTcpSyn(r: Route, seqNo: nat, remotePort: nat, out: array<byte>) returns (total: nat)
    requires r.Valid() && out.Length <= 0xffff
    modifies out
    ensures Built(Frame(r, 0, TCP, TcpBlank(Tcp(LOCAL_PORT, remotePort, seqNo, 0, 0x02, 0x2000, [])), 16), total, old(out[..]), out[..])
    ensures total > 0 ==> total <= out.Length && Accepted(out[..total])
  {
    hide Accepted, Frame;
    var t := Tcp(LOCAL_PORT, remotePort, seqNo, 0, 0x02, 0x2000, []);
    TcpAccepted(r, 0, t);
    total := BuildTcp(r, 0, t, out);
    assert out[..][..total] == out[..total];
  }

  method BuildTcpAckPsh(r: Route, sport: nat, dport: nat, seqNo: nat, ack: nat, payload: bytes, ident: nat, out: array<byte>) returns (total: nat)
    requires r.Valid() && out.Length <= 0xffff
    modifies out
    ensures Built(Frame(r, ident, TCP, TcpBlank(Tcp(sport, dport, seqNo, ack, 0x18, 0x8000, payload)), 16), total, old(out[..]), out[..])
    ensures total > 0 ==> total <= out.Length && Accepted(out[..total])
  {
    hide Accepted, Frame;
    var t := Tcp(sport, dport, seqNo, ack, 0x18, 0x8000, payload);
    total := BuildTcp(r, ident, t, out);
    if total > 0 {
      TcpLength(r, ident, t);
      TcpAccepted(r, ident, t);
    }
    assert out[..][..total] == out[..total];
  }

  method BuildTcpAckOnly(r: Route, sport: nat, dport: nat, seqNo: nat, ack: nat, ident: nat, out: array<byte>) returns (total: nat)
    requires r.Valid() && out.Length <= 0xffff
    modifies out
    ensures Built(Frame(r, ident, TCP, TcpBlank(Tcp(sport, dport, seqNo, ack, 0x10, 0x8000, [])), 16), total, old(out[..]), out[..])
    ensures total > 0 ==> total <= out.Length && Accepted(out[..total])
  {
    hide Accepted, Frame;
    var t := Tcp(sport, dport, seqNo, ack, 0x10, 0x8000, []);
    TcpAccepted(r, ident, t);
    total := BuildTcp(r, ident, t, out);
    assert out[..][..total] == out[..total];
  }

  /** What the DNS and DHCP builders write around their payload. */
  method BuildUdp(r: Route, sport: nat, dport: nat, payload: bytes, ident: nat, out: array<byte>) returns (total: nat)
    requires r.Valid() && out.Length <= 0xffff
    modifies out
    ensures Built(Frame(r, ident, UDP, UdpBlank(sport, dport, payload), 6), total, old(out[..]), out[..])
    ensures total > 0 ==> total <= out.Length && Accepted(out[..total])
  {
    hide BE, Checksummed, Ethernet, IpHeader, PseudoSum, Accepted;
    EthernetLength(r);
    if VIRTIO_NET_HDR + 14 + 20 + 8 + |payload| > out.Length {
      return 0;
    }
    var ip := EmitEthernet(out, r);
    var udp := EmitIp(out, ip, r, 20 + 8 + |payload|, ident, UDP);
    total := EmitUdp(out, udp, sport, dport, payload);
    PseudoBound(r.src, r.dst, UDP, 8 + |payload|);
    assert out[udp..total] == out[..total][udp..] && out[..udp] == out[..total][..udp];
    PutChecksum(out, udp, total, 6, PseudoSum(r.src, r.dst, UDP, total - udp));
    UdpAccepted(r, ident, sport, dport, payload);
    assert out[..][..total] == out[..total];
  }

  method EmitUdp(out: array<byte>, udp: nat, sport: nat, dport: nat, payload: bytes) returns (pos: nat)
    requires udp + 8 + |payload| <= out.Length
    modifies out
    ensures pos == udp + 8 + |payload| && out[..pos] == old(out[..udp]) + UdpBlank(sport, dport, payload)
  {
    hide BE;
    pos := Emit(out, udp, BE(sport, 2));
    pos := Emit(out, pos, BE(dport, 2));
    pos := Emit(out, pos, BE(8 + |payload|, 2));
    pos := Emit(out, pos, BE(0, 2));
    pos := Emit(out, pos, payload);
  }

  lemma {:induction false} TcpLength(r: Route, ident: nat, t: Tcp)
    requires r.Valid()
    ensures |Frame(r, ident, TCP, TcpBlank(t), 16)| == 66 + |t.payload|
  {
    EthernetLength(r);
  }

  /** Each field of a TCP segment lies where the receiver looks for it. */
  lemma {:induction false} TcpSlices(t: Tcp, sum: nat)
    ensures var s := Checksummed(TcpBlank(t), 16, sum);
            && s[0..2] == BE(t.sport, 2) && s[2..4] == BE(t.dport, 2)
            && s[4..8] == BE(t.seqNo, 4) && s[8..12] == BE(t.ack, 4)
            && s[12] == 0x50 && s[13] == t.flags && s[14..16] == BE(t.window, 2) && s[20..] == t.payload
  {
    hide BE, Sum16;
    var b := TcpBlank(t);
    var s := Checksummed(b, 16, sum);
    assert s[..16] == b[..16] && s[18..] == b[18..];
    assert b[0..2] == BE(t.sport, 2) && b[2..4] == BE(t.dport, 2) && b[14..16] == BE(t.window, 2);
    assert b[4..8] == BE(t.seqNo, 4) && b[8..12] == BE(t.ack, 4);
    assert s[0..2] == s[..16][0..2] && s[2..4] == s[..16][2..4] && s[4..8] == s[..16][4..8];
    assert s[8..12] == s[..16][8..12] && s[14..16] == s[..16][14..16] && s[20..] == s[18..][2..];
  }

  /** The fields a receiver finds in a TCP segment are the ones the builder was given. */
  lemma {:induction false} TcpFields(t: Tcp, sum: nat)
    requires t.sport < 0x1_0000 && t.dport < 0x1_0000 && t.seqNo < U32 && t.ack < U32 && t.window < 0x1_0000
    ensures var s := Checksummed(TcpBlank(t), 16, sum);
            && FromBE(s[0..2]) == t.sport && FromBE(s[2..4]) == t.dport
            && FromBE(s[4..8]) == t.seqNo && FromBE(s[8..12]) == t.ack
            && s[12] == 0x50 && s[13] == t.flags && FromBE(s[14..16]) == t.window && s[20..] == t.payload
  {
    hide BE, FromBE, Checksummed;
    TcpSlices(t, sum);
    Pow256Values();
    FromBEofBE(t.sport, 2);
    FromBEofBE(t.dport, 2);
    FromBEofBE(t.seqNo, 4);
    FromBEofBE(t.ack, 4);
    FromBEofBE(t.window, 2);
  }

  lemma {:induction false} UdpSlices(sport: nat, dport: nat, payload: bytes, sum: nat)
    ensures var s := Checksummed(UdpBlank(sport, dport, payload), 6, sum);
            s[0..2] == BE(sport, 2) && s[2..4] == BE(dport, 2) && s[4..6] == BE(8 + |payload|, 2) && s[8..] == payload
  {
    hide BE, Sum16;
    var b := UdpBlank(sport, dport, payload);
    var s := Checksummed(b, 6, sum);
    assert s[..6] == b[..6] && s[8..] == b[8..];
    assert b[0..2] == BE(sport, 2) && b[2..4] == BE(dport, 2) && b[4..6] == BE(8 + |payload|, 2) && b[8..] == payload;
    assert s[0..2] == s[..6][0..2] && s[2..4] == s[..6][2..4] && s[4..6] == s[..6][4..6];
  }

  /** The same for a UDP datagram. */
  lemma {:induction false} UdpFields(sport: nat, dport: nat, payload: bytes, sum: nat)
    requires sport < 0x1_0000 && dport < 0x1_0000 && 8 + |payload| < 0x1_0000
    ensures var s := Checksummed(UdpBlank(sport, dport, payload), 6, sum);
            FromBE(s[0..2]) == sport && FromBE(s[2..4]) == dport && FromBE(s[4..6]) == 8 + |payload| && s[8..] == payload
  {
    hide BE, FromBE, Checksummed;
    UdpSlices(sport, dport, payload, sum);
    Pow256Values();
    FromBEofBE(sport, 2);
    FromBEofBE(dport, 2);
    FromBEofBE(8 + |payload|, 2);
  }

  // ----- a checksum of zero

  /** Where a receiver finds the UDP checksum. */
  lemma {:induction false} UdpChecksumField(r: Route, ident: nat, blank: bytes)
    requires r.Valid() && |blank| >= 8
    ensures var f := Frame(r, ident, UDP, blank, 6);
            |f| >= 54 && FromBE(f[52..54]) == Sum16(blank, PseudoSum(r.src, r.dst, UDP, |blank|))
  {
    hide BE, Sum16, IpHeader, Ethernet, PseudoSum;
    EthernetLength(r);
    var c := Sum16(blank, PseudoSum(r.src, r.dst, UDP, |blank|));
    var f, segment := Frame(r, ident, UDP, blank, 6), WithWord(blank, 6, c);
    assert f[52..54] == segment[6..8] == BE(c, 2);
    Pow256Values();
    FromBEofBE(c, 2);
  }

  /** RFC 768 reserves a checksum of zero for "none" and has a computed zero sent as 0xffff. The builders send
      zero exactly if the one's-complement sum of pseudo-header and datagram is a multiple of 0xffff. */
  lemma {:induction false} UdpChecksumZero(r: Route, ident: nat, sport: nat, dport: nat, payload: bytes)
    requires r.Valid()
    ensures var f := Frame(r, ident, UDP, UdpBlank(sport, dport, payload), 6);
            && |f| >= 54
            && (FromBE(f[52..54]) == 0
                <==> (PseudoSum(r.src, r.dst, UDP, 8 + |payload|) + WordSum(UdpBlank(sport, dport, payload))) % 0xffff == 0)
  {
    hide BE, WordSum, Fold, Frame;
    var blank := UdpBlank(sport, dport, payload);
    var sum := PseudoSum(r.src, r.dst, UDP, |blank|);
    UdpChecksumField(r, ident, blank);
    FoldMeaning(sum + WordSum(blank));
    assert sum >= 17;
  }

  /** It happens: whatever the rest of a request says, one transaction number in its first two bytes leads to a
      checksum of zero. */
  lemma {:induction false} ZeroChecksumOccurs(r: Route, ident: nat, sport: nat, dport: nat, rest: bytes) returns (id: nat)
    requires r.Valid()
    ensures id < 0x1_0000
    ensures var f := Frame(r, ident, UDP, UdpBlank(sport, dport, BE(id, 2) + rest), 6);
            |f| >= 54 && FromBE(f[52..54]) == 0
  {
    hide BE, WordSum, Frame, PseudoSum;
    var zero := UdpBlank(sport, dport, BE(0, 2) + rest);
    assert zero == WithWord(zero, 8, 0);
    var sum := PseudoSum(r.src, r.dst, UDP, |zero|) + WordSum(zero);
    id := 0xffff - sum % 0xffff;
    assert UdpBlank(sport, dport, BE(id, 2) + rest) == WithWord(zero, 8, id);
    WordSumWith(zero, 8, id);
    assert (sum + id) % 0xffff == 0;
    UdpChecksumZero(r, ident, sport, dport, BE(id, 2) + rest);
  }

  /** Two bytes from port 68 of 0.0.0.0 to port 67 of 255.255.255.255. */
  lemma {:induction false} ZeroChecksumExample(mac: bytes)
    requires |mac| == 6
    ensures var f := Frame(Route(mac, mac, [0, 0, 0, 0], [255, 255, 255, 255]), 0, UDP, UdpBlank(68, 67, [0xff, 0x53]), 6);
            |f| >= 54 && FromBE(f[52..54]) == 0
  {
    hide BE, Frame, WordSum;
    var r := Route(mac, mac, [0, 0, 0, 0], [255, 255, 255, 255]);
    var payload: bytes := [0xff, 0x53];
    TwoWords(0, 0, 0, 0);
    TwoWords(255, 255, 255, 255);
    OneWord(0xff, 0x53);
    UdpBlankSum(68, 67, payload);
    UdpChecksumZero(r, 0, 68, 67, payload);
  }

  lemma {:induction false} OneWord(a: byte, b: byte)
    ensures WordSum([a, b]) == a * 256 + b
  {
    assert [a, b][2..] == [];
    assert WordSum([a, b]) == a * 256 + b + WordSum([a, b][2..]);
  }

  lemma {:induction false} TwoWords(a: byte, b: byte, c: byte, d: byte)
    ensures WordSum([a, b, c, d]) == a * 256 + b + c * 256 + d
  {
    assert [a, b, c, d][2..] == [c, d];
    OneWord(c, d);
  }

  lemma {:induction false} UdpBlankSum(sport: nat, dport: nat, payload: bytes)
    requires sport < 0x1_0000 && dport < 0x1_0000 && 8 + |payload| < 0x1_0000
    ensures WordSum(UdpBlank(sport, dport, payload)) == sport + dport + 8 + |payload| + WordSum(payload)
  {
    hide BE, WordSum;
    var a, b, c, d := BE(sport, 2), BE(dport, 2), BE(8 + |payload|, 2), BE(0, 2);
    WordSumOfWord(sport);
    WordSumOfWord(dport);
    WordSumOfWord(8 + |payload|);
    WordSumOfWord(0);
    WordSumConcat(a, b);
    WordSumConcat(a + b, c);
    WordSumConcat(a + b + c, d);
    WordSumConcat(a + b + c + d, payload);
  }
}
