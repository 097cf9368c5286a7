/** The DNS and DHCP requests (kernel/src/net.rs:2272-2430): the messages inside the UDP frames, and what a
    server reads in them (RFC 1035 section 4.1, RFC 2131 section 2). */
module NetRequests {
  import opened Bytes
  import opened DhcpReply
  import opened DnsCodec
  import opened NetFrames

  // ----- DNS

  const DNS_BUFFER := 512

  /** One question for the host's address. */
  function DnsQuery(host: bytes, id: nat): bytes
    requires LabelsOk(Labels(host))
  {
    BE(id, 2) + BE(0x0100, 2) + BE(1, 2) + Zeros(6) + (Wire(Labels(host)) + [0]) + (BE(1, 2) + BE(1, 2))
  }

  /** A server finds our number, one question, our host's name, and that an Internet address is asked for. */
  lemma {:induction false} QueryReadsBack(host: bytes, id: nat)
    requires Encodable(host, DNS_BUFFER - 12) && id < 0x1_0000
    ensures var q := DnsQuery(host, id);
            && |q| == |host| + 18 && Word(q, 0) == id && Word(q, 2) == 0x0100 && Word(q, 4) == 1 && q[6..12] == Zeros(6)
            && ReadLabels(q, 12) == Some(Labels(host)) && Join(Labels(host)) == host
            && SkipName(q, 12) == Some(|q| - 4) && Word(q, |q| - 4) == TYPE_A && Word(q, |q| - 2) == 1
  {
    hide BE, Wire, Word, ReadLabels, SkipName, LabelsOk, Labels, Join, Zeros;
    var counts := BE(id, 2) + BE(0x0100, 2) + BE(1, 2) + Zeros(6);
    var w, after := Wire(Labels(host)) + [0], BE(1, 2) + BE(1, 2);
    var q := DnsQuery(host, id);
    NameReadsBack(host, DNS_BUFFER - 12, counts, after);
    assert q[0..2] == BE(id, 2) && q[2..4] == BE(0x0100, 2) && q[4..6] == BE(1, 2) && q[6..12] == Zeros(6);
    assert q[|q| - 4..|q| - 2] == BE(1, 2) && q[|q| - 2..] == BE(1, 2);
    WordAt(q, 0, id);
    WordAt(q, 2, 0x0100);
    WordAt(q, 4, 1);
    WordAt(q, |q| - 4, 1);
    WordAt(q, |q| - 2, 1);
  }

  /** build_dns_udp_packet: nothing is written if the name cannot be encoded or the frame does not fit. */
  method BuildDnsUdpPacket(r: Route, sport: nat, dport: nat, host: bytes, id: nat, ident: nat, out: array<byte>) returns (total: nat)
    requires r.Valid() && out.Length <= 0xffff
    modifies out
    ensures Encodable(host, DNS_BUFFER - 12)
            ==> Built(Frame(r, ident, UDP, UdpBlank(sport, dport, DnsQuery(host, id)), 6), total, old(out[..]), out[..])
    ensures !Encodable(host, DNS_BUFFER - 12) ==> total == 0 && out[..] == old(out[..])
    ensures total > 0 ==> total <= out.Length && Accepted(out[..total])
  {
    hide BE, Frame, UdpBlank, Accepted, Wire, Labels;
    var dns := BE(id, 2) + BE(0x0100, 2) + BE(1, 2) + Zeros(6);
    var name := EncodeDnsQname(host, DNS_BUFFER - |dns|);
    if name.None? {
      return 0;
    }
    dns := dns + name.value + (BE(1, 2) + BE(1, 2));
    total := BuildUdp(r, sport, dport, dns, ident, out);
  }

  /** RFC 768's rule matters: for every host there is a transaction number with which the request's checksum is
      sent as zero. */
  lemma {:induction false} QueryWithZeroChecksum(r: Route, ident: nat, sport: nat, dport: nat, host: bytes) returns (id: nat)
    requires r.Valid() && LabelsOk(Labels(host))
    ensures id < 0x1_0000
    ensures var f := Frame(r, ident, UDP, UdpBlank(sport, dport, DnsQuery(host, id)), 6);
            |f| >= 54 && FromBE(f[52..54]) == 0
  {
    hide BE, Frame, FromBE, UdpBlank, Wire, Labels, LabelsOk, Zeros;
    var rest := BE(0x0100, 2) + BE(1, 2) + Zeros(6) + (Wire(Labels(host)) + [0]) + (BE(1, 2) + BE(1, 2));
    id := ZeroChecksumOccurs(r, ident, sport, dport, rest);
    assert DnsQuery(host, id) == BE(id, 2) + rest;
  }

  // ----- DHCP

  const DHCP_BUFFER := 576
  const OPT_REQUESTED_IP: byte := 50

  /** The options in the order in which they are pushed. */
  function RequestFields(msg: byte, serverId: Option<bytes>, requested: Option<bytes>): seq<Field> {
    [Field(0, OPT_MSG_TYPE, [msg])]
    + (if requested.Some? then [Field(0, OPT_REQUESTED_IP, requested.value)] else [])
    + (if serverId.Some? then [Field(0, OPT_SERVER_ID, serverId.value)] else [])
  }

  predicate AddressOk(ip: Option<bytes>) {
    ip.Some? ==> |ip.value| == 4
  }

  function DhcpFixed(xid: nat, mac: bytes): (s: bytes)
    requires |mac| == 6
    ensures |s| == 240
  {
    [1, 1, 6, 0] + BE(xid, 4) + Zeros(2) + BE(0x8000, 2) + Zeros(16) + mac + Zeros(202) + DHCP_MAGIC
  }

  function OptionBytes(tag: byte, value: bytes): bytes
    requires |value| < 256
  {
    [tag, |value|] + value
  }

  function DhcpMessage(xid: nat, mac: bytes, msg: byte, serverId: Option<bytes>, requested: Option<bytes>): (s: bytes)
    requires |mac| == 6 && AddressOk(serverId) && AddressOk(requested)
    ensures |s| <= 256
  {
    DhcpFixed(xid, mac) + OptionBytes(OPT_MSG_TYPE, [msg])
    + (if requested.Some? then OptionBytes(OPT_REQUESTED_IP, requested.value) else [])
    + (if serverId.Some? then OptionBytes(OPT_SERVER_ID, serverId.value) else [])
    + [OPT_END]
  }

  lemma {:induction false} OneField(tag: byte, value: bytes)
    requires Field(0, tag, value).Ok()
    ensures EncodeField(Field(0, tag, value)) == OptionBytes(tag, value)
  {
    assert Zeros(0) + [tag, |value|] == [tag, |value|];
  }

  lemma {:induction false} FieldsStep(f: Field, rest: seq<Field>)
    requires f.Ok() && FieldsOk(rest)
    ensures FieldsOk([f] + rest) && EncodeFields([f] + rest) == EncodeField(f) + EncodeFields(rest)
  {
    assert ([f] + rest)[1..] == rest;
  }

  /** The optional address of an option. */
  function Given(tag: byte, ip: Option<bytes>): seq<Field> {
    if ip.Some? then [Field(0, tag, ip.value)] else []
  }

  function GivenBytes(tag: byte, ip: Option<bytes>): bytes
    requires AddressOk(ip)
  {
    if ip.Some? then OptionBytes(tag, ip.value) else []
  }

  lemma {:induction false} GivenStep(tag: byte, ip: Option<bytes>, rest: seq<Field>)
    requires AddressOk(ip) && tag != 0 && tag != OPT_END && FieldsOk(rest)
    ensures FieldsOk(Given(tag, ip) + rest) && EncodeFields(Given(tag, ip) + rest) == GivenBytes(tag, ip) + EncodeFields(rest)
  {
    if ip.Some? {
      OneField(tag, ip.value);
      FieldsStep(Field(0, tag, ip.value), rest);
    } else {
      assert [] + rest == rest;
      assert [] + EncodeFields(rest) == EncodeFields(rest);
    }
  }

  /** What the pushes write is the wire form of the options. */
  lemma {:induction false} RequestWire(msg: byte, serverId: Option<bytes>, requested: Option<bytes>)
    requires AddressOk(serverId) && AddressOk(requested)
    ensures var fields := RequestFields(msg, serverId, requested);
            && FieldsOk(fields)
            && EncodeFields(fields)
               == OptionBytes(OPT_MSG_TYPE, [msg]) + GivenBytes(OPT_REQUESTED_IP, requested) + GivenBytes(OPT_SERVER_ID, serverId)
  {
    hide EncodeFields, EncodeField, OptionBytes, Collect, FieldsOk, WithOption, Given, GivenBytes;
    var last, mid := Given(OPT_SERVER_ID, serverId), Given(OPT_REQUESTED_IP, requested);
    NoFields();
    GivenStep(OPT_SERVER_ID, serverId, []);
    assert last + [] == last;
    GivenStep(OPT_REQUESTED_IP, requested, last);
    OneField(OPT_MSG_TYPE, [msg]);
    FieldsStep(Field(0, OPT_MSG_TYPE, [msg]), mid + last);
    RequestParts(msg, serverId, requested);
  }

  lemma {:induction false} RequestParts(msg: byte, serverId: Option<bytes>, requested: Option<bytes>)
    ensures RequestFields(msg, serverId, requested)
            == [Field(0, OPT_MSG_TYPE, [msg])] + (Given(OPT_REQUESTED_IP, requested) + Given(OPT_SERVER_ID, serverId))
  {
  }

  lemma {:induction false} CollectFirst(f: Field, rest: seq<Field>, o: Options)
    requires o.Valid()
    ensures Collect([f] + rest, o) == Collect(rest, WithOption(o, f.tag, f.value))
  {
    assert ([f] + rest)[1..] == rest;
  }

  /** They amount to message type and server. */
  lemma {:induction false} RequestCollected(msg: byte, serverId: Option<bytes>, requested: Option<bytes>)
    requires AddressOk(serverId) && AddressOk(requested)
    ensures Collect(RequestFields(msg, serverId, requested), NO_OPTIONS) == Options(msg, serverId, None, None)
  {
    hide Collect;
    var last, mid := Given(OPT_SERVER_ID, serverId), Given(OPT_REQUESTED_IP, requested);
    var o := Options(msg, None, None, None);
    RequestParts(msg, serverId, requested);
    CollectFirst(Field(0, OPT_MSG_TYPE, [msg]), mid + last, NO_OPTIONS);
    if requested.Some? {
      CollectFirst(Field(0, OPT_REQUESTED_IP, requested.value), last, o);
    } else {
      assert mid + last == last;
    }
    CollectServer(serverId, o);
  }

  lemma {:induction false} CollectServer(serverId: Option<bytes>, o: Options)
    requires AddressOk(serverId) && o.Valid() && o.serverId == None
    ensures Collect(Given(OPT_SERVER_ID, serverId), o) == o.(serverId := serverId)
  {
    if serverId.Some? {
      assert serverId.value[..4] == serverId.value;
      assert Given(OPT_SERVER_ID, serverId) == [Field(0, OPT_SERVER_ID, serverId.value)] + [];
      CollectFirst(Field(0, OPT_SERVER_ID, serverId.value), [], o);
    }
  }

  lemma {:induction false} NoFields()
    ensures FieldsOk([]) && EncodeFields([]) == []
  {
  }

  /** Where the fixed fields of a request lie. */
  lemma {:induction false} FixedParts(xid: nat, mac: bytes)
    requires |mac| == 6
    ensures var s := DhcpFixed(xid, mac);
            && s[..4] == [1, 1, 6, 0] && s[4..8] == BE(xid, 4) && s[10..12] == BE(0x8000, 2) && s[28..34] == mac
            && s[236..240] == DHCP_MAGIC
            && s[8..10] == Zeros(2) && s[12..28] == Zeros(16) && s[34..236] == Zeros(202)
  {
    hide BE, Zeros;
  }

  /** A server finds a boot request over Ethernet with our number and card, message type, server and, in an option
      of its own, the requested address. */
  lemma {:induction false} RequestReadsBack(xid: nat, mac: bytes, msg: byte, serverId: Option<bytes>, requested: Option<bytes>)
    requires |mac| == 6 && AddressOk(serverId) && AddressOk(requested) && xid < 0x1_0000_0000
    ensures var m, fields := DhcpMessage(xid, mac, msg, serverId, requested), RequestFields(msg, serverId, requested);
            && |m| > 240 && m[..4] == [1, 1, 6, 0] && FromBE(m[4..8]) == xid && m[28..34] == mac
            && FromBE(m[10..12]) == 0x8000 && m[8..10] == Zeros(2) && m[12..28] == Zeros(16) && m[34..236] == Zeros(202)
            && FieldsOk(fields) && m[240..] == EncodeFields(fields) + [OPT_END]
            && OptionsOf(m) == Options(msg, serverId, None, None) && LastValue(fields, 50, 4) == requested
  {
    hide BE, EncodeFields, OptionBytes, DhcpFixed, ReadOptions, FieldsOk, Collect, Zeros;
    RequestedLast(msg, serverId, requested);
    var m, fields := DhcpMessage(xid, mac, msg, serverId, requested), RequestFields(msg, serverId, requested);
    RequestWire(msg, serverId, requested);
    RequestCollected(msg, serverId, requested);
    FixedParts(xid, mac);
    var head, opts := DhcpFixed(xid, mac), EncodeFields(fields);
    assert m == head + opts + [OPT_END];
    assert m[..4] == head[..4] && m[4..8] == head[4..8] && m[28..34] == head[28..34] && m[236..240] == head[236..240];
    assert m[8..10] == head[8..10] && m[10..12] == head[10..12] && m[12..28] == head[12..28] && m[34..236] == head[34..236];
    Pow256Values();
    FromBEofBE(xid, 4);
    FromBEofBE(0x8000, 2);
    assert m[240..240 + |opts|] == opts && m[240 + |opts|] == OPT_END;
    TypeFirst(msg, GivenBytes(OPT_REQUESTED_IP, requested) + GivenBytes(OPT_SERVER_ID, serverId));
    ReadFields(m, 240, fields, NO_OPTIONS);
  }

  lemma {:induction false} RequestedLast(msg: byte, serverId: Option<bytes>, requested: Option<bytes>)
    requires AddressOk(serverId) && AddressOk(requested)
    ensures LastValue(RequestFields(msg, serverId, requested), 50, 4) == requested
  {
    var kind, mid := [Field(0, OPT_MSG_TYPE, [msg])], Given(OPT_REQUESTED_IP, requested);
    RequestParts(msg, serverId, requested);
    assert LastValue(kind, 50, 4) == None;
    if requested.Some? {
      assert (kind + mid)[..1] == kind;
      assert LastValue(kind + mid, 50, 4) == requested;
    } else {
      assert kind + mid == kind;
    }
    if serverId.Some? {
      var all := kind + (mid + Given(OPT_SERVER_ID, serverId));
      assert all[..|all| - 1] == kind + mid;
    } else {
      assert mid + [] == mid;
    }
  }

  lemma {:induction false} TypeFirst(msg: byte, rest: bytes)
    ensures |OptionBytes(OPT_MSG_TYPE, [msg])| == 3
  {
  }

  /** dhcp_push_opt: an option behind what has been written, if it fits. */
  method DhcpPushOpt(buf: array<byte>, pos: nat, tag: byte, data: bytes) returns (ok: bool, next: nat)
    requires |data| < 256 && pos <= buf.Length
    modifies buf
    ensures ok <==> pos + 2 + |data| <= buf.Length
    ensures ok ==> next == pos + 2 + |data| && buf[..next] == old(buf[..pos]) + OptionBytes(tag, data)
    ensures !ok ==> next == pos && buf[..] == old(buf[..])
  {
    if pos + 2 + |data| > buf.Length {
      return false, pos;
    }
    next := Emit(buf, pos, [tag]);
    next := Emit(buf, next, [|data|]);
    next := Emit(buf, next, data);
    ok := true;
  }

  /** Bytes copied into the zeros behind what has been written. */
  lemma {:induction false} OverZeros(buf: bytes, len: nat, written: bytes, gap: nat, part: bytes)
    requires |written| + gap + |part| <= len <= |buf| && buf[..len] == written + Zeros(len - |written|)
    ensures Splice(buf, |written| + gap, part)[..len] == written + Zeros(gap) + part + Zeros(len - |written| - gap - |part|)
  {
    var w, at, end := |written|, |written| + gap, |written| + gap + |part|;
    var before := buf[..len];
    var zeros := Zeros(len - w);
    ZerosPart(len - w, 0, gap);
    ZerosPart(len - w, end - w, len - w);
    hide Zeros, Splice;
    SplicedPrefix(buf, at, part, len);
    assert before[..at] == written + zeros[0..gap];
    assert before[end..] == zeros[end - w..len - w];
  }

  lemma {:induction false} SplicedPrefix(buf: bytes, at: nat, part: bytes, len: nat)
    requires at + |part| <= len <= |buf|
    ensures Splice(buf, at, part)[..len] == buf[..len][..at] + part + buf[..len][at + |part|..]
  {
  }

  lemma {:induction false} ZerosPart(n: nat, a: nat, b: nat)
    requires a <= b <= n
    ensures Zeros(n)[a..b] == Zeros(b - a)
  {
  }

  /** The fixed fields, written into a buffer of zeros. */
  method WriteFixed(bp: array<byte>, xid: nat, mac: bytes)
    requires |mac| == 6 && bp.Length >= 240 && bp[..] == Zeros(bp.Length)
    modifies bp
    ensures bp[..240] == DhcpFixed(xid, mac)
  {
    hide BE, Splice, Zeros;
    var id, flags := BE(xid, 4), BE(0x8000, 2);
    assert bp[..][..240] == [] + Zeros(240);
    OverZeros(bp[..], 240, [], 0, [1, 1, 6]);
    CopyIn(bp, 0, [1, 1, 6]);
    assert [] + Zeros(0) + [1, 1, 6] == [1, 1, 6];
    OverZeros(bp[..], 240, [1, 1, 6], 1, id);
    CopyIn(bp, 4, id);
    ghost var two := [1, 1, 6] + Zeros(1) + id;
    OverZeros(bp[..], 240, two, 2, flags);
    CopyIn(bp, 10, flags);
    ghost var three := two + Zeros(2) + flags;
    OverZeros(bp[..], 240, three, 16, mac);
    CopyIn(bp, 28, mac);
    ghost var four := three + Zeros(16) + mac;
    OverZeros(bp[..], 240, four, 202, DHCP_MAGIC);
    CopyIn(bp, 236, DHCP_MAGIC);
    assert [1, 1, 6] + Zeros(1) == [1, 1, 6, 0];
    assert bp[..240] == bp[..][..240] == four + Zeros(202) + DHCP_MAGIC + Zeros(0);
  }

  /** build_dhcp_packet: a broadcast from port 68 to port 67. All options always fit the message buffer. */
  method BuildDhcpPacket(ourMac: bytes, our: bytes, xid: nat, msg: byte, serverId: Option<bytes>,
                         requested: Option<bytes>, out: array<byte>)
    returns (total: nat)
    requires |ourMac| == 6 && |our| == 4 && AddressOk(serverId) && AddressOk(requested) && out.Length <= 0xffff
    modifies out
    ensures var r := Route(ourMac, [255, 255, 255, 255, 255, 255], our, [255, 255, 255, 255]);
            var m := DhcpMessage(xid, ourMac, msg, serverId, requested);
            Built(Frame(r, 0, UDP, UdpBlank(68, 67, m), 6), total, old(out[..]), out[..])
    ensures total > 0 ==> total <= out.Length && Accepted(out[..total])
  {
    hide Frame, UdpBlank, Accepted, DhcpFixed, OptionBytes;
    var bp := new byte[DHCP_BUFFER](_ => 0);
    assert bp[..] == Zeros(DHCP_BUFFER);
    WriteFixed(bp, xid, ourMac);
    var ok, o := DhcpPushOpt(bp, 240, OPT_MSG_TYPE, [msg]);
    assert bp[..o] + [] == bp[..o];
    if requested.Some? {
      ok, o := DhcpPushOpt(bp, o, OPT_REQUESTED_IP, requested.value);
    }
    assert bp[..o] + [] == bp[..o];
    if serverId.Some? {
      ok, o := DhcpPushOpt(bp, o, OPT_SERVER_ID, serverId.value);
    }
    o := Emit(bp, o, [OPT_END]);
    var r := Route(ourMac, [255, 255, 255, 255, 255, 255], our, [255, 255, 255, 255]);
    total := BuildUdp(r, 68, 67, bp[..o], 0, out);
  }
}
