/** What the DHCP client reads in a reply (kernel/src/net.rs:404-471; RFC 2132 for the option layout). */
module DhcpReply {
  import opened Bytes

  const DHCP_MAGIC: bytes := [99, 130, 83, 99]
  const OPT_ROUTER: byte := 3
  const OPT_DNS: byte := 6
  const OPT_MSG_TYPE: byte := 53
  const OPT_SERVER_ID: byte := 54
  const OPT_END: byte := 255
  const DHCP_OFFER: byte := 2
  const DHCP_ACK: byte := 5

  const ZERO_IP: bytes := [0, 0, 0, 0]

  /** The options the client looks at; the last one of a kind counts. */
  datatype Options = Options(msg: byte, serverId: Option<bytes>, router: Option<bytes>, dns: Option<bytes>) {
    predicate Valid() {
      && (serverId.Some? ==> |serverId.value| == 4)
      && (router.Some? ==> |router.value| == 4)
      && (dns.Some? ==> |dns.value| == 4)
    }
  }

  const NO_OPTIONS := Options(0, None, None, None)

  function WithOption(o: Options, tag: byte, value: bytes): (r: Options)
    requires o.Valid()
    ensures r.Valid()
  {
    if tag == OPT_MSG_TYPE && |value| >= 1 then o.(msg := value[0])
    else if tag == OPT_SERVER_ID && |value| >= 4 then o.(serverId := Some(value[..4]))
    else if tag == OPT_ROUTER && |value| >= 4 then o.(router := Some(value[..4]))
    else if tag == OPT_DNS && |value| >= 4 then o.(dns := Some(value[..4]))
    else o
  }

  /** Reads options up to the end mark or the first one that does not fit. */
  function ReadOptions(m: bytes, i: nat, o: Options): (r: Options)
    requires o.Valid() && i <= |m|
    ensures r.Valid()
    decreases |m| - i
  {
    if i == |m| || m[i] == OPT_END then o
    else if m[i] == 0 then ReadOptions(m, i + 1, o)
    else if i + 1 >= |m| || i + 2 + m[i + 1] > |m| then o
    else ReadOptions(m, i + 2 + m[i + 1], WithOption(o, m[i], m[i + 2..i + 2 + m[i + 1]]))
  }

  function OptionsOf(m: bytes): (r: Options)
    ensures r.Valid()
  {
    if |m| >= 244 && m[236..240] == DHCP_MAGIC then ReadOptions(m, 240, NO_OPTIONS) else NO_OPTIONS
  }

  method ParseOptions(m: bytes) returns (o: Options)
    ensures o == OptionsOf(m)
  {
    o := NO_OPTIONS;
    if |m| >= 244 && m[236..240] == DHCP_MAGIC {
      var i := 240;
      while i < |m|
        invariant i <= |m| && o.Valid() && OptionsOf(m) == ReadOptions(m, i, o)
        decreases |m| - i
      {
        var tag := m[i];
        if tag == OPT_END {
          break;
        }
        if tag == 0 {
          i := i + 1;
          continue;
        }
        if i + 1 >= |m| {
          break;
        }
        var ln: nat := m[i + 1];
        var v0 := i + 2;
        if v0 + ln > |m| {
          break;
        }
        o := WithOption(o, tag, m[v0..v0 + ln]);
        i := v0 + ln;
      }
    }
  }

  // ----- what an option list is written as

  /** An option as a server writes it, with padding before it. */
  datatype Field = Field(padding: nat, tag: byte, value: bytes) {
    predicate Ok() {
      tag != 0 && tag != OPT_END && |value| < 256
    }
  }

  function EncodeField(f: Field): bytes
    requires f.Ok()
  {
    Zeros(f.padding) + [f.tag, |f.value|] + f.value
  }

  ghost predicate FieldsOk(fields: seq<Field>) {
    forall k :: 0 <= k < |fields| ==> fields[k].Ok()
  }

  function EncodeFields(fields: seq<Field>): bytes
    requires FieldsOk(fields)
  {
    if fields == [] then [] else assert fields[0].Ok(); EncodeField(fields[0]) + EncodeFields(fields[1..])
  }

  function Collect(fields: seq<Field>, o: Options): (r: Options)
    requires o.Valid()
    ensures r.Valid()
    decreases fields
  {
    if fields == [] then o else Collect(fields[1..], WithOption(o, fields[0].tag, fields[0].value))
  }

  lemma {:induction false} SkipPadding(m: bytes, i: nat, n: nat, o: Options)
    requires o.Valid() && i + n <= |m| && forall k :: i <= k < i + n ==> m[k] == 0
    ensures ReadOptions(m, i, o) == ReadOptions(m, i + n, o)
    decreases n
  {
    if n > 0 {
      SkipPadding(m, i + 1, n - 1, o);
    }
  }

  /** Where the parts of a written option lie. */
  lemma {:induction false} FieldParts(m: bytes, i: nat, f: Field, rest: bytes)
    requires f.Ok() && i + |EncodeField(f)| + |rest| <= |m|
    requires m[i..i + |EncodeField(f)| + |rest|] == EncodeField(f) + rest
    ensures var j := i + f.padding;
            && |EncodeField(f)| == f.padding + 2 + |f.value|
            && (forall k :: i <= k < j ==> m[k] == 0)
            && m[j] == f.tag && m[j + 1] == |f.value| && m[j + 2..j + 2 + |f.value|] == f.value
            && m[i + |EncodeField(f)|..i + |EncodeField(f)| + |rest|] == rest
  {
    var p, v := f.padding, |f.value|;
    var e, j := EncodeField(f), i + p;
    var n := |e| + |rest|;
    var s := m[i..i + n];
    FieldLayout(f);
    hide EncodeField;
    SliceOfSlice(m, i, n, 0, p);
    SliceOfSlice(m, i, n, p, p + 2);
    SliceOfSlice(m, i, n, p + 2, p + 2 + v);
    SliceOfSlice(m, i, n, |e|, n);
    var zeros, mark, value := s[0..p], s[p..p + 2], s[p + 2..p + 2 + v];
    assert zeros == e[..p] && mark == e[p..p + 2] && value == e[p + 2..];
    forall k | i <= k < j ensures m[k] == 0 {
      assert m[k] == m[i..j][k - i] == zeros[k - i];
    }
    assert m[j] == m[j..j + 2][0] == mark[0] && m[j + 1] == m[j..j + 2][1] == mark[1];
    assert s[|e|..n] == rest;
  }

  lemma {:induction false} FieldLayout(f: Field)
    requires f.Ok()
    ensures var e := EncodeField(f);
            && |e| == f.padding + 2 + |f.value| && e[..f.padding] == Zeros(f.padding)
            && e[f.padding..f.padding + 2] == [f.tag, |f.value|] && e[f.padding + 2..] == f.value
  {
  }

  /** Reading a list of options back collects exactly the options that were written. */
  lemma {:induction false} ReadFields(m: bytes, i: nat, fields: seq<Field>, o: Options)
    requires o.Valid() && FieldsOk(fields) && i + |EncodeFields(fields)| < |m|
    requires m[i..i + |EncodeFields(fields)|] == EncodeFields(fields) && m[i + |EncodeFields(fields)|] == OPT_END
    ensures ReadOptions(m, i, o) == Collect(fields, o)
    decreases fields
  {
    hide WithOption, EncodeField;
    if fields != [] {
      var f, rest := fields[0], EncodeFields(fields[1..]);
      assert f.Ok();
      FieldParts(m, i, f, rest);
      SkipPadding(m, i, f.padding, o);
      ReadFields(m, i + |EncodeField(f)|, fields[1..], WithOption(o, f.tag, f.value));
    }
  }

  // ----- replies

  /** A reply to our transaction and our card. */
  predicate Ours(m: bytes, xid: nat, mac: bytes) {
    |m| >= 240 && m[0] == 2 && FromBE(m[4..8]) == xid && m[28..34] == mac
  }

  predicate IsOffer(m: bytes, xid: nat, mac: bytes) {
    Ours(m, xid, mac) && OptionsOf(m).msg == DHCP_OFFER && OptionsOf(m).serverId.Some?
  }

  predicate IsAck(m: bytes, xid: nat, mac: bytes) {
    Ours(m, xid, mac) && OptionsOf(m).msg == DHCP_ACK
  }

  /** yiaddr and siaddr */
  function Yours(m: bytes): (ip: bytes)
    requires |m| >= 240
    ensures |ip| == 4
  {
    m[16..20]
  }

  function Server(m: bytes): (ip: bytes)
    requires |m| >= 240
    ensures |ip| == 4
  {
    m[20..24]
  }

  /** The gateway: the router option, else siaddr, else our own address. */
  function GatewayFrom(m: bytes): (ip: bytes)
    requires |m| >= 240
    ensures |ip| == 4
  {
    var g := if OptionsOf(m).router.Some? then OptionsOf(m).router.value else Server(m);
    if g == ZERO_IP then Yours(m) else g
  }

  function DnsFrom(m: bytes): (ip: bytes)
    requires |m| >= 240
    ensures |ip| == 4
  {
    if OptionsOf(m).dns.Some? then OptionsOf(m).dns.value else GatewayFrom(m)
  }

  // ----- a reply as a server writes it

  /** The value of the last option with this tag and at least so many bytes. */
  function LastValue(fields: seq<Field>, tag: byte, size: nat): (v: Option<bytes>)
    ensures v.Some? ==> |v.value| >= size
  {
    if fields == [] then None else
    var f := fields[|fields| - 1];
    if f.tag == tag && |f.value| >= size then Some(f.value) else LastValue(fields[..|fields| - 1], tag, size)
  }

  /** The address in the first four bytes of an option. */
  function Address(v: Option<bytes>): Option<bytes>
    requires v.Some? ==> |v.value| >= 4
  {
    match v case None => None case Some(b) => Some(b[..4])
  }

  lemma {:induction false} CollectLast(fields: seq<Field>, f: Field, o: Options)
    requires o.Valid()
    ensures Collect(fields + [f], o) == WithOption(Collect(fields, o), f.tag, f.value)
    decreases fields
  {
    hide WithOption;
    if fields == [] {
      assert fields + [f] == [f] && [f][1..] == [];
    } else {
      assert (fields + [f])[1..] == fields[1..] + [f];
      CollectLast(fields[1..], f, WithOption(o, fields[0].tag, fields[0].value));
    }
  }

  /** Message type (53), server (54), router (3) and name server (6): of each kind the last option that is long enough. */
  lemma {:induction false} LastCounts(fields: seq<Field>)
    ensures var o := Collect(fields, NO_OPTIONS);
            && o.msg == (match LastValue(fields, 53, 1) case None => 0 case Some(v) => v[0])
            && o.serverId == Address(LastValue(fields, 54, 4))
            && o.router == Address(LastValue(fields, 3, 4)) && o.dns == Address(LastValue(fields, 6, 4))
    decreases |fields|
  {
    if fields != [] {
      var init, f := fields[..|fields| - 1], fields[|fields| - 1];
      LastCounts(init);
      assert fields == init + [f];
      CollectLast(init, f, NO_OPTIONS);
      hide Collect, LastValue;
      LastOption(init, f, 53, 1);
      LastOption(init, f, 54, 4);
      LastOption(init, f, 3, 4);
      LastOption(init, f, 6, 4);
    }
  }

  lemma {:induction false} LastOption(init: seq<Field>, f: Field, tag: byte, size: nat)
    ensures LastValue(init + [f], tag, size) == if f.tag == tag && |f.value| >= size then Some(f.value) else LastValue(init, tag, size)
  {
    assert (init + [f])[..|init|] == init;
  }

  /** What the client takes from a reply with these options: the router's address as the gateway, else the server's
      (siaddr), else its own (yiaddr); and the name server's address, else the gateway's. */
  lemma {:induction false} ReplyReads(m: bytes, fields: seq<Field>)
    requires FieldsOk(fields) && 240 + |EncodeFields(fields)| < |m| && |m| >= 244 && m[236..240] == DHCP_MAGIC
    requires m[240..240 + |EncodeFields(fields)|] == EncodeFields(fields) && m[240 + |EncodeFields(fields)|] == 255
    ensures OptionsOf(m).msg == (match LastValue(fields, 53, 1) case None => 0 case Some(v) => v[0])
    ensures OptionsOf(m).serverId == Address(LastValue(fields, 54, 4))
    ensures var router, dns := Address(LastValue(fields, 3, 4)), Address(LastValue(fields, 6, 4));
            var gw := if router.Some? then router.value else m[20..24];
            && GatewayFrom(m) == (if gw == [0, 0, 0, 0] then m[16..20] else gw)
            && DnsFrom(m) == (if dns.Some? then dns.value else GatewayFrom(m))
  {
    hide EncodeFields, LastValue, Collect;
    ReadFields(m, 240, fields, NO_OPTIONS);
    LastCounts(fields);
  }
}
