/** URLs of the browser's fetcher (kernel/src/url.rs) and dotted quads (kernel/src/gfx.rs:1723-1751). */
module Url {
  import opened Bytes
  import DnsCodec

  const HTTP: bytes := [104, 116, 116, 112, 58, 47, 47]
  const HTTPS: bytes := [104, 116, 116, 112, 115, 58, 47, 47]
  const COLON: byte := 58
  const SLASH: byte := 47
  const DOT: byte := 46
  const BLANK: byte := 32

  datatype Parsed = Parsed(https: bool, port: nat, ip: bytes, needsDns: bool, host: bytes, header: bytes, path: bytes)

  // ----- decimal numbers

  predicate Digit(b: byte) {
    48 <= b <= 57
  }

  /** The number that the first n digits write, if it is at most max. */
  function NumberOf(s: bytes, n: nat, max: nat): (v: Option<nat>)
    requires n <= |s|
    ensures v.Some? ==> v.value <= max
  {
    if n == 0 then Some(0) else
    match NumberOf(s, n - 1, max)
    case None => None
    case Some(v) => if Digit(s[n - 1]) && v * 10 + (s[n - 1] - 48) as nat <= max then Some(v * 10 + (s[n - 1] - 48) as nat) else None
  }

  lemma {:induction false} NoNumberAfter(s: bytes, i: nat, n: nat, max: nat)
    requires i <= n <= |s| && NumberOf(s, i, max).None?
    ensures NumberOf(s, n, max).None?
  {
    if i < n {
      NoNumberAfter(s, i, n - 1, max);
    }
  }

  /** A number without leading zeros. */
  function Decimal(n: nat): (s: bytes)
    ensures |s| > 0 && forall k :: 0 <= k < |s| ==> Digit(s[k])
  {
    if n < 10 then [48 + n] else Decimal(n / 10) + [48 + n % 10]
  }

  lemma {:induction false} NumberPrefix(s: bytes, t: bytes, n: nat, max: nat)
    requires n <= |s| && s <= t
    ensures NumberOf(s, n, max) == NumberOf(t, n, max)
  {
    if n > 0 {
      NumberPrefix(s, t, n - 1, max);
    }
  }

  lemma {:induction false} DecimalReadsBack(n: nat, max: nat)
    requires n <= max
    ensures NumberOf(Decimal(n), |Decimal(n)|, max) == Some(n)
  {
    if n < 10 {
      assert NumberOf(Decimal(n), 0, max) == Some(0);
    } else {
      DecimalReadsBack(n / 10, max);
      NumberPrefix(Decimal(n / 10), Decimal(n), |Decimal(n / 10)|, max);
    }
  }

  /** The loops of the parsers: at most max, or nothing. */
  method ReadNumber(s: bytes, max: nat) returns (v: Option<nat>)
    ensures v == NumberOf(s, |s|, max)
  {
    var p: nat := 0;
    for i := 0 to |s|
      invariant NumberOf(s, i, max) == Some(p)
    {
      if !Digit(s[i]) || p * 10 + (s[i] - 48) as nat > max {
        assert NumberOf(s, i + 1, max).None?;
        NoNumberAfter(s, i + 1, |s|, max);
        return None;
      }
      p := p * 10 + (s[i] - 48) as nat;
    }
    return Some(p);
  }

  /** The loop that writes digits from the right. */
  method WriteNumber(n0: nat) returns (s: bytes)
    ensures s == Decimal(n0)
  {
    var n := n0;
    s := [];
    if n == 0 {
      return [48];
    }
    while n > 0
      invariant n0 > 0 && Decimal(n0) == (if n > 0 then Decimal(n) else []) + s
      decreases n
    {
      assert n >= 10 ==> Decimal(n / 10) + [48 + n % 10] + s == Decimal(n / 10) + ([48 + n % 10] + s);
      s := [(48 + n % 10) as byte] + s;
      n := n / 10;
    }
  }

  // ----- dotted quads

  function U8Of(s: bytes): Option<nat> {
    if |s| == 0 || |s| > 3 then None else NumberOf(s, |s|, 255)
  }

  /** parse_ipv4_host: four parts between dots, each a number of at most three digits and at most 255. */
  function Ipv4Of(host: bytes): (ip: Option<bytes>)
    ensures ip.Some? ==> |ip.value| == 4
  {
    var parts := DnsCodec.Labels(host);
    if |parts| != 4 then None else
    match (U8Of(parts[0]), U8Of(parts[1]), U8Of(parts[2]), U8Of(parts[3]))
    case (Some(a), Some(b), Some(c), Some(d)) => Some([a as byte, b as byte, c as byte, d as byte])
    case _ => None
  }

  method ParseU8(s: bytes) returns (v: Option<nat>)
    ensures v == U8Of(s)
  {
    if |s| == 0 || |s| > 3 {
      return None;
    }
    v := ReadNumber(s, 255);
  }

  /** All of the first n parts are octets, and these are their values. */
  predicate Octets(parts: seq<bytes>, values: bytes) {
    |values| <= |parts| && forall k :: 0 <= k < |values| ==> U8Of(parts[k]) == Some(values[k] as nat)
  }

  method ParseIpv4Host(host: bytes) returns (ip: Option<bytes>)
    ensures ip == Ipv4Of(host)
  {
    hide NumberOf, U8Of, Octets, DnsCodec.SplitFrom;
    var parts: bytes := [];
    var start := 0;
    NoOctets();
    ghost var all := DnsCodec.Labels(host);
    ghost var seen: seq<bytes> := [];
    for i := 0 to |host|
      invariant start <= i && all == seen + DnsCodec.SplitFrom(host, start, i)
      invariant |parts| == |seen| <= 4 && Octets(seen, parts)
    {
      DnsCodec.SplitStep(host, start, i);
      if host[i] == DOT {
        assert all[|seen|] == host[start..i];
        ghost var rest := DnsCodec.SplitFrom(host, i + 1, i + 1);
        assert seen + ([host[start..i]] + rest) == seen + [host[start..i]] + rest;
        if |parts| >= 4 {
          return None;
        }
        var v := ParseU8(host[start..i]);
        if v.None? {
          NotFour(all, |seen|);
          return None;
        }
        MoreOctets(seen, parts, host[start..i]);
        parts := parts + [v.value as byte];
        seen := seen + [host[start..i]];
        start := i + 1;
      }
    }
    DnsCodec.SplitEnd(host, start);
    assert all == seen + [host[start..]];
    if |parts| != 3 {
      return None;
    }
    var v := ParseU8(host[start..]);
    ThreeOctets(host, seen, parts, host[start..]);
    if v.None? {
      return None;
    }
    return Some(parts + [v.value as byte]);
  }

  lemma {:induction false} NoOctets()
    ensures Octets([], [])
  {
  }

  lemma {:induction false} OctetBelow(part: bytes)
    ensures U8Of(part).Some? ==> U8Of(part).value < 256
  {
  }

  lemma {:induction false} MoreOctets(seen: seq<bytes>, parts: bytes, part: bytes)
    requires |parts| == |seen| && Octets(seen, parts) && U8Of(part).Some?
    ensures U8Of(part).value < 256 && Octets(seen + [part], parts + [U8Of(part).value as byte])
  {
    OctetBelow(part);
  }

  /** Three octets and a last part are an address if that one is an octet too. */
  lemma {:induction false} ThreeOctets(host: bytes, seen: seq<bytes>, parts: bytes, last: bytes)
    requires |parts| == |seen| == 3 && Octets(seen, parts) && DnsCodec.Labels(host) == seen + [last]
    ensures U8Of(last).Some? ==> U8Of(last).value < 256
    ensures Ipv4Of(host) == match U8Of(last) case None => None case Some(v) => Some(parts + [v as byte])
  {
    OctetBelow(last);
    hide U8Of, DnsCodec.Labels;
    var all := seen + [last];
    assert all[0] == seen[0] && all[1] == seen[1] && all[2] == seen[2] && all[3] == last;
    assert U8Of(seen[0]) == Some(parts[0] as nat) && U8Of(seen[1]) == Some(parts[1] as nat) && U8Of(seen[2]) == Some(parts[2] as nat);
    if U8Of(last).Some? {
      var d := U8Of(last).value as byte;
      assert parts + [d] == [parts[0], parts[1], parts[2], d];
    }
  }

  lemma {:induction false} NotFour(parts: seq<bytes>, k: nat)
    requires k < |parts| && k < 4 && U8Of(parts[k]).None?
    ensures |parts| == 4 ==> U8Of(parts[0]).None? || U8Of(parts[1]).None? || U8Of(parts[2]).None? || U8Of(parts[3]).None?
  {
  }

  /** The dotted form, as the settings screen prints it. */
  function DottedQuad(ip: bytes): bytes
    requires |ip| == 4
  {
    Decimal(ip[0]) + [DOT] + (Decimal(ip[1]) + [DOT] + (Decimal(ip[2]) + [DOT] + Decimal(ip[3])))
  }

  const DST := 16

  /** format_ipv4: the 16-byte buffer is always long enough. */
  method FormatIpv4(ip: bytes) returns (dst: bytes)
    requires |ip| == 4
    ensures dst == DottedQuad(ip)
  {
    dst := [];
    for idx := 0 to 4
      invariant |dst| <= 4 * idx
      invariant idx > 0 ==> dst == Printed(ip, idx)
    {
      var tmp := WriteNumber(ip[idx]);
      OctetDigits(ip[idx]);
      // The source stops here when the buffer is full.
      assert |dst| + |tmp| < DST;
      dst := dst + tmp;
      if idx != 3 && |dst| < DST {
        dst := dst + [DOT];
      }
    }
    PrintedAll(ip);
  }

  lemma {:induction false} PrintedAll(ip: bytes)
    requires |ip| == 4
    ensures Printed(ip, 4) == DottedQuad(ip)
  {
    hide Decimal;
    var a, b, c, d := Decimal(ip[0]), Decimal(ip[1]), Decimal(ip[2]), Decimal(ip[3]);
    assert Printed(ip, 1) == [] + a + [DOT] == a + [DOT];
    assert Printed(ip, 2) == a + [DOT] + b + [DOT];
    assert Printed(ip, 3) == a + [DOT] + b + [DOT] + c + [DOT];
    assert Printed(ip, 4) == a + [DOT] + b + [DOT] + c + [DOT] + d + [];
  }

  /** What has been printed after n octets. */
  function Printed(ip: bytes, n: nat): bytes
    requires |ip| == 4 && n <= 4
  {
    if n == 0 then [] else Printed(ip, n - 1) + Decimal(ip[n - 1]) + (if n < 4 then [DOT] else [])
  }

  lemma {:induction false} OctetDigits(n: nat)
    requires n < 256
    ensures |Decimal(n)| <= 3
  {
    if n >= 100 {
      assert Decimal(n / 10 / 10) == [48 + n / 10 / 10];
    }
  }

  /** Labels without dots, joined by dots, are split where they were joined. */
  lemma {:induction false} SplitAtDot(s: bytes, start: nat, i: nat, part: bytes, rest: bytes)
    requires start <= i <= |s| && i <= start + |part| && s[start..] == part + [DOT] + rest
    requires forall k :: 0 <= k < |part| ==> part[k] != DOT
    ensures DnsCodec.SplitFrom(s, start, i) == [part] + DnsCodec.SplitFrom(s, start + |part| + 1, start + |part| + 1)
    decreases start + |part| - i
  {
    var t := s[start..];
    if i < start + |part| {
      assert s[i] == t[i - start] == part[i - start];
      SplitAtDot(s, start, i + 1, part, rest);
    } else {
      assert s[i] == t[|part|] == DOT;
      assert s[start..i] == t[..|part|] == part;
    }
  }

  lemma {:induction false} SplitAtEnd(s: bytes, start: nat, i: nat)
    requires start <= i <= |s| && forall k :: start <= k < |s| ==> s[k] != DOT
    ensures DnsCodec.SplitFrom(s, start, i) == [s[start..]]
    decreases |s| - i
  {
    if i < |s| {
      SplitAtEnd(s, start, i + 1);
    }
  }

  lemma {:induction false} DigitsAreNoDots(n: nat)
    ensures forall k :: 0 <= k < |Decimal(n)| ==> Decimal(n)[k] != DOT
  {
    forall k | 0 <= k < |Decimal(n)| ensures Decimal(n)[k] != DOT {
      assert Digit(Decimal(n)[k]);
    }
  }

  lemma {:induction false} QuadLabels(ip: bytes)
    requires |ip| == 4
    ensures DnsCodec.Labels(DottedQuad(ip)) == [Decimal(ip[0]), Decimal(ip[1]), Decimal(ip[2]), Decimal(ip[3])]
  {
    hide Decimal, DnsCodec.SplitFrom;
    var s := DottedQuad(ip);
    var a, b, c, d := Decimal(ip[0]), Decimal(ip[1]), Decimal(ip[2]), Decimal(ip[3]);
    DigitsAreNoDots(ip[0]);
    DigitsAreNoDots(ip[1]);
    DigitsAreNoDots(ip[2]);
    DigitsAreNoDots(ip[3]);
    var i, j, k := |a| + 1, |a| + |b| + 2, |a| + |b| + |c| + 3;
    assert s[0..] == a + [DOT] + (b + [DOT] + (c + [DOT] + d));
    SplitAtDot(s, 0, 0, a, b + [DOT] + (c + [DOT] + d));
    assert s[i..] == b + [DOT] + (c + [DOT] + d);
    SplitAtDot(s, i, i, b, c + [DOT] + d);
    assert s[j..] == c + [DOT] + d;
    SplitAtDot(s, j, j, c, d);
    assert s[k..] == d;
    forall n | k <= n < |s| ensures s[n] != DOT {
      assert s[n] == s[k..][n - k];
    }
    SplitAtEnd(s, k, k);
  }

  /** Reading a printed address gives the address back. */
  lemma {:induction false} QuadReadsBack(ip: bytes)
    requires |ip| == 4
    ensures Ipv4Of(DottedQuad(ip)) == Some(ip)
  {
    hide Decimal, NumberOf, DnsCodec.Labels;
    QuadLabels(ip);
    OctetReadsBack(ip[0]);
    OctetReadsBack(ip[1]);
    OctetReadsBack(ip[2]);
    OctetReadsBack(ip[3]);
    assert ip == [ip[0], ip[1], ip[2], ip[3]];
  }

  lemma {:induction false} OctetReadsBack(b: byte)
    ensures U8Of(Decimal(b)) == Some(b as nat)
  {
    OctetDigits(b);
    DecimalReadsBack(b, 255);
  }

  // ----- parsing URLs

  /** '/', '?' and '#' end the authority. */
  predicate Stop(b: byte) {
    b == SLASH || b == 63 || b == 35
  }

  predicate StartsWith(url: bytes, prefix: bytes) {
    |prefix| <= |url| && forall i :: 0 <= i < |prefix| ==> LowerCase(url[i]) == prefix[i]
  }

  method CheckPrefix(url: bytes, prefix: bytes) returns (ok: bool)
    ensures ok == StartsWith(url, prefix)
  {
    if |url| < |prefix| {
      return false;
    }
    for i := 0 to |prefix|
      invariant forall k :: 0 <= k < i ==> LowerCase(url[k]) == prefix[k]
    {
      if LowerCase(url[i]) != prefix[i] {
        return false;
      }
    }
    return true;
  }

  function TrimLeft(s: bytes): bytes {
    if s != [] && s[0] == BLANK then TrimLeft(s[1..]) else s
  }

  function TrimRight(s: bytes): (t: bytes)
    ensures t <= s && (t != [] ==> t[|t| - 1] != BLANK)
  {
    if s != [] && s[|s| - 1] == BLANK then TrimRight(s[..|s| - 1]) else s
  }

  function Trimmed(url: bytes): (t: bytes)
    ensures t != [] ==> t[|t| - 1] != BLANK
  {
    TrimRight(TrimLeft(url))
  }

  /** trim */
  method Trim(url: bytes) returns (t: bytes)
    ensures t == Trimmed(url)
  {
    var i, j := 0, |url|;
    assert url[0..] == url;
    while i < j && url[i] == BLANK
      invariant i <= j == |url| && TrimLeft(url) == TrimLeft(url[i..])
    {
      assert url[i..][1..] == url[i + 1..];
      i := i + 1;
    }
    assert TrimLeft(url) == url[i..] == url[i..j];
    while j > i && url[j - 1] == BLANK
      invariant i <= j <= |url| && Trimmed(url) == TrimRight(url[i..j])
    {
      assert url[i..j][..j - i - 1] == url[i..j - 1];
      j := j - 1;
    }
    t := url[i..j];
  }

  /** Where the first byte that ends the authority, or (if asked for) a colon, stands. */
  function EndAt(s: bytes, i: nat, colon: bool): (end: nat)
    requires i <= |s|
    ensures i <= end <= |s| && (forall k :: i <= k < end ==> !Stop(s[k]) && (colon ==> s[k] != COLON))
    ensures end < |s| ==> Stop(s[end]) || (colon && s[end] == COLON)
    decreases |s| - i
  {
    if i == |s| || Stop(s[i]) || (colon && s[i] == COLON) then i else EndAt(s, i + 1, colon)
  }

  function DefaultPort(https: bool): nat {
    if https then 443 else 80
  }

  /** The Host header: the port only if it is not the default. */
  function HostHeader(host: bytes, port: nat, https: bool): bytes {
    if port == DefaultPort(https) then host else host + [COLON] + Decimal(port)
  }

  function PathOf(src: bytes): bytes {
    if src == [] then [SLASH] else if src[0] == SLASH then src else if Stop(src[0]) then [SLASH] + src else src
  }

  /** finish_parse */
  function Finished(host: bytes, port: nat, src: bytes, https: bool): Option<Parsed> {
    var extra := if src != [] && src[0] != SLASH && Stop(src[0]) then 1 else 0;
    var header := HostHeader(host, port, https);
    if host == [] || |host| > 95 || |src| + extra > 159 || (port != DefaultPort(https) && |header| > 95) then None else
    var quad := Ipv4Of(host);
    var ip := if quad.Some? then quad.value else Zeros(4);
    Some(Parsed(https, port, ip, ip == Zeros(4), host, header, PathOf(src)))
  }

  /** A port behind a colon. */
  function PortOf(s: bytes): Option<nat> {
    if s == [] then None else NumberOf(s, |s|, 65535)
  }

  /** parse_host_port_path */
  function HostPortPath(rest: bytes, https: bool): Option<Parsed> {
    var end := EndAt(rest, 0, true);
    if end < |rest| && rest[end] == COLON then
      var stop := EndAt(rest, end + 1, false);
      match PortOf(rest[end + 1..stop])
      case None => None
      case Some(port) => Finished(rest[..end], port, if stop == |rest| then [SLASH] else rest[stop..], https)
    else Finished(rest[..end], DefaultPort(https), if end == |rest| then [SLASH] else rest[end..], https)
  }

  function FetchUrl(url0: bytes): Option<Parsed> {
    var url := Trimmed(url0);
    if StartsWith(url, HTTPS) then HostPortPath(url[|HTTPS|..], true)
    else if StartsWith(url, HTTP) then HostPortPath(url[|HTTP|..], false)
    else None
  }

  method FinishParse(host: bytes, port: nat, src: bytes, https: bool) returns (p: Option<Parsed>)
    ensures p == Finished(host, port, src, https)
  {
    hide Ipv4Of, Decimal;
    var extra := if |src| > 0 && (src[0] == 63 || src[0] == 35) then 1 else 0;
    if |host| == 0 || |host| > 95 || |src| + extra > 159 {
      return None;
    }
    var header := host;
    if port != DefaultPort(https) {
      var ds := WriteNumber(port);
      if |header| + 1 + |ds| > 95 {
        return None;
      }
      header := header + [COLON] + ds;
    }
    var quad := ParseIpv4Host(host);
    var ip := if quad.Some? then quad.value else Zeros(4);
    var path := if |src| == 0 then [SLASH] else if src[0] == 63 || src[0] == 35 then [SLASH] + src else src;
    return Some(Parsed(https, port, ip, ip == Zeros(4), host, header, path));
  }

  method FindEnd(s: bytes, i0: nat, colon: bool) returns (end: nat)
    requires i0 <= |s|
    ensures end == EndAt(s, i0, colon)
  {
    end := i0;
    while end < |s| && !Stop(s[end]) && !(colon && s[end] == COLON)
      invariant end <= |s| && EndAt(s, i0, colon) == EndAt(s, end, colon)
      decreases |s| - end
    {
      end := end + 1;
    }
  }

  method ParseHostPortPath(rest: bytes, https: bool) returns (p: Option<Parsed>)
    ensures p == HostPortPath(rest, https)
  {
    hide Finished, NumberOf;
    var end := FindEnd(rest, 0, true);
    if end < |rest| && rest[end] == COLON {
      var stop := FindEnd(rest, end + 1, false);
      if stop == end + 1 {
        return None;
      }
      var port := ReadNumber(rest[end + 1..stop], 65535);
      if port.None? {
        return None;
      }
      var src := if stop == |rest| then [SLASH] else rest[stop..];
      p := FinishParse(rest[..end], port.value, src, https);
      return;
    }
    var src := if end == |rest| then [SLASH] else rest[end..];
    p := FinishParse(rest[..end], DefaultPort(https), src, https);
  }

  method ParseFetchUrl(url0: bytes) returns (p: Option<Parsed>)
    ensures p == FetchUrl(url0)
  {
    hide HostPortPath;
    var url := Trim(url0);
    var https := CheckPrefix(url, HTTPS);
    if https {
      p := ParseHostPortPath(url[|HTTPS|..], true);
      return;
    }
    var http := CheckPrefix(url, HTTP);
    if !http {
      return None;
    }
    p := ParseHostPortPath(url[|HTTP|..], false);
  }

  // ----- the normal form

  /** A URL as the fetcher would write it: scheme, Host header, path. */
  function Normal(p: Parsed): bytes {
    (if p.https then HTTPS else HTTP) + p.header + p.path
  }

  /** What parsing guarantees. */
  predicate Accepted(p: Parsed) {
    && 0 < |p.host| <= 95 && (forall k :: 0 <= k < |p.host| ==> !Stop(p.host[k]) && p.host[k] != COLON)
    && p.port <= 65535 && p.header == HostHeader(p.host, p.port, p.https)
    && (p.port != DefaultPort(p.https) ==> |p.header| <= 95)
    && 0 < |p.path| <= 159 && p.path[0] == SLASH && p.path[|p.path| - 1] != BLANK
    && Some(p) == Finished(p.host, p.port, p.path, p.https)
  }

  /** The path source is empty, or starts with a stop byte and ends without a blank. */
  predicate SourceOk(src: bytes) {
    |src| > 0 && Stop(src[0]) && src[|src| - 1] != BLANK
  }

  lemma {:induction false} FinishedAccepted(host: bytes, port: nat, src: bytes, https: bool)
    requires Finished(host, port, src, https).Some? && SourceOk(src) && port <= 65535
    requires forall k :: 0 <= k < |host| ==> !Stop(host[k]) && host[k] != COLON
    ensures Accepted(Finished(host, port, src, https).value)
  {
    hide Ipv4Of, HostHeader;
  }

  lemma {:induction false} HostPortPathAccepted(rest: bytes, https: bool)
    requires HostPortPath(rest, https).Some? && (rest != [] ==> rest[|rest| - 1] != BLANK)
    ensures Accepted(HostPortPath(rest, https).value)
  {
    hide Finished, Accepted, NumberOf;
    var end := EndAt(rest, 0, true);
    if end < |rest| && rest[end] == COLON {
      var stop := EndAt(rest, end + 1, false);
      FinishedAccepted(rest[..end], PortOf(rest[end + 1..stop]).value, if stop == |rest| then [SLASH] else rest[stop..], https);
    } else {
      FinishedAccepted(rest[..end], DefaultPort(https), if end == |rest| then [SLASH] else rest[end..], https);
    }
  }

  lemma {:induction false} EndAtIs(s: bytes, i: nat, end: nat, colon: bool)
    requires i <= end <= |s| && forall k :: i <= k < end ==> !Stop(s[k]) && (colon ==> s[k] != COLON)
    requires end < |s| ==> Stop(s[end]) || (colon && s[end] == COLON)
    ensures EndAt(s, i, colon) == end
    decreases end - i
  {
    if i < end {
      EndAtIs(s, i + 1, end, colon);
    }
  }

  lemma {:induction false} NoStopInDigits(n: nat)
    ensures forall k :: 0 <= k < |Decimal(n)| ==> !Stop(Decimal(n)[k])
  {
    forall k | 0 <= k < |Decimal(n)| ensures !Stop(Decimal(n)[k]) {
      assert Digit(Decimal(n)[k]);
    }
  }

  lemma {:induction false} HostReadsBack(p: Parsed)
    requires Accepted(p) && p.port == DefaultPort(p.https)
    ensures HostPortPath(p.header + p.path, p.https) == Some(p)
  {
    hide Finished, Decimal, NumberOf;
    var s := p.header + p.path;
    EndAtIs(s, 0, |p.host|, true);
    assert s[..|p.host|] == p.host && s[|p.host|..] == p.path;
  }

  /** Where host, colon, port and path lie. */
  lemma {:induction false} PortLayout(p: Parsed)
    requires Accepted(p) && p.port != DefaultPort(p.https)
    ensures var s, d, h := p.header + p.path, Decimal(p.port), |p.host|;
            && |s| > h + 1 + |d| && s[..h] == p.host && s[h] == 58 && s[h + 1..h + 1 + |d|] == d
            && s[h + 1 + |d|..] == p.path && s[h + 1 + |d|] == p.path[0]
  {
    hide Finished, Decimal, NumberOf;
  }

  lemma {:induction false} PortReadsBack(p: Parsed)
    requires Accepted(p) && p.port != DefaultPort(p.https)
    ensures HostPortPath(p.header + p.path, p.https) == Some(p)
  {
    hide Finished, Decimal, NumberOf;
    var s, d, h := p.header + p.path, Decimal(p.port), |p.host|;
    PortLayout(p);
    EndAtIs(s, 0, h, true);
    NoStopInDigits(p.port);
    forall k | h + 1 <= k < h + 1 + |d| ensures !Stop(s[k]) {
      assert s[k] == s[h + 1..h + 1 + |d|][k - h - 1];
    }
    EndAtIs(s, h + 1, h + 1 + |d|, false);
    DecimalReadsBack(p.port, 65535);
  }

  /** Header and path are taken apart where they were joined. */
  lemma {:induction false} PartsReadBack(p: Parsed)
    requires Accepted(p)
    ensures HostPortPath(p.header + p.path, p.https) == Some(p)
  {
    hide Accepted, HostPortPath;
    if p.port == DefaultPort(p.https) {
      HostReadsBack(p);
    } else {
      PortReadsBack(p);
    }
  }

  lemma {:induction false} NothingToTrim(s: bytes)
    requires |s| > 0 && s[0] != BLANK && s[|s| - 1] != BLANK
    ensures Trimmed(s) == s
  {
  }

  lemma {:induction false} SchemeReadsBack(p: Parsed)
    requires Accepted(p)
    ensures FetchUrl(Normal(p)) == HostPortPath(p.header + p.path, p.https)
  {
    hide HostPortPath, HostHeader, Finished;
    var scheme := if p.https then HTTPS else HTTP;
    var url := Normal(p);
    assert url[|url| - 1] == p.path[|p.path| - 1];
    NothingToTrim(url);
    assert url[..|scheme|] == scheme && url[|scheme|..] == p.header + p.path;
    forall i | 0 <= i < |scheme| ensures LowerCase(url[i]) == scheme[i] {
      assert url[i] == url[..|scheme|][i];
    }
    if !p.https {
      assert url[4] == HTTP[4] == COLON;
    }
  }

  /** Parsing has a stable normal form: an accepted URL, written back as scheme, Host header and path, parses
      to the same result. */
  lemma {:induction false} NormalForm(url: bytes)
    requires FetchUrl(url).Some?
    ensures Accepted(FetchUrl(url).value)
    ensures FetchUrl(Normal(FetchUrl(url).value)) == FetchUrl(url)
  {
    hide HostPortPath, Accepted, Trimmed;
    var t := Trimmed(url);
    if StartsWith(t, HTTPS) {
      HostPortPathAccepted(t[|HTTPS|..], true);
    } else {
      HostPortPathAccepted(t[|HTTP|..], false);
    }
    var p := FetchUrl(url).value;
    SchemeReadsBack(p);
    PartsReadBack(p);
  }
}
