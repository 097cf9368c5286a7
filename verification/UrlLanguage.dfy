/** Which texts are URLs for the fetcher, and what they mean (kernel/src/url.rs:20-260): scheme, host, port and tail, put
    together in every way that is accepted. */
module UrlLanguage {
  import opened Bytes
  import opened Characters
  import opened Url
  import DnsCodec

  // ----- numbers

  lemma {:induction false} NumberStep(s: bytes, k: nat, max: nat)
    requires k < |s|
    ensures NumberOf(s, k + 1, max) ==
      match NumberOf(s, k, max)
      case None => None
      case Some(v) => if Digit(s[k]) && v * 10 + (s[k] - 48) as nat <= max then Some(v * 10 + (s[k] - 48) as nat) else None
  {
  }

  lemma {:induction false} DecimalStep(s: bytes, k: nat, n: nat)
    requires k < |s|
    ensures WritesDecimal(s[..k + 1], n) == (IsDecimal(s[k], n % 10) && WritesDecimal(s[..k], n / 10))
  {
    assert s[..k + 1][..k] == s[..k];
  }

  /** A number that is read is written by its digits. */
  lemma {:induction false} NumberWrites(s: bytes, k: nat, max: nat)
    requires k <= |s| && NumberOf(s, k, max).Some?
    ensures WritesDecimal(s[..k], NumberOf(s, k, max).value)
  {
    hide NumberOf, WritesDecimal, IsDecimal;
    if k > 0 {
      NumberStep(s, k - 1, max);
      NumberWrites(s, k - 1, max);
      var v, d := NumberOf(s, k - 1, max).value, s[k - 1] - 48;
      DecimalPlace(s[k - 1], d);
      DecimalStep(s, k - 1, v * 10 + d);
    } else {
      NoDigits(s, max);
    }
  }

  lemma {:induction false} NoDigits(s: bytes, max: nat)
    ensures NumberOf(s, 0, max) == Some(0) && WritesDecimal(s[..0], 0)
  {
  }

  /** A number that is not too large is read from its digits. */
  lemma {:induction false} WritesNumber(s: bytes, k: nat, n: nat, max: nat)
    requires k <= |s| && WritesDecimal(s[..k], n) && n <= max
    ensures NumberOf(s, k, max) == Some(n)
  {
    hide NumberOf, IsDecimal;
    if k > 0 {
      DecimalStep(s, k - 1, n);
      WritesNumber(s, k - 1, n / 10, max);
      NumberStep(s, k - 1, max);
      DecimalPlace(s[k - 1], n % 10);
    } else {
      NoDigits(s, max);
    }
  }

  /** A number is read if and only if its digits write it and it is not too large. */
  lemma {:induction false} WholeNumber(s: bytes, n: nat, max: nat)
    ensures NumberOf(s, |s|, max) == Some(n) <==> WritesDecimal(s, n) && n <= max
  {
    hide NumberOf, WritesDecimal;
    assert s[..|s|] == s;
    if NumberOf(s, |s|, max) == Some(n) {
      NumberWrites(s, |s|, max);
    }
    if WritesDecimal(s, n) && n <= max {
      WritesNumber(s, |s|, n, max);
    }
  }

  /** Printed numbers write the number, without zeros before it. */
  lemma {:induction false} PrintedNumber(n: nat)
    ensures WritesDecimal(Decimal(n), n) && (n > 0 ==> Decimal(n)[0] as char != '0') && (n == 0 ==> |Decimal(n)| == 1)
  {
    DecimalPlace((48 + n % 10) as byte, n % 10);
    if n >= 10 {
      PrintedNumber(n / 10);
      assert Decimal(n)[..|Decimal(n)| - 1] == Decimal(n / 10);
    } else {
      assert Decimal(n)[..0] == [];
    }
  }

  // ----- addresses

  /** One to three digits that write n. */
  predicate OctetText(s: bytes, n: nat) {
    1 <= |s| <= 3 && WritesDecimal(s, n)
  }

  /** Four octets between dots. */
  predicate QuadText(host: bytes, a: bytes, b: bytes, c: bytes, d: bytes, ip: bytes)
    requires |ip| == 4
  {
    && host == a + ([DOT] + (b + ([DOT] + (c + ([DOT] + d)))))
    && OctetText(a, ip[0]) && OctetText(b, ip[1]) && OctetText(c, ip[2]) && OctetText(d, ip[3])
  }

  lemma {:induction false} OctetLanguage(s: bytes, n: nat)
    ensures U8Of(s) == Some(n) <==> OctetText(s, n) && n < 256
  {
    WholeNumber(s, n, 255);
  }

  lemma {:induction false} DigitsHaveNoDot(s: bytes, n: nat)
    requires WritesDecimal(s, n)
    ensures forall k :: 0 <= k < |s| ==> s[k] != DOT
  {
    if s != [] {
      DigitsHaveNoDot(s[..|s| - 1], n / 10);
      DecimalPlace(s[|s| - 1], n % 10);
      forall k | 0 <= k < |s| ensures s[k] != DOT {
        assert k < |s| - 1 ==> s[k] == s[..|s| - 1][k];
      }
    }
  }

  lemma {:induction false} FourLabels(host: bytes, a: bytes, b: bytes, c: bytes, d: bytes)
    requires host == a + ([DOT] + (b + ([DOT] + (c + ([DOT] + d)))))
    requires forall k :: 0 <= k < |a| ==> a[k] != DOT
    requires forall k :: 0 <= k < |b| ==> b[k] != DOT
    requires forall k :: 0 <= k < |c| ==> c[k] != DOT
    requires forall k :: 0 <= k < |d| ==> d[k] != DOT
    ensures DnsCodec.Labels(host) == [a, b, c, d]
  {
    hide DnsCodec.SplitFrom;
    var i, j, k := |a| + 1, |a| + |b| + 2, |a| + |b| + |c| + 3;
    assert host[0..] == a + [DOT] + (b + ([DOT] + (c + ([DOT] + d))));
    SplitAtDot(host, 0, 0, a, b + ([DOT] + (c + ([DOT] + d))));
    assert host[i..] == b + [DOT] + (c + ([DOT] + d));
    SplitAtDot(host, i, i, b, c + ([DOT] + d));
    assert host[j..] == c + [DOT] + d;
    SplitAtDot(host, j, j, c, d);
    assert host[k..] == d;
    forall n | k <= n < |host| ensures host[n] != DOT {
      assert host[n] == host[k..][n - k];
    }
    SplitAtEnd(host, k, k);
  }

  /** A host is the address ip if and only if it is written as four octets between dots. */
  lemma {:induction false} QuadLanguage(host: bytes, ip: bytes)
    requires |ip| == 4
    ensures Ipv4Of(host) == Some(ip) <==> exists a, b, c, d :: QuadText(host, a, b, c, d, ip)
  {
    hide DnsCodec.Labels, U8Of, WritesDecimal;
    if Ipv4Of(host) == Some(ip) {
      var l := DnsCodec.Labels(host);
      OctetLanguage(l[0], ip[0]);
      OctetLanguage(l[1], ip[1]);
      OctetLanguage(l[2], ip[2]);
      OctetLanguage(l[3], ip[3]);
      JoinedLabels(host);
      assert QuadText(host, l[0], l[1], l[2], l[3], ip);
    }
    if exists a, b, c, d :: QuadText(host, a, b, c, d, ip) {
      var a, b, c, d :| QuadText(host, a, b, c, d, ip);
      DigitsHaveNoDot(a, ip[0]);
      DigitsHaveNoDot(b, ip[1]);
      DigitsHaveNoDot(c, ip[2]);
      DigitsHaveNoDot(d, ip[3]);
      FourLabels(host, a, b, c, d);
      OctetLanguage(a, ip[0]);
      OctetLanguage(b, ip[1]);
      OctetLanguage(c, ip[2]);
      OctetLanguage(d, ip[3]);
      assert ip == [ip[0], ip[1], ip[2], ip[3]];
    }
  }

  lemma {:induction false} JoinedLabels(host: bytes)
    requires |DnsCodec.Labels(host)| == 4
    ensures var l := DnsCodec.Labels(host); host == l[0] + ([DOT] + (l[1] + ([DOT] + (l[2] + ([DOT] + l[3])))))
  {
    var l := DnsCodec.Labels(host);
    DnsCodec.JoinSplit(host, 0, 0);
    assert host[0..] == host;
    JoinFour(l);
  }

  lemma {:induction false} JoinFour(l: seq<bytes>)
    requires |l| == 4
    ensures DnsCodec.Join(l) == l[0] + ([DOT] + (l[1] + ([DOT] + (l[2] + ([DOT] + l[3])))))
  {
    var m, n, o := l[1..], l[2..], l[3..];
    assert m[1..] == n && n[1..] == o;
    assert DnsCodec.Join(o) == l[3];
    assert DnsCodec.Join(n) == l[2] + [DOT] + l[3];
    assert DnsCodec.Join(m) == l[1] + [DOT] + (l[2] + [DOT] + l[3]);
    assert DnsCodec.Join(l) == l[0] + [DOT] + (l[1] + [DOT] + (l[2] + [DOT] + l[3]));
  }

  // ----- the parts of a URL

  /** Scheme, host, the text behind a colon, and the rest from the first slash, question mark or number sign on. */
  datatype Parts = Parts(scheme: bytes, host: bytes, port: Option<bytes>, tail: bytes) {
    function Text(): bytes {
      scheme + (host + ((if port.Some? then [COLON] + port.value else []) + tail))
    }
  }

  predicate TailStart(b: byte) {
    b as char == '/' || b as char == '?' || b as char == '#'
  }

  const SCHEME: string := "http://"
  const SECURE_SCHEME: string := "https://"

  /** The scheme, with its letters in either case. */
  ghost predicate IsScheme(s: bytes, https: bool) {
    var name := if https then SECURE_SCHEME else SCHEME;
    |s| == |name| && forall k :: 0 <= k < |s| ==> 0 <= name[k] as int < 256 && SameLetter(s[k], name[k] as int)
  }

  ghost predicate PartsOk(u: Parts, https: bool) {
    && IsScheme(u.scheme, https)
    && (forall k :: 0 <= k < |u.host| ==> !TailStart(u.host[k]) && u.host[k] as char != ':')
    && (u.port.Some? ==> forall k :: 0 <= k < |u.port.value| ==> !TailStart(u.port.value[k]))
    && (u.tail != [] ==> TailStart(u.tail[0]))
    && u.Text()[|u.Text()| - 1] as char != ' '
  }

  /** What the parts mean: the default port is 443 or 80, and only another one is in the Host header; the path starts with a
      slash; a host that is no address needs DNS. */
  predicate Means(u: Parts, https: bool, p: Parsed) {
    var standard := if https then 443 else 80;
    && p.https == https && p.host == u.host && 0 < |u.host| <= 95
    && (if u.port.Some? then u.port.value != [] && WritesDecimal(u.port.value, p.port) && p.port <= 65535 else p.port == standard)
    && p.header == (if p.port == standard then u.host else u.host + [58] + Decimal(p.port))
    && (p.port != standard ==> |p.header| <= 95)
    && p.path == (if u.tail != [] && u.tail[0] as char == '/' then u.tail else [47] + u.tail)
    && |p.path| <= 159
    && p.ip == (if Ipv4Of(u.host).Some? then Ipv4Of(u.host).value else [0, 0, 0, 0])
    && p.needsDns == (p.ip == [0, 0, 0, 0])
  }

  /** Text between blanks. */
  function Blanks(n: nat): (s: bytes)
    ensures |s| == n && forall k :: 0 <= k < n ==> s[k] as char == ' '
  {
    seq(n, _ => 32)
  }

  // ----- taking the parts apart

  lemma {:induction false} TrimsLeft(n: nat, s: bytes)
    requires s != [] && s[0] != BLANK
    ensures TrimLeft(Blanks(n) + s) == s
  {
    if n == 0 {
      assert Blanks(0) + s == s;
    } else {
      assert (Blanks(n) + s)[1..] == Blanks(n - 1) + s;
      TrimsLeft(n - 1, s);
    }
  }

  lemma {:induction false} TrimsRight(s: bytes, n: nat)
    requires s != [] && s[|s| - 1] != BLANK
    ensures TrimRight(s + Blanks(n)) == s
  {
    if n == 0 {
      assert s + Blanks(0) == s;
    } else {
      assert (s + Blanks(n))[..|s| + n - 1] == s + Blanks(n - 1);
      TrimsRight(s, n - 1);
    }
  }

  lemma {:induction false} Trims(left: nat, s: bytes, right: nat)
    requires s != [] && s[0] != BLANK && s[|s| - 1] != BLANK
    ensures Trimmed(Blanks(left) + s + Blanks(right)) == s
  {
    assert Blanks(left) + s + Blanks(right) == Blanks(left) + (s + Blanks(right));
    TrimsLeft(left, s + Blanks(right));
    TrimsRight(s, right);
  }

  lemma {:induction false} SchemeBytes()
    ensures |SCHEME| == |HTTP| && |SECURE_SCHEME| == |HTTPS|
    ensures forall k :: 0 <= k < |HTTP| ==> SCHEME[k] as int == HTTP[k] == LowerCase(HTTP[k])
    ensures forall k :: 0 <= k < |HTTPS| ==> SECURE_SCHEME[k] as int == HTTPS[k] == LowerCase(HTTPS[k])
  {
  }

  /** A text starts with the prefix that the scheme is compared with if and only if it starts with the scheme. */
  lemma {:induction false} PrefixIsScheme(url: bytes, https: bool)
    ensures var prefix := if https then HTTPS else HTTP;
            StartsWith(url, prefix) <==> |prefix| <= |url| && IsScheme(url[..|prefix|], https)
  {
    hide LowerCase, SameLetter;
    SchemeBytes();
    var prefix := if https then HTTPS else HTTP;
    if |prefix| <= |url| {
      forall k | 0 <= k < |prefix| ensures LowerCase(url[k]) == prefix[k] <==> SameLetter(url[k], prefix[k]) {
        SameLowerCase(url[k], prefix[k]);
      }
      assert forall k :: 0 <= k < |prefix| ==> url[..|prefix|][k] == url[k];
    }
  }

  lemma {:induction false} SchemesDiffer(url: bytes)
    ensures !(StartsWith(url, HTTP) && StartsWith(url, HTTPS))
  {
    if StartsWith(url, HTTPS) {
      assert LowerCase(url[4]) == HTTPS[4] != HTTP[4];
    }
  }

  lemma {:induction false} StopsAreTails(b: byte)
    ensures Stop(b) == TailStart(b) && (b == COLON <==> b as char == ':') && (b == BLANK <==> b as char == ' ')
  {
  }

  lemma {:induction false} HostEnds(host: bytes, more: bytes)
    requires forall k :: 0 <= k < |host| ==> !TailStart(host[k]) && host[k] as char != ':'
    requires more == [] || more[0] == COLON || TailStart(more[0])
    ensures EndAt(host + more, 0, true) == |host| && (host + more)[..|host|] == host && (host + more)[|host|..] == more
  {
    var s := host + more;
    forall k | 0 <= k < |host| ensures !Stop(s[k]) && s[k] != COLON {
      StopsAreTails(host[k]);
    }
    if more != [] {
      StopsAreTails(more[0]);
    }
    EndAtIs(s, 0, |host|, true);
  }

  lemma {:induction false} PortEnds(host: bytes, digits: bytes, tail: bytes)
    requires forall k :: 0 <= k < |digits| ==> !TailStart(digits[k])
    requires tail == [] || TailStart(tail[0])
    ensures var s, n := host + ([COLON] + digits + tail), |host| + 1;
            && s[|host|] == COLON && EndAt(s, n, false) == n + |digits| && s[n..n + |digits|] == digits && s[n + |digits|..] == tail
  {
    var s, n := host + ([COLON] + digits + tail), |host| + 1;
    forall k | n <= k < n + |digits| ensures !Stop(s[k]) {
      assert s[k] == digits[k - n];
      StopsAreTails(digits[k - n]);
    }
    if tail != [] {
      StopsAreTails(tail[0]);
    }
    EndAtIs(s, n, n + |digits|, false);
  }

  /** Host, port and tail are found where they are. */
  lemma {:induction false} RestParts(u: Parts, https: bool, p: Parsed)
    requires PartsOk(u, https)
    ensures HostPortPath(u.host + ((if u.port.Some? then [COLON] + u.port.value else []) + u.tail), https) == Some(p) <==> Means(u, https, p)
  {
    if u.port.Some? {
      PortParts(u, https, p);
    } else {
      NoPortParts(u, https, p);
    }
  }

  lemma {:induction false} NoPortParts(u: Parts, https: bool, p: Parsed)
    requires PartsOk(u, https) && u.port.None?
    ensures HostPortPath(u.host + ([] + u.tail), https) == Some(p) <==> Means(u, https, p)
  {
    hide WritesDecimal, Finished, IsScheme, EndAt, Means, HostPortPath, Parts.Text;
    assert [] + u.tail == u.tail;
    HostEnds(u.host, u.tail);
    if u.tail != [] {
      StopsAreTails(u.tail[0]);
    }
    NoPortRead(u.host, u.tail, https);
    FinishedMeans(u, https, DefaultPort(https), if u.tail == [] then [SLASH] else u.tail, p);
    if Means(u, https, p) {
      StandardPort(u, https, p);
    }
  }

  lemma {:induction false} NoPortRead(host: bytes, tail: bytes, https: bool)
    requires EndAt(host + tail, 0, true) == |host| && (tail != [] ==> tail[0] != COLON)
    ensures HostPortPath(host + tail, https) == Finished(host, DefaultPort(https), if tail == [] then [SLASH] else tail, https)
  {
    hide Finished, EndAt;
    var rest := host + tail;
    assert rest[..|host|] == host && rest[|host|..] == tail;
  }

  lemma {:induction false} StandardPort(u: Parts, https: bool, p: Parsed)
    requires u.port.None? && Means(u, https, p)
    ensures p.port == DefaultPort(https)
  {
  }

  lemma {:induction false} PortParts(u: Parts, https: bool, p: Parsed)
    requires PartsOk(u, https) && u.port.Some?
    ensures HostPortPath(u.host + ([COLON] + u.port.value + u.tail), https) == Some(p) <==> Means(u, https, p)
  {
    hide WritesDecimal, Finished, PortOf, IsScheme, EndAt, Means;
    var digits := u.port.value;
    var rest := u.host + ([COLON] + digits + u.tail);
    HostEnds(u.host, [COLON] + digits + u.tail);
    PortEnds(u.host, digits, u.tail);
    GivenPort(u, https, p);
    PortMeans(digits, p.port);
    if PortOf(digits).Some? {
      PortMeans(digits, PortOf(digits).value);
      FinishedMeans(u, https, PortOf(digits).value, if u.tail == [] then [SLASH] else u.tail, p);
    }
  }

  lemma {:induction false} GivenPort(u: Parts, https: bool, p: Parsed)
    requires u.port.Some?
    ensures Means(u, https, p) ==> u.port.value != [] && WritesDecimal(u.port.value, p.port) && p.port <= 65535
  {
    hide WritesDecimal;
  }

  lemma {:induction false} PortMeans(digits: bytes, n: nat)
    ensures PortOf(digits) == Some(n) <==> digits != [] && WritesDecimal(digits, n) && n <= 65535
  {
    WholeNumber(digits, n, 65535);
  }

  /** The last step of parsing, with the port known. */
  lemma {:induction false} FinishedMeans(u: Parts, https: bool, port: nat, src: bytes, p: Parsed)
    requires src == (if u.tail == [] then [SLASH] else u.tail) && (u.tail != [] ==> TailStart(u.tail[0]))
    requires if u.port.Some? then u.port.value != [] && WritesDecimal(u.port.value, port) && port <= 65535 else port == DefaultPort(https)
    ensures Finished(u.host, port, src, https) == Some(p) <==> Means(u, https, p) && p.port == port
  {
    hide WritesDecimal, Ipv4Of, Decimal;
    if u.tail != [] {
      StopsAreTails(u.tail[0]);
    }
    assert Zeros(4) == [0, 0, 0, 0];
    assert [47] + [] == [47];
  }

  // ----- whole URLs

  lemma {:induction false} TextStarts(u: Parts, https: bool)
    requires PartsOk(u, https)
    ensures var t, rest := u.Text(), u.host + ((if u.port.Some? then [COLON] + u.port.value else []) + u.tail);
            && t != [] && t[0] != BLANK && t[|t| - 1] != BLANK
            && StartsWith(t, HTTPS) == https && StartsWith(t, HTTP) == !https
            && t[if https then |HTTPS| else |HTTP|..] == rest
  {
    hide LowerCase, SameLetter;
    SchemeBytes();
    var t, n := u.Text(), |u.scheme|;
    assert t[..n] == u.scheme;
    PrefixIsScheme(t, https);
    SchemesDiffer(t);
    SameLowerCase(u.scheme[0], 104);
    LowerH(u.scheme[0]);
    assert t[0] == u.scheme[0] && SameLetter(u.scheme[0], 104);
    StopsAreTails(t[|t| - 1]);
  }

  lemma {:induction false} LowerH(b: byte)
    requires LowerCase(b) == LowerCase(104)
    ensures b != BLANK
  {
  }

  /** A text made of these parts, with blanks around it, is accepted with the result p if and only if p is what the parts
      mean. */
  lemma {:induction false} UrlMeans(left: nat, u: Parts, right: nat, https: bool, p: Parsed)
    requires PartsOk(u, https)
    ensures FetchUrl(Blanks(left) + u.Text() + Blanks(right)) == Some(p) <==> Means(u, https, p)
  {
    hide PartsOk, Means, HostPortPath, Trimmed, StartsWith, Parts.Text;
    TextStarts(u, https);
    Trims(left, u.Text(), right);
    RestParts(u, https, p);
  }

  lemma {:induction false} LeftBlanks(s: bytes) returns (n: nat)
    ensures s == Blanks(n) + TrimLeft(s)
  {
    if s != [] && s[0] == BLANK {
      var m := LeftBlanks(s[1..]);
      n := m + 1;
      assert Blanks(n) == [s[0]] + Blanks(m);
      assert s == [s[0]] + s[1..];
    } else {
      n := 0;
    }
  }

  lemma {:induction false} RightBlanks(s: bytes) returns (n: nat)
    ensures s == TrimRight(s) + Blanks(n)
  {
    if s != [] && s[|s| - 1] == BLANK {
      var m := RightBlanks(s[..|s| - 1]);
      n := m + 1;
      assert Blanks(n) == Blanks(m) + [s[|s| - 1]];
      assert s == s[..|s| - 1] + [s[|s| - 1]];
    } else {
      n := 0;
    }
  }

  lemma {:induction false} HostBytes(rest: bytes, end: nat)
    requires end <= |rest| && forall k :: 0 <= k < end ==> !Stop(rest[k]) && rest[k] != COLON
    ensures forall k :: 0 <= k < end ==> !TailStart(rest[..end][k]) && rest[..end][k] as char != ':'
  {
    forall k | 0 <= k < end ensures !TailStart(rest[..end][k]) && rest[..end][k] as char != ':' {
      StopsAreTails(rest[k]);
    }
  }

  /** What stands behind a colon. */
  lemma {:induction false} PortText(rest: bytes, n: nat) returns (port: bytes, tail: bytes)
    requires n <= |rest|
    ensures rest[n..] == port + tail && (tail != [] ==> TailStart(tail[0]))
    ensures forall k :: 0 <= k < |port| ==> !TailStart(port[k])
  {
    hide EndAt;
    var stop := EndAt(rest, n, false);
    port, tail := rest[n..stop], rest[stop..];
    forall k | 0 <= k < |port| ensures !TailStart(port[k]) {
      StopsAreTails(rest[n + k]);
    }
    if tail != [] {
      StopsAreTails(tail[0]);
    }
  }

  /** Everything behind a scheme has these parts. */
  lemma {:induction false} AnyRest(rest: bytes) returns (host: bytes, port: Option<bytes>, tail: bytes)
    ensures rest == host + ((if port.Some? then [COLON] + port.value else []) + tail)
    ensures forall k :: 0 <= k < |host| ==> !TailStart(host[k]) && host[k] as char != ':'
    ensures port.Some? ==> forall k :: 0 <= k < |port.value| ==> !TailStart(port.value[k])
    ensures tail != [] ==> TailStart(tail[0])
  {
    hide EndAt, TailStart;
    var end := EndAt(rest, 0, true);
    host := rest[..end];
    HostBytes(rest, end);
    assert rest == rest[..end] + rest[end..];
    if end < |rest| && rest[end] == COLON {
      var text;
      text, tail := PortText(rest, end + 1);
      port := Some(text);
      assert rest[end..] == [COLON] + rest[end + 1..];
      assert [COLON] + (text + tail) == [COLON] + text + tail;
    } else {
      port, tail := None, rest[end..];
      assert [] + tail == tail;
      if tail != [] {
        StopsAreTails(tail[0]);
      }
    }
  }

  /** Every accepted text is made of such parts. */
  lemma {:induction false} UrlParts(url: bytes) returns (left: nat, u: Parts, right: nat, https: bool)
    requires FetchUrl(url).Some?
    ensures PartsOk(u, https) && url == Blanks(left) + u.Text() + Blanks(right)
  {
    hide HostPortPath, StartsWith, TrimLeft, TrimRight, IsScheme;
    left := LeftBlanks(url);
    right := RightBlanks(TrimLeft(url));
    var t := Trimmed(url);
    https := StartsWith(t, HTTPS);
    PrefixIsScheme(t, https);
    var n := if https then |HTTPS| else |HTTP|;
    var host, port, tail := AnyRest(t[n..]);
    u := Parts(t[..n], host, port, tail);
    assert u.Text() == t[..n] + t[n..] == t;
    StopsAreTails(t[|t| - 1]);
    assert Blanks(left) + (t + Blanks(right)) == Blanks(left) + t + Blanks(right);
  }
}
