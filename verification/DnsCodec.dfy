/** DNS names and replies (kernel/src/net.rs:1947-2002 and 2240-2270; RFC 1035 sections 3.1 and 4.1). */
module DnsCodec {
  import opened Bytes

  const DOT: byte := 46
  const MAX_HOST := 200

  // ----- host names and labels

  /** The parts between the dots of s[start..], of which s[start..i] has been looked at. */
  function SplitFrom(s: bytes, start: nat, i: nat): (labels: seq<bytes>)
    requires start <= i <= |s|
    ensures |labels| > 0
    decreases |s| - i
  {
    if i == |s| then [s[start..]]
    else if s[i] == DOT then [s[start..i]] + SplitFrom(s, i + 1, i + 1)
    else SplitFrom(s, start, i + 1)
  }

  function Labels(host: bytes): seq<bytes> {
    SplitFrom(host, 0, 0)
  }

  function Join(labels: seq<bytes>): bytes
    requires |labels| > 0
  {
    if |labels| == 1 then labels[0] else labels[0] + [DOT] + Join(labels[1..])
  }

  predicate LabelOk(part: bytes) {
    0 < |part| < 64
  }

  predicate LabelsOk(labels: seq<bytes>) {
    forall k :: 0 <= k < |labels| ==> LabelOk(labels[k])
  }

  /** Length-prefixed labels, without the final zero. */
  function Wire(labels: seq<bytes>): bytes
    requires LabelsOk(labels)
  {
    if labels == [] then [] else assert LabelOk(labels[0]); [|labels[0]|] + labels[0] + Wire(labels[1..])
  }

  /** The names a fetch can ask for. */
  predicate Encodable(host: bytes, room: nat) {
    0 < |host| <= MAX_HOST && LabelsOk(Labels(host)) && |host| + 2 <= room
  }

  lemma {:induction false} JoinSplit(s: bytes, start: nat, i: nat)
    requires start <= i <= |s|
    ensures Join(SplitFrom(s, start, i)) == s[start..]
    decreases |s| - i
  {
    if i < |s| {
      if s[i] == DOT {
        JoinSplit(s, i + 1, i + 1);
        var rest := SplitFrom(s, i + 1, i + 1);
        assert SplitFrom(s, start, i)[1..] == rest;
        assert s[start..] == s[start..i] + [DOT] + s[i + 1..];
      } else {
        JoinSplit(s, start, i + 1);
      }
    }
  }

  /** A name takes one byte more on the wire than as text, without the final zero. */
  lemma {:induction false} WireLength(labels: seq<bytes>)
    requires |labels| > 0 && LabelsOk(labels)
    ensures |Wire(labels)| == |Join(labels)| + 1
    decreases labels
  {
    assert LabelOk(labels[0]);
    if |labels| > 1 {
      WireLength(labels[1..]);
    } else {
      assert labels[1..] == [];
    }
  }

  lemma {:induction false} WireAppend(labels: seq<bytes>, part: bytes)
    requires LabelsOk(labels) && LabelOk(part)
    ensures LabelsOk(labels + [part]) && Wire(labels + [part]) == Wire(labels) + ([|part|] + part)
    decreases labels
  {
    if labels == [] {
      assert labels + [part] == [part] + [];
      WireFirst(part, []);
    } else {
      var first, rest := labels[0], labels[1..];
      assert LabelOk(first);
      WireAppend(rest, part);
      assert labels + [part] == [first] + (rest + [part]) && labels == [first] + rest;
      hide Wire, LabelsOk;
      WireFirst(first, rest + [part]);
      WireFirst(first, rest);
      assert [|first|] + first + (Wire(rest) + ([|part|] + part)) == [|first|] + first + Wire(rest) + ([|part|] + part);
    }
  }

  lemma {:induction false} WireFirst(first: bytes, rest: seq<bytes>)
    requires LabelOk(first) && LabelsOk(rest)
    ensures LabelsOk([first] + rest) && Wire([first] + rest) == [|first|] + first + Wire(rest)
  {
    assert ([first] + rest)[1..] == rest;
  }

  /** One step of looking for the dots. */
  lemma {:induction false} SplitStep(s: bytes, start: nat, i: nat)
    requires start <= i < |s|
    ensures SplitFrom(s, start, i) == if s[i] == DOT then [s[start..i]] + SplitFrom(s, i + 1, i + 1) else SplitFrom(s, start, i + 1)
  {
  }

  lemma {:induction false} SplitEnd(s: bytes, start: nat)
    requires start <= |s|
    ensures SplitFrom(s, start, |s|) == [s[start..]]
  {
  }

  /** encode_dns_qname into a buffer of `room` bytes: exactly the names of one to 63-byte labels that fit
      are encoded, label by label. */
  method EncodeDnsQname(host: bytes, room: nat) returns (out: Option<bytes>)
    ensures out.Some? <==> Encodable(host, room)
    ensures out.Some? ==> out.value == Wire(Labels(host)) + [0]
  {
    assert Wire([]) == [];
    hide Wire, SplitFrom;
    if |host| == 0 || |host| > MAX_HOST {
      return None;
    }
    var buf: bytes, start := [], 0;
    ghost var seen: seq<bytes> := [];
    for i := 0 to |host|
      invariant start <= i && |buf| == start
      invariant Labels(host) == seen + SplitFrom(host, start, i)
      invariant LabelsOk(seen) && buf == Wire(seen)
    {
      SplitStep(host, start, i);
      if host[i] == DOT {
        var lab := i - start;
        if lab == 0 || lab > 63 || |buf| + 1 + lab > room {
          assert Labels(host)[|seen|] == host[start..i];
          return None;
        }
        WireAppend(seen, host[start..i]);
        assert seen + ([host[start..i]] + SplitFrom(host, i + 1, i + 1)) == seen + [host[start..i]] + SplitFrom(host, i + 1, i + 1);
        seen := seen + [host[start..i]];
        buf := buf + ([lab as byte] + host[start..i]);
        start := i + 1;
      }
    }
    var lab := |host| - start;
    SplitEnd(host, start);
    assert Labels(host)[|seen|] == host[start..];
    if lab == 0 || lab > 63 || |buf| + 1 + lab + 1 > room {
      return None;
    }
    WireAppend(seen, host[start..]);
    buf := buf + ([lab as byte] + host[start..]) + [0];
    return Some(buf);
  }

  // ----- reading names back

  /** What a resolver reads: labels up to the zero byte. */
  function ReadLabels(buf: bytes, i: nat): Option<seq<bytes>>
    decreases |buf| - i
  {
    if i >= |buf| then None
    else if buf[i] == 0 then Some([])
    else if buf[i] >= 64 || i + 1 + buf[i] > |buf| then None
    else
      match ReadLabels(buf, i + 1 + buf[i])
      case None => None
      case Some(rest) => Some([buf[i + 1..i + 1 + buf[i]]] + rest)
  }

  /** skip_dns_name; the two high bits mark a pointer, which ends the name. */
  function SkipName(buf: bytes, i: nat): Option<nat>
    decreases |buf| - i
  {
    if i >= |buf| then None
    else if buf[i] == 0 then Some(i + 1)
    else if buf[i] >= 192 then Some(i + 2)
    else if i + 1 + buf[i] > |buf| then None
    else SkipName(buf, i + 1 + buf[i])
  }

  method SkipDnsName(buf: bytes, i0: nat) returns (end: Option<nat>)
    ensures end == SkipName(buf, i0)
  {
    var i := i0;
    while true
      invariant SkipName(buf, i0) == SkipName(buf, i)
      decreases |buf| - i
    {
      if i >= |buf| {
        return None;
      }
      var len: nat := buf[i];
      if len == 0 {
        return Some(i + 1);
      }
      if len >= 192 {
        return Some(i + 2);
      }
      if i + 1 + len > |buf| {
        return None;
      }
      i := i + 1 + len;
    }
  }

  /** Labels in a buffer are skipped and read one by one. */
  lemma {:induction false} OverLabels(buf: bytes, i: nat, labels: seq<bytes>)
    requires LabelsOk(labels) && i + |Wire(labels)| <= |buf| && buf[i..i + |Wire(labels)|] == Wire(labels)
    ensures SkipName(buf, i) == SkipName(buf, i + |Wire(labels)|)
    ensures ReadLabels(buf, i) == Behind(labels, ReadLabels(buf, i + |Wire(labels)|))
    decreases labels
  {
    hide Behind;
    if labels == [] {
      BehindNothing(ReadLabels(buf, i));
    } else {
      var first, more := labels[0], Wire(labels[1..]);
      assert LabelOk(first) && |Wire(labels)| == 1 + |first| + |more|;
      FirstLabel(buf, i, first, more);
      OverLabels(buf, i + 1 + |first|, labels[1..]);
      BehindFirst(labels, ReadLabels(buf, i + |Wire(labels)|));
      OneLabel(buf, i, first);
    }
  }

  /** The labels in front of what is read behind them. */
  function Behind(labels: seq<bytes>, rest: Option<seq<bytes>>): Option<seq<bytes>> {
    if rest.Some? then Some(labels + rest.value) else None
  }

  lemma {:induction false} BehindNothing(rest: Option<seq<bytes>>)
    ensures Behind([], rest) == rest
  {
    assert rest.Some? ==> [] + rest.value == rest.value;
  }

  lemma {:induction false} BehindFirst(labels: seq<bytes>, rest: Option<seq<bytes>>)
    requires |labels| > 0
    ensures Behind(labels, rest) == Behind([labels[0]], Behind(labels[1..], rest))
  {
    assert rest.Some? ==> labels + rest.value == [labels[0]] + (labels[1..] + rest.value);
  }

  lemma {:induction false} OneLabel(buf: bytes, i: nat, first: bytes)
    requires LabelOk(first) && i + 1 + |first| <= |buf| && buf[i] == |first| && buf[i + 1..i + 1 + |first|] == first
    ensures ReadLabels(buf, i) == Behind([first], ReadLabels(buf, i + 1 + |first|))
    ensures SkipName(buf, i) == SkipName(buf, i + 1 + |first|)
  {
  }

  lemma {:induction false} FirstLabel(buf: bytes, i: nat, first: bytes, more: bytes)
    requires LabelOk(first) && i + 1 + |first| + |more| <= |buf|
    requires buf[i..i + 1 + |first| + |more|] == [|first|] + first + more
    ensures buf[i] == |first| && buf[i + 1..i + 1 + |first|] == first
    ensures buf[i + 1 + |first|..i + 1 + |first| + |more|] == more
  {
    var s := buf[i..i + 1 + |first| + |more|];
    assert s == [|first|] + first + more;
    assert buf[i] == s[0];
    SliceOfSlice(buf, i, |s|, 1, 1 + |first|);
    SliceOfSlice(buf, i, |s|, 1 + |first|, |s|);
    assert s[1..1 + |first|] == first && s[1 + |first|..|s|] == more;
  }

  /** An encoded name, anywhere in a message: its labels joined with dots are the host name, and skipping
      it lands exactly behind it. */
  lemma {:induction false} NameReadsBack(host: bytes, room: nat, before: bytes, after: bytes)
    requires Encodable(host, room)
    ensures var w := Wire(Labels(host)) + [0];
            var m := before + w + after;
            && ReadLabels(m, |before|) == Some(Labels(host)) && Join(Labels(host)) == host
            && SkipName(m, |before|) == Some(|before| + |w|) && |w| == |host| + 2
  {
    hide Wire, LabelsOk;
    var labels := Labels(host);
    var m := before + (Wire(labels) + [0]) + after;
    assert m[|before|..|before| + |Wire(labels)|] == Wire(labels);
    OverLabels(m, |before|, labels);
    assert m[|before| + |Wire(labels)|] == 0;
    assert ReadLabels(m, |before| + |Wire(labels)|) == Some([]);
    assert labels + [] == labels;
    JoinSplit(host, 0, 0);
    assert host[0..] == host;
    WireLength(labels);
  }

  // ----- replies

  const TYPE_A := 1

  function Word(buf: bytes, i: nat): (v: nat)
    requires i + 2 <= |buf|
  {
    256 * (buf[i] as nat) + buf[i + 1]
  }

  /** Behind n questions. */
  function SkipQuestions(buf: bytes, off: nat, n: nat): Option<nat>
    decreases n
  {
    if n == 0 then Some(off) else
    match SkipName(buf, off)
    case None => None
    case Some(o) => if o + 4 > |buf| then None else SkipQuestions(buf, o + 4, n - 1)
  }

  /** The first address among n records. */
  function FindA(buf: bytes, off: nat, n: nat): Option<bytes>
    decreases n
  {
    if n == 0 then None else
    match SkipName(buf, off)
    case None => None
    case Some(o) =>
      if o + 10 > |buf| then None else
      var rdlen := Word(buf, o + 8);
      if o + 10 + rdlen > |buf| then None
      else if Word(buf, o) == TYPE_A && rdlen == 4 then Some(buf[o + 10..o + 14])
      else FindA(buf, o + 10 + rdlen, n - 1)
  }

  function ParsedA(buf: bytes, expectedId: nat): Option<bytes> {
    if |buf| < 12 || Word(buf, 0) != expectedId then None else
    match SkipQuestions(buf, 12, Word(buf, 4))
    case None => None
    case Some(off) => FindA(buf, off, Word(buf, 6))
  }

  /** parse_dns_a */
  method ParseDnsA(buf: bytes, expectedId: nat) returns (ip: Option<bytes>)
    ensures ip == ParsedA(buf, expectedId)
  {
    hide SkipName;
    if |buf| < 12 {
      return None;
    }
    if Word(buf, 0) != expectedId {
      return None;
    }
    var qd, an := Word(buf, 4), Word(buf, 6);
    var off: nat := 12;
    for k := 0 to qd
      invariant SkipQuestions(buf, 12, qd) == SkipQuestions(buf, off, qd - k)
    {
      var o := SkipDnsName(buf, off);
      if o.None? || o.value + 4 > |buf| {
        return None;
      }
      off := o.value + 4;
    }
    ghost var first: nat := off;
    for k := 0 to an
      invariant FindA(buf, first, an) == FindA(buf, off, an - k)
    {
      var o := SkipDnsName(buf, off);
      if o.None? || o.value + 10 > |buf| {
        return None;
      }
      var typ, rdlen := Word(buf, o.value), Word(buf, o.value + 8);
      off := o.value + 10;
      if off + rdlen > |buf| {
        return None;
      }
      if typ == TYPE_A && rdlen == 4 {
        return Some(buf[off..off + 4]);
      }
      off := off + rdlen;
    }
    return None;
  }

  // ----- well-formed replies

  /** A name in a message: labels, ended by a zero byte or by a pointer to an earlier name. */
  datatype Name = Plain(labels: seq<bytes>) | Compressed(labels: seq<bytes>, hi: byte, lo: byte) {
    predicate Ok() {
      LabelsOk(labels) && (Compressed? ==> hi >= 192)
    }
  }

  function EncodeName(n: Name): bytes
    requires n.Ok()
  {
    Wire(n.labels) + match n case Plain(_) => [0] case Compressed(_, hi, lo) => [hi, lo]
  }

  datatype Question = Question(name: Name, rest: bytes) {
    predicate Ok() {
      name.Ok() && |rest| == 4
    }
  }

  datatype Record = Record(name: Name, typ: nat, classAndTtl: bytes, rdata: bytes) {
    predicate Ok() {
      name.Ok() && typ < 0x1_0000 && |classAndTtl| == 6 && |rdata| < 0x1_0000
    }
  }

  function EncodeRecord(r: Record): bytes
    requires r.Ok()
  {
    EncodeName(r.name) + (BE(r.typ, 2) + r.classAndTtl + BE(|r.rdata|, 2)) + r.rdata
  }

  ghost predicate QuestionsOk(qs: seq<Question>) {
    forall k :: 0 <= k < |qs| ==> qs[k].Ok()
  }

  ghost predicate RecordsOk(rs: seq<Record>) {
    forall k :: 0 <= k < |rs| ==> rs[k].Ok()
  }

  ghost function EncodeQuestions(qs: seq<Question>): bytes
    requires QuestionsOk(qs)
  {
    if qs == [] then [] else assert qs[0].Ok(); EncodeName(qs[0].name) + qs[0].rest + EncodeQuestions(qs[1..])
  }

  ghost function EncodeRecords(rs: seq<Record>): bytes
    requires RecordsOk(rs)
  {
    if rs == [] then [] else assert rs[0].Ok(); EncodeRecord(rs[0]) + EncodeRecords(rs[1..])
  }

  /** The first four-byte address record. */
  function FirstA(rs: seq<Record>): Option<bytes> {
    if rs == [] then None
    else if rs[0].typ == TYPE_A && |rs[0].rdata| == 4 then Some(rs[0].rdata)
    else FirstA(rs[1..])
  }

  /** A reply: header, questions, answers and whatever follows. */
  datatype Reply = Reply(id: nat, flags: bytes, questions: seq<Question>, answers: seq<Record>, otherCounts: bytes, tail: bytes) {
    ghost predicate Ok() {
      && id < 0x1_0000 && |flags| == 2 && |otherCounts| == 4
      && |questions| < 0x1_0000 && |answers| < 0x1_0000 && QuestionsOk(questions) && RecordsOk(answers)
    }
  }

  ghost function EncodeReply(r: Reply): bytes
    requires r.Ok()
  {
    BE(r.id, 2) + r.flags + BE(|r.questions|, 2) + BE(|r.answers|, 2) + r.otherCounts
    + EncodeQuestions(r.questions) + EncodeRecords(r.answers) + r.tail
  }

  // ----- parsing inverts encoding

  /** The message holds s at position i. */
  predicate Holds(buf: bytes, i: nat, s: bytes) {
    i + |s| <= |buf| && buf[i..i + |s|] == s
  }

  lemma {:induction false} HoldsParts(buf: bytes, i: nat, a: bytes, b: bytes)
    requires Holds(buf, i, a + b)
    ensures Holds(buf, i, a) && Holds(buf, i + |a|, b)
  {
    SliceOfSlice(buf, i, |a + b|, 0, |a|);
    SliceOfSlice(buf, i, |a + b|, |a|, |a + b|);
  }

  lemma {:induction false} WordAt(buf: bytes, i: nat, v: nat)
    requires v < 0x1_0000 && Holds(buf, i, BE(v, 2))
    ensures Word(buf, i) == v
  {
    var s := BE(v, 2);
    assert BE(v / 256, 1) == [v / 256] by { assert BE(v / 256 / 256, 0) == []; }
    assert s == [v / 256, v % 256];
    assert buf[i] == buf[i..i + 2][0] && buf[i + 1] == buf[i..i + 2][1];
  }

  /** Any name, compressed or not, is skipped exactly. */
  lemma {:induction false} OverName(buf: bytes, i: nat, n: Name)
    requires n.Ok() && Holds(buf, i, EncodeName(n))
    ensures SkipName(buf, i) == Some(i + |EncodeName(n)|)
  {
    var w := Wire(n.labels);
    var end := match n case Plain(_) => [0] case Compressed(_, hi, lo) => [hi, lo];
    HoldsParts(buf, i, w, end);
    OverLabels(buf, i, n.labels);
    assert buf[i + |w|] == buf[i + |w|..i + |w| + |end|][0];
  }

  lemma {:induction false} OverQuestions(buf: bytes, i: nat, qs: seq<Question>)
    requires QuestionsOk(qs) && Holds(buf, i, EncodeQuestions(qs))
    ensures SkipQuestions(buf, i, |qs|) == Some(i + |EncodeQuestions(qs)|)
    decreases qs
  {
    hide EncodeName, SkipName, Holds;
    if qs != [] {
      assert qs[0].Ok();
      var name, rest := EncodeName(qs[0].name), EncodeQuestions(qs[1..]);
      assert EncodeQuestions(qs) == name + qs[0].rest + rest;
      HoldsParts(buf, i, name + qs[0].rest, rest);
      HoldsParts(buf, i, name, qs[0].rest);
      OverName(buf, i, qs[0].name);
      HoldsFits(buf, i + |name|, qs[0].rest);
      OverQuestions(buf, i + |name| + 4, qs[1..]);
    }
  }

  lemma {:induction false} HoldsFits(buf: bytes, i: nat, s: bytes)
    requires Holds(buf, i, s)
    ensures i + |s| <= |buf| && buf[i..i + |s|] == s
  {
  }

  /** One record is read and stepped over. */
  lemma {:induction false} OverRecord(buf: bytes, i: nat, r: Record, n: nat)
    requires r.Ok() && n > 0 && Holds(buf, i, EncodeRecord(r))
    ensures FindA(buf, i, n) == if r.typ == TYPE_A && |r.rdata| == 4 then Some(r.rdata) else FindA(buf, i + |EncodeRecord(r)|, n - 1)
  {
    hide EncodeName, SkipName, Holds, BE, Word;
    var name := EncodeName(r.name);
    var fixed := BE(r.typ, 2) + r.classAndTtl + BE(|r.rdata|, 2);
    HoldsParts(buf, i, name + fixed, r.rdata);
    HoldsParts(buf, i, name, fixed);
    HoldsParts(buf, i + |name|, BE(r.typ, 2) + r.classAndTtl, BE(|r.rdata|, 2));
    HoldsParts(buf, i + |name|, BE(r.typ, 2), r.classAndTtl);
    OverName(buf, i, r.name);
    WordAt(buf, i + |name|, r.typ);
    WordAt(buf, i + |name| + 8, |r.rdata|);
    HoldsFits(buf, i + |name| + 10, r.rdata);
  }

  lemma {:induction false} OverRecords(buf: bytes, i: nat, rs: seq<Record>)
    requires RecordsOk(rs) && Holds(buf, i, EncodeRecords(rs))
    ensures FindA(buf, i, |rs|) == FirstA(rs)
    decreases rs
  {
    hide EncodeRecord, Holds, SkipName, Word;
    if rs != [] {
      assert rs[0].Ok();
      var first, rest := EncodeRecord(rs[0]), EncodeRecords(rs[1..]);
      HoldsParts(buf, i, first, rest);
      OverRecord(buf, i, rs[0], |rs|);
      OverRecords(buf, i + |first|, rs[1..]);
    }
  }

  /** A well-formed reply to our query yields its first address record, whatever names and other records
      it mixes in; a reply to another query yields nothing. */
  lemma {:induction false} ReplyReadsBack(r: Reply, expectedId: nat)
    requires r.Ok()
    ensures ParsedA(EncodeReply(r), expectedId) == if r.id == expectedId then FirstA(r.answers) else None
  {
    hide EncodeQuestions, EncodeRecords, Holds, BE, Word, QuestionsOk, RecordsOk, SkipName;
    var m := EncodeReply(r);
    var qs, rs := EncodeQuestions(r.questions), EncodeRecords(r.answers);
    var counts := BE(r.id, 2) + r.flags + BE(|r.questions|, 2) + BE(|r.answers|, 2);
    HeaderParts(m, r.id, r.flags, |r.questions|, |r.answers|, r.otherCounts + qs + rs + r.tail);
    assert m == counts + (r.otherCounts + qs + rs + r.tail);
    BodyParts(m, counts + r.otherCounts, qs, rs, r.tail);
    OverQuestions(m, 12, r.questions);
    OverRecords(m, 12 + |qs|, r.answers);
  }

  lemma {:induction false} HoldsWhole(a: bytes, b: bytes, c: bytes)
    ensures Holds(a + b + c, |a|, b)
  {
  }

  lemma {:induction false} BodyParts(m: bytes, head: bytes, qs: bytes, rs: bytes, tail: bytes)
    requires m == head + qs + rs + tail
    ensures Holds(m, |head|, qs) && Holds(m, |head| + |qs|, rs)
  {
    HoldsWhole(head, qs + rs, tail);
    assert m == head + (qs + rs) + tail;
    HoldsParts(m, |head|, qs, rs);
  }

  lemma {:induction false} HeaderParts(m: bytes, id: nat, flags: bytes, qd: nat, an: nat, rest: bytes)
    requires id < 0x1_0000 && qd < 0x1_0000 && an < 0x1_0000 && |flags| == 2
    requires m == BE(id, 2) + flags + BE(qd, 2) + BE(an, 2) + rest
    ensures |m| >= 8 && Word(m, 0) == id && Word(m, 4) == qd && Word(m, 6) == an
  {
    hide BE, Word;
    HoldsWhole([], BE(id, 2) + flags + BE(qd, 2) + BE(an, 2), rest);
    assert m == [] + (BE(id, 2) + flags + BE(qd, 2) + BE(an, 2)) + rest;
    HoldsParts(m, 0, BE(id, 2) + flags + BE(qd, 2), BE(an, 2));
    HoldsParts(m, 0, BE(id, 2) + flags, BE(qd, 2));
    HoldsParts(m, 0, BE(id, 2), flags);
    WordAt(m, 0, id);
    WordAt(m, 4, qd);
    WordAt(m, 6, an);
  }
}
