/** The text-only DOM (kernel/src/dom.rs:28-135): nodes in an array, linked by indices, with their text in
    one arena. */
module TextDom {
  import opened Bytes

  const DOM_MAX_NODES := 512
  const DOM_TEXT_ARENA := 8192
  const LF: byte := 10
  const CR: byte := 13
  const LT: byte := 60

  datatype NodeKind = Element | Text

  datatype Node = Node(kind: NodeKind, parent: Option<nat>, firstChild: Option<nat>, nextSibling: Option<nat>,
                       textStart: nat, textLen: nat)

  const EMPTY_NODE := Node(Element, None, None, None, 0, 0)

  // ----- what the nodes should say

  predicate Dropped(b: byte) {
    b == LT || b == CR
  }

  /** The non-empty lines of a text whose current line has begun with cur. */
  function Lines(s: bytes, cur: bytes): seq<bytes>
    decreases s
  {
    if s == [] then NonEmpty(cur)
    else if s[0] == LF then NonEmpty(cur) + Lines(s[1..], [])
    else Lines(s[1..], cur + [s[0]])
  }

  /** The input without '<' and CR. */
  function Filtered(raw: bytes): bytes {
    if raw == [] then [] else (if Dropped(raw[0]) then [] else [raw[0]]) + Filtered(raw[1..])
  }

  /** A text whose characters, line ends apart, are cut after the first `room`. */
  function Clipped(s: bytes, room: nat): bytes
    decreases s
  {
    if s == [] then []
    else if s[0] == LF then [LF] + Clipped(s[1..], room)
    else if room == 0 then Clipped(s[1..], 0)
    else [s[0]] + Clipped(s[1..], room - 1)
  }

  function Characters(s: bytes): nat {
    if s == [] then 0 else (if s[0] == LF then 0 else 1) + Characters(s[1..])
  }

  lemma {:induction false} NothingClipped(s: bytes, room: nat)
    requires Characters(s) <= room
    ensures Clipped(s, room) == s
    decreases s
  {
    if s != [] {
      NothingClipped(s[1..], if s[0] == LF then room else room - 1);
      assert s == [s[0]] + s[1..];
    }
  }

  /** What is still to come when the input has been read up to i. */
  function ToCome(raw: bytes, i: nat, room: nat, cur: bytes): seq<bytes>
    requires i <= |raw|
  {
    Lines(Clipped(Filtered(raw[i..]), room), cur)
  }

  lemma {:induction false} ReadOne(raw: bytes, i: nat, room: nat, cur: bytes)
    requires i < |raw|
    ensures ToCome(raw, i, room, cur) ==
      if Dropped(raw[i]) then ToCome(raw, i + 1, room, cur)
      else if raw[i] == LF then NonEmpty(cur) + ToCome(raw, i + 1, room, [])
      else if room == 0 then ToCome(raw, i + 1, 0, cur)
      else ToCome(raw, i + 1, room - 1, cur + [raw[i]])
  {
    var f := Filtered(raw[i + 1..]);
    assert raw[i..][1..] == raw[i + 1..];
    if Dropped(raw[i]) {
      assert Filtered(raw[i..]) == f;
    } else {
      assert Filtered(raw[i..]) == [raw[i]] + f;
      assert ([raw[i]] + f)[1..] == f;
      if raw[i] == LF {
        assert ([LF] + Clipped(f, room))[1..] == Clipped(f, room);
      } else if room > 0 {
        assert ([raw[i]] + Clipped(f, room - 1))[1..] == Clipped(f, room - 1);
      }
    }
  }

  /** All lines the arena has room for. */
  function AllLines(raw: bytes): seq<bytes> {
    Lines(Clipped(Filtered(raw), DOM_TEXT_ARENA), [])
  }

  function UpTo(lines: seq<bytes>, n: nat): (r: seq<bytes>)
    ensures r <= lines && (|r| == n || |r| == |lines| < n)
  {
    if |lines| <= n then lines else lines[..n]
  }

  // ----- the tree

  /** Node k, for 0 < k, is a text child of the root whose text lies where the previous one ended; it links
      to k + 1, or to nothing if it is the last. */
  predicate Linked(nodes: seq<Node>, count: nat, k: nat)
    requires 0 < k < count <= |nodes|
  {
    && nodes[k].kind == Text && nodes[k].parent == Some(0) && nodes[k].firstChild == None
    && nodes[k].nextSibling == (if k + 1 < count then Some(k + 1) else None)
    && nodes[k].textStart == (if k == 1 then 0 else nodes[k - 1].textStart + nodes[k - 1].textLen)
    && nodes[k].textLen > 0
  }

  /** Node k's text is line k - 1. */
  predicate Says(nodes: seq<Node>, text: bytes, lines: seq<bytes>, k: nat)
    requires 0 < k < |nodes| && k <= |lines|
  {
    && nodes[k].textStart + nodes[k].textLen <= |text|
    && text[nodes[k].textStart..nodes[k].textStart + nodes[k].textLen] == lines[k - 1]
  }

  class DomTree {
    var nodes: seq<Node>
    var nodeCount: nat
    var text: bytes

    predicate Sized()
      reads this
    {
      |nodes| == DOM_MAX_NODES && 1 <= nodeCount <= DOM_MAX_NODES && |text| <= DOM_TEXT_ARENA
    }

    /** The child chain of the root is 1, 2, ..., nodeCount - 1. */
    predicate Chain()
      requires Sized()
      reads this
    {
      && nodes[0].firstChild == (if nodeCount > 1 then Some(1) else None)
      && AllLinked(nodes, nodeCount)
    }

    predicate Valid()
      reads this
    {
      Sized() && Chain()
    }

    /** The nodes' texts are the given lines, in order. */
    predicate Reads(lines: seq<bytes>)
      requires Sized()
      reads this
    {
      nodeCount == |lines| + 1 && forall k :: 1 <= k < nodeCount ==> Says(nodes, text, lines, k)
    }

    function End(): nat
      requires Sized()
      reads this
    {
      if nodeCount == 1 then 0 else nodes[nodeCount - 1].textStart + nodes[nodeCount - 1].textLen
    }

    constructor ()
      ensures |nodes| == DOM_MAX_NODES && text == [] && nodeCount == 0
    {
      nodes, nodeCount, text := seq(DOM_MAX_NODES, _ => EMPTY_NODE), 0, [];
    }

    /** Appends a node behind the last child; the walk over the siblings ends because the chain only goes up. */
    method PushTextNode(start: nat, len: nat, ghost lines: seq<bytes>)
      requires Valid() && len > 0 && start + len <= |text| && Reads(lines)
      requires nodeCount < DOM_MAX_NODES ==> start == End()
      modifies this`nodes, this`nodeCount
      ensures Valid() && Reads(UpTo(lines + [text[start..start + len]], DOM_MAX_NODES - 1))
      ensures nodeCount < DOM_MAX_NODES ==> End() == start + len
    {
      if nodeCount >= DOM_MAX_NODES {
        return;
      }
      var idx := nodeCount;
      var node := Node(Text, Some(0), None, None, start, len);
      var root := nodes[0];
      ghost var was := nodes;
      nodeCount := nodeCount + 1;
      if root.firstChild.None? {
        nodes := nodes[idx := node][0 := root.(firstChild := Some(idx))];
        SaysMore(was, nodes, text, lines, idx, text[start..start + len]);
        return;
      }
      var n := LastChild(idx);
      Relinked(nodes, idx, node);
      nodes := nodes[idx := node][n := nodes[n].(nextSibling := Some(idx))];
      SaysMore(was, nodes, text, lines, idx, text[start..start + len]);
    }

    /** The walk along the siblings. */
    method LastChild(ghost count: nat) returns (n: nat)
      requires 1 < count <= |nodes| && nodes[0].firstChild == Some(1)
      requires forall k :: 1 <= k < count ==> Linked(nodes, count, k)
      ensures n == count - 1
    {
      n := nodes[0].firstChild.value;
      while nodes[n].nextSibling.Some?
        invariant 1 <= n < count
        decreases count - n
      {
        assert Linked(nodes, count, n);
        n := nodes[n].nextSibling.value;
      }
      assert Linked(nodes, count, n);
    }

    /** One byte of the arena is taken if there is one. */
    method StoreByte(b: byte, ghost lines: seq<bytes>)
      requires Valid() && Reads(lines)
      modifies this`text
      ensures Valid() && Reads(lines) && text == if |old(text)| < DOM_TEXT_ARENA then old(text) + [b] else old(text)
    {
      if |text| < DOM_TEXT_ARENA {
        ghost var was := text;
        text := text + [b];
        forall k | 1 <= k < nodeCount ensures Says(nodes, text, lines, k) {
          assert Says(nodes, was, lines, k);
        }
      }
    }

    /** The current line ends: it becomes a node unless it is empty. */
    method EndLine(start: nat, ghost lines: seq<bytes>)
      requires Valid() && start <= |text| && Reads(UpTo(lines, DOM_MAX_NODES - 1))
      requires nodeCount < DOM_MAX_NODES ==> start == End()
      modifies this`nodes, this`nodeCount
      ensures Valid() && Reads(UpTo(lines + NonEmpty(text[start..]), DOM_MAX_NODES - 1))
      ensures nodeCount < DOM_MAX_NODES ==> End() == |text|
    {
      hide Linked, Says;
      UpToMore(lines, text[start..]);
      if |text| > start {
        assert text[start..start + (|text| - start)] == text[start..];
        PushTextNode(start, |text| - start, UpTo(lines, DOM_MAX_NODES - 1));
      } else {
        assert lines + [] == lines;
      }
    }

    /** build_text_dom: one text child of the root for each of the first 511 non-empty lines of what the arena
        holds of the input, in order. */
    method BuildTextDom(raw: bytes)
      requires |nodes| == DOM_MAX_NODES
      modifies this
      ensures Valid() && Reads(UpTo(AllLines(raw), DOM_MAX_NODES - 1))
    {
      hide Lines, Clipped, Filtered, ToCome, Linked, Says, UpTo;
      nodeCount, text := 0, [];
      nodes := nodes[0 := EMPTY_NODE];
      nodeCount := 1;
      var start: nat := 0;
      ghost var lines: seq<bytes> := [];
      ghost var all := AllLines(raw);
      AtStart(raw);
      for i := 0 to |raw|
        invariant Valid() && start <= |text| && Reads(UpTo(lines, DOM_MAX_NODES - 1))
        invariant nodeCount < DOM_MAX_NODES ==> start == End()
        invariant all == lines + ToCome(raw, i, DOM_TEXT_ARENA - |text|, text[start..])
      {
        ReadOne(raw, i, DOM_TEXT_ARENA - |text|, text[start..]);
        var b := raw[i];
        if b == LT || b == CR {
          continue;
        }
        if b == LF {
          EndLine(start, lines);
          Shifted(lines, NonEmpty(text[start..]), ToCome(raw, i + 1, DOM_TEXT_ARENA - |text|, []));
          lines := lines + NonEmpty(text[start..]);
          start := |text|;
          assert text[start..] == [];
          continue;
        }
        assert |text| < DOM_TEXT_ARENA ==> (text + [b])[start..] == text[start..] + [b];
        StoreByte(b, UpTo(lines, DOM_MAX_NODES - 1));
      }
      NothingToCome(raw, DOM_TEXT_ARENA - |text|, text[start..]);
      EndLine(start, lines);
    }
  }

  lemma {:induction false} AtStart(raw: bytes)
    ensures AllLines(raw) == [] + ToCome(raw, 0, DOM_TEXT_ARENA, []) && UpTo([], DOM_MAX_NODES - 1) == []
  {
    assert raw[0..] == raw;
  }

  lemma {:induction false} Shifted(lines: seq<bytes>, line: seq<bytes>, rest: seq<bytes>)
    ensures lines + (line + rest) == lines + line + rest
  {
  }

  lemma {:induction false} UpToMore(lines: seq<bytes>, line: bytes)
    ensures UpTo(UpTo(lines, DOM_MAX_NODES - 1) + NonEmpty(line), DOM_MAX_NODES - 1)
         == UpTo(lines + NonEmpty(line), DOM_MAX_NODES - 1)
  {
  }

  lemma {:induction false} NothingToCome(raw: bytes, room: nat, cur: bytes)
    ensures ToCome(raw, |raw|, room, cur) == NonEmpty(cur)
  {
    assert raw[|raw|..] == [];
  }

  /** A node more, with one more line. */
  lemma {:induction false} SaysMore(was: seq<Node>, now: seq<Node>, text: bytes, lines: seq<bytes>, idx: nat, line: bytes)
    requires 0 < idx < |now| && |was| == |now| && idx == |lines| + 1
    requires forall k :: 1 <= k < idx ==> Says(was, text, lines, k)
    requires forall k :: 1 <= k < idx ==> now[k].textStart == was[k].textStart && now[k].textLen == was[k].textLen
    requires now[idx].textStart + now[idx].textLen <= |text| && line == text[now[idx].textStart..now[idx].textStart + now[idx].textLen]
    ensures forall k :: 1 <= k <= idx ==> Says(now, text, lines + [line], k)
  {
    var more := lines + [line];
    forall k | 1 <= k <= idx ensures Says(now, text, more, k) {
      if k < idx {
        assert Says(was, text, lines, k);
      }
    }
  }

  /** Linking the last node to a new one keeps the chain. */
  lemma {:induction false} Relinked(nodes: seq<Node>, idx: nat, node: Node)
    requires 1 < idx < |nodes| && forall k :: 1 <= k < idx ==> Linked(nodes, idx, k)
    requires node == Node(Text, Some(0), None, None, nodes[idx - 1].textStart + nodes[idx - 1].textLen, node.textLen) && node.textLen > 0
    ensures var more := nodes[idx := node][idx - 1 := nodes[idx - 1].(nextSibling := Some(idx))];
            var count := idx + 1;
            forall k :: 1 <= k < count ==> Linked(more, count, k)
  {
    var more := nodes[idx := node][idx - 1 := nodes[idx - 1].(nextSibling := Some(idx))];
    var count := idx + 1;
    forall k | 1 <= k < count ensures Linked(more, count, k) {
      if k < idx {
        assert Linked(nodes, idx, k);
      }
    }
  }

  // ----- walking the tree

  /** The nodes on the sibling chain from node n on. */
  function Walk(nodes: seq<Node>, n: nat, fuel: nat): seq<nat>
    decreases fuel, |nodes|
  {
    if fuel == 0 || n >= |nodes| then []
    else [n] + match nodes[n].nextSibling case None => [] case Some(next) => Walk(nodes, next, fuel - 1)
  }

  function From(k: nat, count: nat): seq<nat>
    decreases count - k
  {
    if k >= count then [] else [k] + From(k + 1, count)
  }

  predicate AllLinked(nodes: seq<Node>, count: nat)
    requires count <= |nodes|
  {
    forall j :: 1 <= j < count ==> Linked(nodes, count, j)
  }

  lemma {:induction false} NextOf(nodes: seq<Node>, count: nat, k: nat)
    requires 1 <= k < count <= |nodes| && AllLinked(nodes, count)
    ensures nodes[k].nextSibling == if k + 1 < count then Some(k + 1) else None
  {
    assert Linked(nodes, count, k);
  }

  /** The chain from node k on visits k, k + 1, ..., count - 1, each once. */
  lemma {:induction false} WalkVisitsAll(nodes: seq<Node>, count: nat, k: nat, fuel: nat)
    requires 1 <= k < count <= |nodes| && fuel >= count - k && AllLinked(nodes, count)
    ensures Walk(nodes, k, fuel) == From(k, count)
    decreases fuel
  {
    hide AllLinked, Linked;
    NextOf(nodes, count, k);
    if k + 1 < count {
      WalkVisitsAll(nodes, count, k + 1, fuel - 1);
    } else {
      assert From(k + 1, count) == [];
    }
  }

  /** In a tree that was built, the root's child chain visits every node but the root, once and in order. */
  lemma {:induction false} RootWalk(tree: DomTree)
    requires tree.Valid() && tree.nodeCount > 1
    ensures tree.nodes[0].firstChild == Some(1) && Walk(tree.nodes, 1, tree.nodeCount) == From(1, tree.nodeCount)
  {
    hide AllLinked;
    WalkVisitsAll(tree.nodes, tree.nodeCount, 1, tree.nodeCount);
  }

  /** While neither capacity is reached, the texts are exactly the non-empty lines of the filtered input. */
  lemma {:induction false} NothingLost(raw: bytes)
    requires Characters(Filtered(raw)) <= DOM_TEXT_ARENA && |Lines(Filtered(raw), [])| < DOM_MAX_NODES
    ensures UpTo(AllLines(raw), DOM_MAX_NODES - 1) == Lines(Filtered(raw), [])
  {
    NothingClipped(Filtered(raw), DOM_TEXT_ARENA);
  }

  // ----- what the lines are

  /** The lines are what stands between line feeds, without the empty ones. */
  lemma {:induction false} LinesBetween(line: bytes, rest: bytes, cur: bytes)
    requires forall k :: 0 <= k < |line| ==> line[k] as char != '\n'
    ensures Lines(line, cur) == if cur + line == [] then [] else [cur + line]
    ensures Lines(line + [10] + rest, cur) == (if cur + line == [] then [] else [cur + line]) + Lines(rest, [])
    decreases line
  {
    var s := line + [10] + rest;
    if line == [] {
      assert s[0] == LF && s[1..] == rest && cur + [] == cur;
    } else {
      assert s[0] == line[0] && s[1..] == line[1..] + [10] + rest;
      assert cur + line == cur + [line[0]] + line[1..];
      LinesBetween(line[1..], rest, cur + [line[0]]);
    }
  }

  /** The filter drops '<' and carriage returns, and nothing else. */
  lemma {:induction false} FilterDrops(a: bytes, b: byte, rest: bytes)
    ensures Filtered(a + [b] + rest) == Filtered(a) + (if b as char == '<' || b as char == '\r' then [] else [b]) + Filtered(rest)
    decreases a
  {
    var s := a + [b] + rest;
    if a == [] {
      assert s[0] == b && s[1..] == rest;
    } else {
      assert s[0] == a[0] && s[1..] == a[1..] + [b] + rest;
      FilterDrops(a[1..], b, rest);
    }
  }

  lemma {:induction false} ClippedFirst(b: byte, rest: bytes, room: nat)
    ensures Clipped([b] + rest, room)
         == if b == LF then [LF] + Clipped(rest, room) else if room == 0 then Clipped(rest, 0) else [b] + Clipped(rest, room - 1)
  {
    assert ([b] + rest)[1..] == rest;
  }

  /** Characters in front of the arena's end are kept. */
  lemma {:induction false} KeptFirst(a: bytes, b: bytes, room: nat)
    requires Characters(a) <= room
    ensures Clipped(a + b, room) == a + Clipped(b, room - Characters(a))
    decreases a
  {
    hide Clipped;
    if a == [] {
      assert a + b == b;
    } else {
      var first, rest := a[0], a[1..];
      assert a + b == [first] + (rest + b);
      ClippedFirst(first, rest + b, room);
      KeptFirst(rest, b, if first == LF then room else room - 1);
      var more := Clipped(b, room - Characters(a));
      assert [first] + (rest + more) == a + more;
    }
  }

  /** Behind it, line feeds alone are left. */
  lemma {:induction false} OnlyLineFeeds(s: bytes)
    ensures forall k :: 0 <= k < |Clipped(s, 0)| ==> Clipped(s, 0)[k] as char == '\n'
    ensures |Clipped(s, 0)| == |s| - Characters(s)
    decreases s
  {
    if s != [] {
      OnlyLineFeeds(s[1..]);
    }
  }
}
