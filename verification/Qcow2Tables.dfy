/** The level-1 and level-2 tables and the data clusters (scripts/qcow2-convert.py:292-326). */
module Qcow2Tables {
  import opened Bytes
  import opened Arithmetic
  import opened Bitmap
  import opened Qcow2Plan
  import opened Qcow2Format
  import opened Qcow2Output

  /** offset | QCOW_OFLAG_COPIED */
  function OrCopied(offset: nat): nat {
    if offset / COPIED % 2 == 1 then offset else offset + COPIED
  }

  /** Entry i of a mapping table: the members of s get consecutive clusters from `base` on. */
  function MapEntry(s: set<nat>, base: nat, cs: nat, i: nat): nat {
    if i in s then At(base + Rank(s, i), cs) + COPIED else 0
  }

  /** The first n entries of a mapping table. */
  function MapTable(s: set<nat>, base: nat, cs: nat, n: nat): (table: seq<nat>)
    ensures |table| == n
  {
    if n == 0 then [] else MapTable(s, base, cs, n - 1) + [MapEntry(s, base, cs, n - 1)]
  }

  lemma {:induction false} MapTableAt(s: set<nat>, base: nat, cs: nat, n: nat, i: nat)
    requires i < n
    ensures MapTable(s, base, cs, n)[i] == MapEntry(s, base, cs, i)
  {
    if i < n - 1 {
      MapTableAt(s, base, cs, n - 1, i);
    }
  }

  /** Mapping entry i moves the running offset on to that of entry i + 1. */
  lemma {:induction false} MapStep(s: set<nat>, base: nat, cs: nat, i: nat, end: nat)
    requires i < end && At(base + Rank(s, end), cs) < 0x100_0000_0000_0000
    ensures At(base + Rank(s, i), cs) < 0x100_0000_0000_0000
    ensures At(base + Rank(s, i + 1), cs) == At(base + Rank(s, i), cs) + (if i in s then cs else 0)
  {
    RankMono(s, i, end);
    AtMono(base + Rank(s, i), base + Rank(s, end), cs);
  }

  /** The next entry of a row: a member's takes the running offset, which then moves on. */
  lemma {:induction false} EntryStep(es: seq<nat>, table: seq<nat>, s: set<nat>, base: nat, cs: nat, first: nat, e: nat, idx: nat, off: nat)
    requires idx < e == |es| && first + e <= |table| && table == MapTable(s, base, cs, |table|) && Filled(es, table, first, idx)
    requires off == At(base + Rank(s, first + idx), cs) && At(base + Rank(s, first + e), cs) < 0x100_0000_0000_0000
    ensures At(base + Rank(s, first + idx + 1), cs) == off + (if first + idx in s then cs else 0)
    ensures if first + idx in s then Filled(es[idx := OrCopied(off)], table, first, idx + 1) else Filled(es, table, first, idx + 1)
  {
    hide MapTable, Rank, Filled, At;
    MapStep(s, base, cs, first + idx, first + e);
    MapTableAt(s, base, cs, |table|, first + idx);
    FilledMore(es, table, first, idx);
  }

  /** The row of a mapping table that starts at entry `first`, from a bitmap. */
  method BuildRow(bm: bytes, e: nat, first: nat, cs: nat, start: nat,
                  ghost s: set<nat>, ghost base: nat, ghost table: seq<nat>)
    returns (curOffset: nat, row: bytes)
    requires first + e <= 8 * |bm| && Represents(bm, s)
    requires first + e <= |table| && table == MapTable(s, base, cs, |table|)
    requires start == At(base + Rank(s, first), cs)
    requires At(base + Rank(s, first + e), cs) < 0x100_0000_0000_0000
    ensures curOffset == At(base + Rank(s, first + e), cs)
    ensures row == TableRow(table, first, e)
  {
    hide MapTable, Rank, Filled, At, OrCopied, BitmapIsSet, PackQ;
    var cluster := new nat[e](_ => 0);
    curOffset := start;
    FilledNothing(cluster[..], table, first);
    for idx := 0 to e
      invariant curOffset == At(base + Rank(s, first + idx), cs)
      invariant Filled(cluster[..], table, first, idx)
    {
      EntryStep(cluster[..], table, s, base, cs, first, e, idx, curOffset);
      if BitmapIsSet(bm, first + idx) {
        cluster[idx] := OrCopied(curOffset);
        curOffset := curOffset + cs;
      }
    }
    FilledRow(cluster[..], table, first);
    row := PackQ(cluster[..]);
  }

  lemma {:induction false} RankAtBelow(s: set<nat>, n: nat, m: nat, base: nat, top: nat, cs: nat)
    requires BoundedBy(s, n) && base + Rank(s, n) <= top && At(top, cs) < 0x100_0000_0000_0000
    ensures At(base + Rank(s, m), cs) < 0x100_0000_0000_0000
  {
    RankBounded(s, n, m);
    AtMono(base + Rank(s, m), top, cs);
  }

  lemma {:induction false} StartOfRow(s: set<nat>)
    ensures Rank(s, 0) == 0
  {
  }

  /** The level-1 table: the rows of one mapping table, all of them written. */
  method WriteL1Tables(l1: bytes, rows: nat, e: nat, cs: nat, base: nat, ghost s1: set<nat>, ghost n: nat, ghost top: nat)
    returns (clusters: seq<bytes>)
    requires At(rows, e) == 8 * |l1| && Represents(l1, s1) && BoundedBy(s1, n)
    requires base + Rank(s1, n) <= top && At(top, cs) < 0x100_0000_0000_0000
    ensures clusters == TableRows(MapTable(s1, base, cs, At(rows, e)), e, rows)
  {
    hide MapTable, Rank, TableRow;
    StartOfRow(s1);
    ghost var table := MapTable(s1, base, cs, At(rows, e));
    var curOffset, first := At(base, cs), 0;
    clusters := [];
    for tbl := 0 to rows
      invariant first == At(tbl, e) <= |table|
      invariant curOffset == At(base + Rank(s1, first), cs)
      invariant clusters == TableRows(table, e, tbl)
    {
      AtMono(tbl, rows, e);
      RankAtBelow(s1, n, first + e, base, top, cs);
      var row;
      curOffset, row := BuildRow(l1, e, first, cs, curOffset, s1, base, table);
      clusters := clusters + [row];
      first := first + e;
    }
  }

  /** No data lies in the range of a table that level 1 does not mark. */
  ghost predicate AbsentTablesEmpty(l1: set<nat>, l2: set<nat>, e: nat) {
    forall t: nat :: t in l1 || Rank(l2, At(t, e) + e) == Rank(l2, At(t, e))
  }

  lemma {:induction false} EmptyRow(l1: set<nat>, l2: set<nat>, e: nat, t: nat)
    requires AbsentTablesEmpty(l1, l2, e)
    ensures t in l1 || Rank(l2, At(t, e) + e) == Rank(l2, At(t, e))
  {
  }

  lemma {:induction false} NoDataInAbsentTables(l1: set<nat>, l2: set<nat>, e: nat)
    requires e > 0 && CoversTables(l1, l2, TableOf(e))
    ensures AbsentTablesEmpty(l1, l2, e)
  {
    forall t: nat | t !in l1 ensures Rank(l2, At(t, e) + e) == Rank(l2, At(t, e)) {
      forall i | At(t, e) <= i < At(t, e) + e ensures i !in l2 {
        AtDivMod(t, i - At(t, e), e);
        assert TableOf(e)(i) == t;
      }
      RankOfClearRange(l2, At(t, e), At(t, e) + e);
    }
  }

  /** The level-2 tables: only the rows that level 1 marks are written. */
  method WriteL2Tables(l1: bytes, l2: bytes, rows: nat, e: nat, cs: nat, base: nat,
                       ghost s1: set<nat>, ghost s2: set<nat>, ghost n: nat, ghost top: nat)
    returns (clusters: seq<bytes>)
    requires rows <= 8 * |l1| && At(rows, e) == 8 * |l2|
    requires Represents(l1, s1) && Represents(l2, s2) && BoundedBy(s2, n) && AbsentTablesEmpty(s1, s2, e)
    requires base + Rank(s2, n) <= top && At(top, cs) < 0x100_0000_0000_0000
    ensures clusters == SomeRows(MapTable(s2, base, cs, At(rows, e)), e, s1, rows)
  {
    hide MapTable, Rank, AbsentTablesEmpty, TableRow;
    StartOfRow(s2);
    ghost var table := MapTable(s2, base, cs, At(rows, e));
    var curOffset, first := At(base, cs), 0;
    clusters := [];
    for tbl := 0 to rows
      invariant first == At(tbl, e) <= |table|
      invariant curOffset == At(base + Rank(s2, first), cs)
      invariant clusters == SomeRows(table, e, s1, tbl)
    {
      AtMono(tbl, rows, e);
      EmptyRow(s1, s2, e, tbl);
      if BitmapIsSet(l1, tbl) {
        RankAtBelow(s2, n, first + e, base, top, cs);
        var row;
        curOffset, row := BuildRow(l2, e, first, cs, curOffset, s2, base, table);
        clusters := clusters + [row];
      }
      first := first + e;
    }
  }

  /** The guest clusters in a set, in order. */
  function DataClusters(raw: bytes, cs: nat, s2: set<nat>, n: nat): (clusters: seq<bytes>)
    ensures |clusters| == Rank(s2, n)
  {
    if n == 0 then []
    else DataClusters(raw, cs, s2, n - 1) + (if n - 1 in s2 then [RawCluster(raw, n - 1, cs)] else [])
  }

  lemma {:induction false} DataClustersAt(raw: bytes, cs: nat, s2: set<nat>, n: nat, i: nat)
    requires i < n && i in s2
    ensures Rank(s2, i) < Rank(s2, n) && DataClusters(raw, cs, s2, n)[Rank(s2, i)] == RawCluster(raw, i, cs)
  {
    if i < n - 1 {
      DataClustersAt(raw, cs, s2, n - 1, i);
    }
  }

  lemma {:induction false} DataSizes(raw: bytes, cs: nat, s2: set<nat>, n: nat)
    ensures AllOfSize(DataClusters(raw, cs, s2, n), cs)
  {
    if n > 0 {
      DataSizes(raw, cs, s2, n - 1);
    }
  }

  /** Copies the marked guest clusters, in order. */
  method WriteData(raw: bytes, cs: nat, n: nat, l2: bytes, ghost s2: set<nat>) returns (clusters: seq<bytes>)
    requires n <= 8 * |l2| && Represents(l2, s2)
    ensures clusters == DataClusters(raw, cs, s2, n)
  {
    clusters := [];
    for idx := 0 to n
      invariant clusters == DataClusters(raw, cs, s2, idx)
    {
      if BitmapIsSet(l2, idx) {
        clusters := clusters + [ReadCluster(raw, idx, cs)];
      }
    }
  }
}
