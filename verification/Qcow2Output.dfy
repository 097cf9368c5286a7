/** The output file of the image writer, and the ways a cluster buffer is filled in place
    (scripts/qcow2-convert.py:232-326). */
module Qcow2Output {
  import opened Bytes
  import opened Arithmetic
  import opened Bitmap
  import opened Qcow2Format

  // ----- the output file

  /** What the file holds after these clusters have been written one after another. */
  function Flatten(clusters: seq<bytes>): bytes {
    if |clusters| == 0 then [] else Flatten(clusters[..|clusters| - 1]) + clusters[|clusters| - 1]
  }

  predicate AllOfSize(clusters: seq<bytes>, cs: nat) {
    forall k :: 0 <= k < |clusters| ==> |clusters[k]| == cs
  }

  lemma {:induction false} FlattenSize(clusters: seq<bytes>, cs: nat)
    requires AllOfSize(clusters, cs)
    ensures |Flatten(clusters)| == At(|clusters|, cs)
  {
    if |clusters| > 0 {
      FlattenSize(clusters[..|clusters| - 1], cs);
    }
  }

  /** Cluster k of the file lies at k * cs. */
  lemma {:induction false} FlattenAt(clusters: seq<bytes>, cs: nat, k: nat)
    requires AllOfSize(clusters, cs) && k < |clusters|
    ensures |Flatten(clusters)| == At(|clusters|, cs) && At(k, cs) + cs <= At(|clusters|, cs)
    ensures Flatten(clusters)[At(k, cs)..At(k, cs) + cs] == clusters[k]
  {
    var n := |clusters| - 1;
    FlattenSize(clusters, cs);
    FlattenSize(clusters[..n], cs);
    AtMono(k, |clusters|, cs);
    if k < n {
      AtMono(k, n, cs);
      FlattenAt(clusters[..n], cs, k);
      var head := Flatten(clusters[..n]);
      assert (head + clusters[n])[At(k, cs)..At(k, cs) + cs] == head[At(k, cs)..At(k, cs) + cs];
    }
  }

  // ----- filling a cluster in place

  /** struct.pack_into of a packed byte string. */
  method PackBytes(cluster: array<byte>, off: nat, s: bytes)
    requires off + |s| <= cluster.Length
    modifies cluster
    ensures cluster[..] == old(cluster[..off]) + s + old(cluster[off + |s|..])
  {
    forall i | 0 <= i < |s| {
      cluster[off + i] := s[i];
    }
  }

  // ----- tables of 64-bit entries

  /** The bytes of a table: struct.pack_into(">Q", cluster, idx * 8, v) for every entry. */
  function PackQ(es: seq<nat>): (r: bytes)
    ensures |r| == 8 * |es|
  {
    if |es| == 0 then [] else PackQ(es[..|es| - 1]) + BE(es[|es| - 1], 8)
  }

  /** Reading entry j back; struct refuses values of 65 bits or more. */
  lemma {:induction false} EntryOfPackQ(es: seq<nat>, j: nat)
    requires j < |es| && es[j] <= 0xffff_ffff_ffff_ffff
    ensures Entry(PackQ(es), j) == es[j]
  {
    var r, n := PackQ(es), |es| - 1;
    if j == n {
      Pow256Values();
      FromBEofBE(es[j], 8);
      assert r[8 * j..8 * j + 8] == BE(es[j], 8);
    } else {
      EntryOfPackQ(es[..n], j);
      assert PackQ(es[..n])[8 * j..8 * j + 8] == r[8 * j..8 * j + 8];
    }
  }

  /** The cluster with the e entries of a table that start at number `first`. */
  function TableRow(table: seq<nat>, first: nat, e: nat): (row: bytes)
    requires first + e <= |table|
    ensures |row| == 8 * e
  {
    PackQ(table[first..first + e])
  }

  /** The first n clusters of a table of e entries each. */
  function TableRows(table: seq<nat>, e: nat, n: nat): (rows: seq<bytes>)
    requires At(n, e) <= |table|
    ensures |rows| == n
  {
    if n == 0 then [] else TableRows(table, e, n - 1) + [TableRow(table, At(n - 1, e), e)]
  }

  lemma {:induction false} TableRowsAt(table: seq<nat>, e: nat, n: nat, t: nat)
    requires At(n, e) <= |table| && t < n
    ensures At(t, e) + e <= |table| && TableRows(table, e, n)[t] == TableRow(table, At(t, e), e)
  {
    if t < n - 1 {
      TableRowsAt(table, e, n - 1, t);
    }
  }

  /** The clusters of the rows in a set, in order. */
  function SomeRows(table: seq<nat>, e: nat, present: set<nat>, n: nat): (rows: seq<bytes>)
    requires At(n, e) <= |table|
    ensures |rows| == Rank(present, n)
  {
    if n == 0 then []
    else SomeRows(table, e, present, n - 1) + (if n - 1 in present then [TableRow(table, At(n - 1, e), e)] else [])
  }

  /** Row t, if it is present at all, comes after the rows present before it. */
  lemma {:induction false} SomeRowsAt(table: seq<nat>, e: nat, present: set<nat>, n: nat, t: nat)
    requires At(n, e) <= |table| && t < n && t in present
    ensures Rank(present, t) < Rank(present, n) && At(t, e) + e <= |table|
    ensures SomeRows(table, e, present, n)[Rank(present, t)] == TableRow(table, At(t, e), e)
  {
    if t < n - 1 {
      SomeRowsAt(table, e, present, n - 1, t);
    }
  }

  /** The first idx entries of a row are in place, the rest are still zero. */
  predicate Filled(es: seq<nat>, table: seq<nat>, first: nat, idx: nat) {
    && idx <= |es| && first + |es| <= |table|
    && (forall j :: 0 <= j < idx ==> es[j] == table[first + j])
    && (forall j :: idx <= j < |es| ==> es[j] == 0)
  }

  lemma {:induction false} FilledNothing(es: seq<nat>, table: seq<nat>, first: nat)
    requires first + |es| <= |table| && forall j :: 0 <= j < |es| ==> es[j] == 0
    ensures Filled(es, table, first, 0)
  {
  }

  lemma {:induction false} FilledMore(es: seq<nat>, table: seq<nat>, first: nat, idx: nat)
    requires idx < |es| && Filled(es, table, first, idx)
    ensures first + idx < |table| && Filled(es[idx := table[first + idx]], table, first, idx + 1)
    ensures table[first + idx] == 0 ==> Filled(es, table, first, idx + 1)
  {
  }

  /** Zeros at the end of the table's row need not be written. */
  lemma {:induction false} FilledRest(es: seq<nat>, table: seq<nat>, first: nat, idx: nat)
    requires Filled(es, table, first, idx) && forall i :: first + idx <= i < first + |es| ==> table[i] == 0
    ensures Filled(es, table, first, |es|)
  {
  }

  lemma {:induction false} FilledRow(es: seq<nat>, table: seq<nat>, first: nat)
    requires Filled(es, table, first, |es|)
    ensures es == table[first..first + |es|]
  {
  }
}
