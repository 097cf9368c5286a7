/** Planning half of the raw-to-qcow2 writer: which clusters carry data and how many clusters of
    each kind the file needs (scripts/qcow2-convert.py:43-58, 144-217). */
module Qcow2Plan {
  import opened Bytes
  import opened Arithmetic
  import opened Bitmap

  // ----- the input: a sparse raw file

  /** A raw image and the host's idea of which bytes lie in an allocated extent. */
  datatype SparseFile = SparseFile(content: bytes, data: seq<bool>) {
    /** Bytes in a hole read as zero. */
    predicate Valid() {
      |data| == |content| && forall p :: 0 <= p < |content| && !data[p] ==> content[p] == 0
    }

    /** lseek(fd, off, SEEK_DATA); None is ENXIO. */
    function SeekData(off: nat): (r: Option<nat>)
      requires Valid()
      ensures r == None ==> forall p :: off <= p < |content| ==> !data[p]
      ensures r.Some? ==> off <= r.value < |content| && data[r.value] && forall p :: off <= p < r.value ==> !data[p]
      decreases |content| - off
    {
      if off >= |content| then None else if data[off] then Some(off) else SeekData(off + 1)
    }

    /** lseek(fd, off, SEEK_HOLE); the end of the file is a hole. */
    function SeekHole(off: nat): (r: nat)
      requires Valid() && off <= |content|
      ensures off <= r <= |content| && (r < |content| ==> !data[r])
      ensures forall p :: off <= p < r ==> data[p]
      decreases |content| - off
    {
      if off >= |content| || !data[off] then off else SeekHole(off + 1)
    }
  }

  /** The disk byte at guest offset p: the file's byte, zero past its end. */
  function RawByte(raw: bytes, p: nat): byte {
    if p < |raw| then raw[p] else 0
  }

  function RawCluster(raw: bytes, i: nat, cs: nat): (c: bytes)
    ensures |c| == cs && forall k :: 0 <= k < cs ==> c[k] == RawByte(raw, i * cs + k)
  {
    var at: nat -> byte := k => RawByte(raw, i * cs + k);
    seq<byte>(cs, at)
  }

  /** os.pread(fd, n, off). */
  function Pread(raw: bytes, n: nat, off: nat): (s: bytes)
    ensures |s| <= n && forall k :: 0 <= k < |s| ==> s[k] == RawByte(raw, off + k)
    ensures |s| < n ==> off + |s| >= |raw|
  {
    raw[Min(off, |raw|)..Min(off + n, |raw|)]
  }

  /** One guest cluster as the writer reads it: a short read is padded with zeros. */
  function ReadCluster(raw: bytes, i: nat, cs: nat): (c: bytes)
    ensures c == RawCluster(raw, i, cs)
  {
    assert cs * i == i * cs;
    var cluster := Pread(raw, cs, cs * i);
    if |cluster| < cs then cluster + Zeros(cs - |cluster|) else cluster
  }

  // ----- parameters

  predicate ClusterSizeOk(cs: nat) {
    cs in {512, 1024, 2048, 4096, 8192, 16384, 32768, 65536, 131072, 262144, 524288, 1048576, 2097152}
  }

  predicate RefcountBitsOk(rb: nat) {
    rb in {1, 2, 4, 8, 16, 32, 64}
  }

  lemma {:induction false} TableGeometry(cs: nat, rb: nat)
    requires ClusterSizeOk(cs) && RefcountBitsOk(rb)
    ensures cs % 512 == 0 && cs / 8 >= 64 && cs / 8 % 8 == 0 && cs == 8 * (cs / 8)
    ensures cs * 8 / rb >= 64 && cs * 8 / rb * rb == cs * 8
  {
    if rb == 1 {} else if rb == 2 {} else if rb == 4 {} else if rb == 8 {}
    else if rb == 16 {} else if rb == 32 {} else {}
  }

  /** The header stores logarithms; they are exact for every permitted parameter. */
  lemma {:induction false} LogsAreExact(cs: nat, rb: nat)
    requires ClusterSizeOk(cs) && RefcountBitsOk(rb)
    ensures Pow2(Log2(cs)) == cs && 9 <= Log2(cs) < 22
    ensures Pow2(Log2(rb)) == rb && Log2(rb) < 7
  {
    Pow2Values();
    var k :| 9 <= k < 22 && Pow2(k) == cs;
    Log2OfPow2(k);
    var r :| 0 <= r < 7 && Pow2(r) == rb;
    Log2OfPow2(r);
  }

  lemma {:induction false} Pow2Values()
    ensures Pow2(0) == 1 && Pow2(1) == 2 && Pow2(2) == 4 && Pow2(3) == 8 && Pow2(4) == 16 && Pow2(5) == 32 && Pow2(6) == 64
    ensures Pow2(9) == 512 && Pow2(10) == 1024 && Pow2(11) == 2048 && Pow2(12) == 4096 && Pow2(13) == 8192
    ensures Pow2(14) == 16384 && Pow2(15) == 32768 && Pow2(16) == 65536 && Pow2(17) == 131072
    ensures Pow2(18) == 262144 && Pow2(19) == 524288 && Pow2(20) == 1048576 && Pow2(21) == 2097152
  {
    assert Pow2(8) == 256;
  }

  lemma {:induction false} RowsOfBytes(n: nat, e: nat)
    requires e % 8 == 0
    ensures (n * e) % 8 == 0 && 8 * (n * e / 8) == n * e
  {
    assert n * e == (n * (e / 8)) * 8 by { assert e == e / 8 * 8; }
    ModOfProduct(n * (e / 8), 8);
  }

  // ----- finding the clusters that carry data

  predicate Increasing(s: seq<nat>) {
    forall a, b :: 0 <= a < b < |s| ==> s[a] < s[b]
  }

  /** The numbers from a up to b. */
  function Range(a: nat, b: nat): (r: seq<nat>)
    requires a <= b
    ensures |r| == b - a && forall k :: 0 <= k < |r| ==> r[k] == a + k
  {
    seq(b - a, k requires 0 <= k < b - a => a + k)
  }

  /** Every allocated byte below `end` lies in a listed cluster. */
  predicate Covers(idxs: seq<nat>, f: SparseFile, cs: nat, end: nat)
    requires f.Valid() && cs > 0
  {
    forall p :: 0 <= p < |f.content| && p < end && f.data[p] ==> p / cs in idxs
  }

  predicate AllBelow(idxs: seq<nat>, n: nat) {
    forall k :: 0 <= k < |idxs| ==> idxs[k] < n
  }

  /** Where an extent's clusters lie: not before those already listed, and within the file. */
  lemma {:induction false} ExtentClusters(done: nat, from: nat, hole: nat, len: nat, cs: nat)
    requires cs > 0 && done * cs <= from < hole <= len
    ensures 0 <= done <= from / cs <= CeilDiv(hole, cs) <= CeilDiv(len, cs)
    ensures done < CeilDiv(hole, cs)
  {
    DivModUnique(done, 0, cs);
    DivMono(done * cs, from, cs);
    CeilDivMono(hole, len, cs);
    DivBelow(from, cs, CeilDiv(hole, cs));
  }

  lemma {:induction false} RangeIncreases(before: seq<nat>, n: nat, a: nat, b: nat)
    requires Increasing(before) && AllBelow(before, n) && n <= a <= b
    ensures Increasing(before + Range(a, b)) && AllBelow(before + Range(a, b), b)
  {
  }

  lemma {:induction false} RangeCovers(before: seq<nat>, f: SparseFile, cs: nat, done: nat, from: nat, last: nat)
    requires f.Valid() && cs > 0 && Covers(before, f, cs, done * cs) && from / cs <= last && 0 <= from / cs
    requires forall p :: done * cs <= p < from && p < |f.content| ==> !f.data[p]
    ensures Covers(before + Range(from / cs, last), f, cs, last * cs)
  {
    var more := Range(from / cs, last);
    forall p | 0 <= p < |f.content| && p < last * cs && f.data[p] ensures p / cs in before + more {
      if p < done * cs {
        assert p / cs in before;
      } else {
        DivMono(from, p, cs);
        DivBelow(p, cs, last);
        assert more[p / cs - from / cs] == p / cs;
      }
    }
  }

  /** The clusters of one extent. */
  method ListExtent(before: seq<nat>, a: nat, b: nat) returns (idxs: seq<nat>)
    requires a <= b
    ensures idxs == before + Range(a, b)
  {
    idxs := before;
    for idx := a to b
      invariant idxs == before + Range(a, idx)
    {
      idxs := idxs + [idx];
    }
  }

  /** Walks the extents of the file: increasing cluster numbers that cover every allocated byte. */
  method ClustersWithData(f: SparseFile, cs: nat) returns (idxs: seq<nat>)
    requires f.Valid() && cs > 0
    ensures Increasing(idxs)
    ensures forall k :: 0 <= k < |idxs| ==> idxs[k] < CeilDiv(|f.content|, cs)
    ensures forall p :: 0 <= p < |f.content| && f.data[p] ==> p / cs in idxs
  {
    hide Increasing, CeilDiv, AllBelow, Covers, Range;
    idxs := [];
    var dataTo := 0;
    ghost var done: nat := 0;
    NothingListed(f, cs);
    while true
      invariant dataTo == done * cs && done <= CeilDiv(|f.content|, cs)
      invariant Increasing(idxs) && AllBelow(idxs, done) && Covers(idxs, f, cs, done * cs)
      decreases CeilDiv(|f.content|, cs) - done
    {
      var from := f.SeekData(dataTo);
      if from == None {
        break;
      }
      var hole := f.SeekHole(from.value);
      var next := AlignUp(hole, cs);
      ExtentClusters(done, from.value, hole, |f.content|, cs);
      ghost var last := CeilDiv(hole, cs);
      DivModUnique(last, 0, cs);
      assert next == last * cs && next / cs == last;
      RangeIncreases(idxs, done, from.value / cs, last);
      RangeCovers(idxs, f, cs, done, from.value, last);
      idxs := ListExtent(idxs, from.value / cs, next / cs);
      dataTo, done := next, last;
    }
    AllListed(idxs, f, cs, done);
  }

  lemma {:induction false} NothingListed(f: SparseFile, cs: nat)
    requires f.Valid() && cs > 0
    ensures Increasing([]) && AllBelow([], 0) && Covers([], f, cs, 0 * cs)
  {
  }

  /** No data is left behind what has been listed. */
  lemma {:induction false} AllListed(idxs: seq<nat>, f: SparseFile, cs: nat, done: nat)
    requires f.Valid() && cs > 0 && AllBelow(idxs, done) && Covers(idxs, f, cs, done * cs) && done <= CeilDiv(|f.content|, cs)
    requires forall p :: done * cs <= p < |f.content| ==> !f.data[p]
    ensures forall k :: 0 <= k < |idxs| ==> idxs[k] < CeilDiv(|f.content|, cs)
    ensures forall p :: 0 <= p < |f.content| && f.data[p] ==> p / cs in idxs
  {
    hide CeilDiv;
  }

  /** The level-1 bitmap marks exactly the tables that hold a marked cluster. */
  predicate CoversTables(l1: set<nat>, l2: set<nat>, tableOf: nat -> nat) {
    l1 == set i | i in l2 :: tableOf(i)
  }

  /** The level-2 table that maps guest cluster i, for tables of e entries. */
  function TableOf(e: nat): nat -> nat
    requires e > 0
  {
    (i: nat) => i / e
  }

  predicate HasData(raw: bytes, i: nat, cs: nat) {
    RawCluster(raw, i, cs) != Zeros(cs)
  }

  /** The level-2 bitmap marks exactly the guest clusters below n that are not all zero. */
  predicate MarksData(l2: set<nat>, raw: bytes, cs: nat, n: nat) {
    l2 == set i: nat | i < n && HasData(raw, i, cs)
  }

  predicate MarksListed(l2: set<nat>, raw: bytes, cs: nat, n: nat, listed: seq<nat>) {
    l2 == set i: nat | i < n && i in listed && HasData(raw, i, cs)
  }

  lemma {:induction false} MarksNothing(raw: bytes, cs: nat, n: nat)
    ensures MarksListed({}, raw, cs, n, [])
  {
  }

  lemma {:induction false} MarksStep(l2: set<nat>, raw: bytes, cs: nat, n: nat, listed: seq<nat>, idx: nat)
    requires MarksListed(l2, raw, cs, n, listed) && idx < n
    ensures MarksListed(if HasData(raw, idx, cs) then l2 + {idx} else l2, raw, cs, n, listed + [idx])
  {
  }

  lemma {:induction false} CoversStep(l1: set<nat>, l2: set<nat>, tableOf: nat -> nat, idx: nat)
    requires CoversTables(l1, l2, tableOf)
    ensures CoversTables(l1 + {tableOf(idx)}, l2 + {idx}, tableOf)
  {
  }

  /** Marks one data cluster, and its table when this is the table's first cluster. */
  method MarkCluster(l1: array<byte>, l2: array<byte>, idx: nat, l1Idx: nat) returns (newTable: bool)
    requires l1 != l2 && idx < 8 * l2.Length && l1Idx < 8 * l1.Length
    modifies l1, l2
    ensures SetBits(l2[..]) == old(SetBits(l2[..])) + {idx}
    ensures SetBits(l1[..]) == old(SetBits(l1[..])) + {l1Idx}
    ensures newTable == (l1Idx !in old(SetBits(l1[..])))
  {
    BitmapSet(l2, idx);
    assert l1[..] == old(l1[..]);
    newTable := !BitmapIsSet(l1[..], l1Idx);
    if newTable {
      BitmapSet(l1, l1Idx);
    }
  }

  /** Marks a candidate cluster if it is not all zero. */
  method MarkIfData(raw: bytes, cs: nat, idx: nat, l1Idx: nat, l1: array<byte>, l2: array<byte>) returns (data: bool, newTable: bool)
    requires l1 != l2 && idx < 8 * l2.Length && l1Idx < 8 * l1.Length
    modifies l1, l2
    ensures data == HasData(raw, idx, cs) && newTable == (data && l1Idx !in old(SetBits(l1[..])))
    ensures SetBits(l2[..]) == old(SetBits(l2[..])) + (if data then {idx} else {})
    ensures SetBits(l1[..]) == old(SetBits(l1[..])) + (if data then {l1Idx} else {})
  {
    hide SetBits;
    var cluster := ReadCluster(raw, idx, cs);
    data := cluster != Zeros(cs);
    newTable := false;
    if data {
      newTable := MarkCluster(l1, l2, idx, l1Idx);
    }
  }

  /** What marking candidate k does to the two bitmaps and the counters. */
  lemma {:induction false} MarkStep(s1: set<nat>, s2: set<nat>, raw: bytes, cs: nat, n: nat, m: nat, idxs: seq<nat>, k: nat, tableOf: nat -> nat)
    requires k < |idxs| && Increasing(idxs) && idxs[k] < n && tableOf(idxs[k]) < m
    requires MarksListed(s2, raw, cs, n, idxs[..k]) && CoversTables(s1, s2, tableOf)
    ensures var data, t := HasData(raw, idxs[k], cs), tableOf(idxs[k]);
            var s1', s2' := s1 + (if data then {t} else {}), s2 + (if data then {idxs[k]} else {});
            && MarksListed(s2', raw, cs, n, idxs[..k + 1]) && CoversTables(s1', s2', tableOf)
            && Rank(s2', n) == Rank(s2, n) + (if data then 1 else 0)
            && Rank(s1', m) == Rank(s1, m) + (if data && t !in s1 then 1 else 0)
  {
    hide HasData, Rank;
    var t := tableOf(idxs[k]);
    assert idxs[..k + 1] == idxs[..k] + [idxs[k]];
    MarksStep(s2, raw, cs, n, idxs[..k], idxs[k]);
    CoversStep(s1, s2, tableOf, idxs[k]);
    FreshMark(s2, raw, cs, n, idxs, k);
    RankAfterAdd(s2, idxs[k], n);
    if t in s1 {
      assert s1 + {t} == s1;
    } else {
      RankAfterAdd(s1, t, m);
    }
    assert s1 + {} == s1 && s2 + {} == s2;
  }

  /** The loop over the candidate clusters: marks the ones that are not all zero. */
  method MarkClusters(raw: bytes, cs: nat, e: nat, idxs: seq<nat>, n: nat, m: nat, l1: array<byte>, l2: array<byte>, ghost tableOf: nat -> nat)
    returns (l2Tables: nat, dataClusters: nat)
    requires l1 != l2 && e > 0 && Increasing(idxs)
    requires n <= 8 * l2.Length && m <= 8 * l1.Length
    requires forall k :: 0 <= k < |idxs| ==> idxs[k] < n && idxs[k] / e == tableOf(idxs[k]) < m
    requires SetBits(l1[..]) == {} && SetBits(l2[..]) == {}
    modifies l1, l2
    ensures MarksListed(SetBits(l2[..]), raw, cs, n, idxs)
    ensures CoversTables(SetBits(l1[..]), SetBits(l2[..]), tableOf)
    ensures dataClusters == Rank(SetBits(l2[..]), n) && l2Tables == Rank(SetBits(l1[..]), m)
  {
    MarksNothing(raw, cs, n);
    l2Tables, dataClusters := 0, 0;
    RankOfClearRange({}, 0, n);
    RankOfClearRange({}, 0, m);
    hide MarksListed, SetBits, CoversTables, Increasing, Rank, HasData;
    assert idxs[..0] == [];
    for k := 0 to |idxs|
      invariant MarksListed(SetBits(l2[..]), raw, cs, n, idxs[..k])
      invariant CoversTables(SetBits(l1[..]), SetBits(l2[..]), tableOf)
      invariant dataClusters == Rank(SetBits(l2[..]), n) && l2Tables == Rank(SetBits(l1[..]), m)
    {
      var idx := idxs[k];
      var l1Idx := idx / e;
      assert idx < n && l1Idx == tableOf(idx) < m;
      MarkStep(SetBits(l1[..]), SetBits(l2[..]), raw, cs, n, m, idxs, k, tableOf);
      var data, newTable := MarkIfData(raw, cs, idx, l1Idx, l1, l2);
      if data {
        dataClusters := dataClusters + 1;
        if newTable {
          l2Tables := l2Tables + 1;
        }
      }
    }
    assert idxs[..|idxs|] == idxs;
  }

  lemma {:induction false} FreshMark(l2: set<nat>, raw: bytes, cs: nat, n: nat, idxs: seq<nat>, k: nat)
    requires k < |idxs| && Increasing(idxs) && MarksListed(l2, raw, cs, n, idxs[..k])
    ensures idxs[k] !in l2
  {
  }

  method ScanInput(f: SparseFile, cs: nat, totalData: nat, l1Entries: nat, l1Tables: nat)
    returns (l1: array<byte>, l2: array<byte>, l2Tables: nat, dataClusters: nat)
    requires f.Valid() && ClusterSizeOk(cs)
    requires totalData >= CeilDiv(|f.content|, cs)
    requires l1Entries == CeilDiv(totalData, cs / 8) && l1Tables == CeilDiv(l1Entries, cs / 8)
    ensures fresh(l1) && fresh(l2)
    ensures 8 * l1.Length == l1Tables * (cs / 8) && 8 * l2.Length == l1Entries * (cs / 8)
    ensures MarksData(SetBits(l2[..]), f.content, cs, totalData)
    ensures CoversTables(SetBits(l1[..]), SetBits(l2[..]), TableOf(cs / 8))
    ensures totalData <= 8 * l2.Length && l1Entries <= 8 * l1.Length
    ensures dataClusters == Rank(SetBits(l2[..]), totalData) && l2Tables == Rank(SetBits(l1[..]), l1Entries)
  {
    TableGeometry(cs, 1);
    var e := cs / 8;
    RowsOfBytes(l1Tables, e);
    RowsOfBytes(l1Entries, e);
    l1 := new byte[l1Tables * e / 8](_ => 0);
    l2 := new byte[l1Entries * e / 8](_ => 0);
    ClearBitmap(l1[..]);
    ClearBitmap(l2[..]);
    var idxs := ClustersWithData(f, cs);
    forall k | 0 <= k < |idxs| ensures idxs[k] / e < l1Entries {
      DivBelow(idxs[k], e, l1Entries);
    }
    l2Tables, dataClusters := MarkClusters(f.content, cs, e, idxs, totalData, l1Entries, l1, l2, TableOf(e));
    forall i | 0 <= i < totalData && i !in idxs ensures !HasData(f.content, i, cs) {
      UncoveredIsZero(f, cs, idxs, i);
    }
  }

  /** A cluster that no extent touches reads as zeros. */
  lemma {:induction false} UncoveredIsZero(f: SparseFile, cs: nat, idxs: seq<nat>, i: nat)
    requires f.Valid() && cs > 0 && i !in idxs
    requires forall p :: 0 <= p < |f.content| && f.data[p] ==> p / cs in idxs
    ensures RawCluster(f.content, i, cs) == Zeros(cs)
  {
    forall k | 0 <= k < cs ensures RawCluster(f.content, i, cs)[k] == 0 {
      DivModUnique(i, k, cs);
    }
  }

  // ----- refcount sizing

  /** `blocks` refcount blocks can count `base` clusters, themselves and their tables. */
  predicate Counts(base: nat, blocks: nat, perBlock: nat, perTable: nat)
    requires perTable > 0
  {
    blocks * perBlock >= base + CeilDiv(blocks, perTable) + blocks
  }

  /** The sizing loop ends, and with the least number of blocks that can count everything. */
  method SizeRefcounts(base: nat, perBlock: nat, perTable: nat) returns (blocks: nat, tables: nat)
    requires perBlock >= 64 && perTable >= 64
    ensures tables == CeilDiv(blocks, perTable)
    ensures Counts(base, blocks, perBlock, perTable)
    ensures forall b: nat :: Counts(base, b, perBlock, perTable) ==> blocks <= b
    ensures blocks <= base + 2
  {
    var limit := base + 2;
    assert Counts(base, limit, perBlock, perTable) by {
      assert limit * perBlock >= limit * 64 by { MulMono(64, perBlock, limit); }
      CeilDivLeast(limit, perTable, limit);
    }
    blocks := CeilDiv(base, perBlock);
    tables := CeilDiv(blocks, perTable);
    forall b: nat | Counts(base, b, perBlock, perTable) ensures blocks <= b {
      CeilDivLeast(base, perBlock, b);
    }
    while true
      invariant tables == CeilDiv(blocks, perTable)
      invariant forall b: nat :: Counts(base, b, perBlock, perTable) ==> blocks <= b
      decreases limit - blocks
    {
      var newTotal := base + tables + blocks;
      var newBlocks := CeilDiv(newTotal, perBlock);
      if newBlocks > blocks {
        forall b: nat | Counts(base, b, perBlock, perTable) ensures newBlocks <= b {
          CeilDivMono(blocks, b, perTable);
          CeilDivLeast(newTotal, perBlock, b);
        }
        blocks := newBlocks;
        tables := CeilDiv(blocks, perTable);
      } else {
        MulMono(newBlocks, blocks, perBlock);
        break;
      }
    }
  }

  // ----- the plan

  const MAX_L1_BYTES := 32 * 1024 * 1024

  datatype Plan = Plan(
    cs: nat, rb: nat, diskSize: nat, totalData: nat, l1Entries: nat,
    l1Tables: nat, l2Tables: nat, dataClusters: nat, rcBlocks: nat, rcTables: nat)
  {
    function E(): nat { cs / 8 }
    function PerBlock(): nat requires rb > 0 { cs * 8 / rb }
    function RcBlockIdx(): nat { 1 + rcTables }
    function L1Idx(): nat { RcBlockIdx() + rcBlocks }
    function L2Idx(): nat { L1Idx() + l1Tables }
    function DataIdx(): nat { L2Idx() + l2Tables }
    function Total(): nat { DataIdx() + dataClusters }
    /** Clusters other than the refcount structures. */
    function Base(): nat { 1 + l1Tables + l2Tables + dataClusters }
  }

  /** What the source's sizing section establishes about the plan of a file. */
  predicate PlanOk(p: Plan, raw: bytes, l1: bytes, l2: bytes) {
    && ClusterSizeOk(p.cs) && RefcountBitsOk(p.rb)
    && p.diskSize == AlignUp(|raw|, 512)
    && p.totalData == CeilDiv(p.diskSize, p.cs)
    && p.l1Entries == CeilDiv(p.totalData, p.E())
    && p.l1Tables == CeilDiv(p.l1Entries, p.E())
    && p.l1Entries * 8 <= MAX_L1_BYTES
    && 8 * |l1| == p.l1Tables * p.E() && p.l1Entries <= 8 * |l1|
    && 8 * |l2| == p.l1Entries * p.E() && p.totalData <= 8 * |l2|
    && MarksData(SetBits(l2), raw, p.cs, p.totalData)
    && CoversTables(SetBits(l1), SetBits(l2), TableOf(p.E()))
    && p.dataClusters == Rank(SetBits(l2), p.totalData)
    && p.l2Tables == Rank(SetBits(l1), p.l1Entries)
    && p.rcTables == CeilDiv(p.rcBlocks, p.E())
    && Counts(p.Base(), p.rcBlocks, p.PerBlock(), p.E())
    && (forall b: nat :: Counts(p.Base(), b, p.PerBlock(), p.E()) ==> p.rcBlocks <= b)
    && p.rcBlocks <= p.Base() + 2
  }

  method MakePlan(f: SparseFile, cs: nat, rb: nat)
    returns (plan: Option<Plan>, l1: array<byte>, l2: array<byte>)
    requires f.Valid() && ClusterSizeOk(cs) && RefcountBitsOk(rb)
    ensures fresh(l1) && fresh(l2)
    ensures plan.Some? ==> plan.value.cs == cs && plan.value.rb == rb && PlanOk(plan.value, f.content, l1[..], l2[..])
    ensures plan == None <==> CeilDiv(CeilDiv(AlignUp(|f.content|, 512), cs), cs / 8) * 8 > MAX_L1_BYTES
  {
    TableGeometry(cs, rb);
    var e := cs / 8;
    var diskSize := AlignUp(|f.content|, 512);
    var totalData := CeilDiv(diskSize, cs);
    var l1Entries := CeilDiv(totalData, e);
    var l1Tables := CeilDiv(l1Entries, e);
    if l1Entries * 8 > MAX_L1_BYTES {
      l1, l2 := new byte[0], new byte[0];
      return None, l1, l2;
    }
    CeilDivMono(|f.content|, diskSize, cs);
    hide AlignUp, CeilDiv, MarksData, CoversTables, Rank, SetBits, Counts;
    var l2Tables, dataClusters;
    l1, l2, l2Tables, dataClusters := ScanInput(f, cs, totalData, l1Entries, l1Tables);
    var rcBlocks, rcTables := SizeRefcounts(1 + l1Tables + l2Tables + dataClusters, cs * 8 / rb, e);
    plan := Some(Plan(cs, rb, diskSize, totalData, l1Entries, l1Tables, l2Tables, dataClusters, rcBlocks, rcTables));
  }
}
