/** The regions of the file (scripts/qcow2-convert.py:208-327): each is written as planned, every
    offset fits its field, and together they tile the file. */
module Qcow2Regions {
  import opened Bytes
  import opened Arithmetic
  import opened Bitmap
  import opened Qcow2Plan
  import opened Qcow2Output
  import opened Qcow2Header
  import opened Qcow2Refcounts
  import opened Qcow2Tables

  /** The clusters of the file, region by region. */
  datatype Regions = Regions(header: bytes, rcTable: seq<bytes>, rcBlocks: seq<bytes>,
                             l1: seq<bytes>, l2: seq<bytes>, data: seq<bytes>)
  {
    function All(): seq<bytes> { [header] + rcTable + rcBlocks + l1 + l2 + data }
  }

  function L1Table(p: Plan, s1: set<nat>): seq<nat> {
    MapTable(s1, p.L2Idx(), p.cs, At(p.l1Tables, p.E()))
  }

  /** All level-2 entries, in guest order; the rows of absent tables are all zero. */
  function L2Table(p: Plan, s2: set<nat>): seq<nat> {
    MapTable(s2, p.DataIdx(), p.cs, At(p.l1Entries, p.E()))
  }

  /** Every region holds what the plan says. */
  ghost predicate RegionsOk(g: Regions, p: Plan, raw: bytes, s1: set<nat>, s2: set<nat>) {
    && p.rb > 0 && |g.header| == p.cs
    && g.rcTable == TableRows(RcTable(p, At(p.rcTables, p.E())), p.E(), p.rcTables)
    && g.rcBlocks == Blocks(p.cs, p.rb, p.PerBlock(), p.Total(), p.rcBlocks)
    && g.l1 == TableRows(L1Table(p, s1), p.E(), p.l1Tables)
    && g.l2 == SomeRows(L2Table(p, s2), p.E(), s1, p.l1Entries)
    && g.data == DataClusters(raw, p.cs, s2, p.totalData)
  }

  /** The numbers a reader needs to know about a plan, without the bitmaps' bytes. */
  predicate PlanFits(p: Plan, s1: set<nat>, s2: set<nat>) {
    && ClusterSizeOk(p.cs) && RefcountBitsOk(p.rb) && OffsetsFit(p)
    && p.cs == 8 * p.E() && p.E() >= 64
    && p.totalData == CeilDiv(p.diskSize, p.cs) && p.diskSize <= 0x20_0000_0000_0000
    && p.l1Entries == CeilDiv(p.totalData, p.E()) && p.l1Entries <= 0x40_0000
    && p.l1Tables == CeilDiv(p.l1Entries, p.E())
    && p.rcTables == CeilDiv(p.rcBlocks, p.E()) && p.Total() <= At(p.rcBlocks, p.PerBlock())
    && p.dataClusters == Rank(s2, p.totalData) && p.l2Tables == Rank(s1, p.l1Entries)
  }

  // ----- every offset fits its field

  lemma {:induction false} SizesBounded(p: Plan)
    requires ClusterSizeOk(p.cs) && p.diskSize <= 0x20_0000_0000_0000
    requires p.totalData == CeilDiv(p.diskSize, p.cs) && p.l1Entries == CeilDiv(p.totalData, p.E())
    requires p.l1Entries <= 0x40_0000 && p.l1Tables <= p.l1Entries && p.l2Tables <= p.l1Entries
    requires p.dataClusters <= p.totalData && p.rcBlocks <= p.Base() + 2
    requires p.rcTables == CeilDiv(p.rcBlocks, p.E())
    ensures OffsetsFit(p)
  {
    TableGeometry(p.cs, 1);
    FewerRows(p.rcBlocks, p.E());
    RcTablesBound(p.rcTables, p.rcBlocks, p.l1Entries, p.totalData, p.E());
    assert p.rcTables <= p.rcBlocks <= 1 + 0x80_0000 + p.totalData + 2;
    TotalBytes(p.Total(), p.totalData, p.cs, p.diskSize);
  }

  lemma {:induction false} FewerRows(n: nat, e: nat)
    requires e > 0
    ensures CeilDiv(n, e) <= n
  {
    MulMono(1, e, n);
    CeilDivLeast(n, e, n);
  }

  lemma {:induction false} TotalBytes(total: nat, data: nat, cs: nat, diskSize: nat)
    requires 0 < cs <= 0x20_0000 && diskSize <= 0x20_0000_0000_0000
    requires data == CeilDiv(diskSize, cs) && total <= 3 * (1 + 0x80_0000 + data) + 4
    ensures At(total, cs) < 0x100_0000_0000_0000
  {
    var n := 3 * (1 + 0x80_0000 + data) + 4;
    AtIs(total, cs);
    MulMono(total, n, cs);
    DataBytes(data, cs, diskSize);
    assert n == 3 * data + 0x180_0007;
    Distribute(3 * data, 0x180_0007, cs);
    Distribute3(data, cs);
    MulMono(0, cs, 0x180_0007);
    assert 0x180_0007 * cs <= 0x180_0007 * 0x20_0000;
  }

  /** The last data cluster may be partly used. */
  lemma {:induction false} DataBytes(data: nat, cs: nat, diskSize: nat)
    requires 0 < cs <= 0x20_0000 && data == CeilDiv(diskSize, cs)
    ensures data * cs <= diskSize + 0x20_0000
  {
    assert data > 0 ==> (data - 1) * cs == data * cs - cs;
  }

  lemma {:induction false} Distribute(a: nat, b: nat, cs: nat)
    ensures (a + b) * cs == a * cs + b * cs
  {
  }

  lemma {:induction false} Distribute3(a: nat, cs: nat)
    ensures 3 * a * cs == 3 * (a * cs)
  {
  }

  lemma {:induction false} RcTablesBound(tables: nat, blocks: nat, l1Entries: nat, data: nat, e: nat)
    requires e >= 64 && tables == CeilDiv(blocks, e) && l1Entries == CeilDiv(data, e)
    requires l1Entries <= 0x40_0000 && blocks <= 3 + 0x80_0000 + data
    ensures tables <= 0xffff_ffff
  {
    MulMono(l1Entries, 0x40_0000, e);
    assert (0x40_0000 + 0x2_0001) * e == 0x40_0000 * e + 0x2_0001 * e;
    MulMono(64, e, 0x2_0001);
    CeilDivLeast(blocks, e, 0x40_0000 + 0x2_0001);
  }

  lemma {:induction false} PlanOkFits(p: Plan, raw: bytes, l1: bytes, l2: bytes)
    requires PlanOk(p, raw, l1, l2) && p.diskSize <= 0x20_0000_0000_0000
    ensures PlanFits(p, SetBits(l1), SetBits(l2))
    ensures BoundedBy(SetBits(l2), p.totalData) && BoundedBy(SetBits(l1), p.l1Entries)
  {
    TableGeometry(p.cs, p.rb);
    FewerRows(p.l1Entries, p.E());
    RankMono(SetBits(l1), 0, p.l1Entries);
    RankMono(SetBits(l2), 0, p.totalData);
    SizesBounded(p);
    AtIs(p.rcBlocks, p.PerBlock());
    TablesBounded(SetBits(l1), SetBits(l2), p.E(), p.totalData, p.l1Entries);
  }

  lemma {:induction false} TablesBounded(s1: set<nat>, s2: set<nat>, e: nat, totalData: nat, l1Entries: nat)
    requires e > 0 && CoversTables(s1, s2, TableOf(e)) && BoundedBy(s2, totalData) && l1Entries == CeilDiv(totalData, e)
    ensures BoundedBy(s1, l1Entries)
  {
    forall t | t in s1 ensures t < l1Entries {
      var i :| i in s2 && TableOf(e)(i) == t;
      DivBelow(i, e, l1Entries);
    }
  }

  // ----- the writer

  method WriteRegions(p: Plan, raw: bytes, l1: bytes, l2: bytes, ghost s1: set<nat>, ghost s2: set<nat>)
    returns (g: Regions)
    requires PlanFits(p, s1, s2) && Represents(l1, s1) && Represents(l2, s2)
    requires AbsentTablesEmpty(s1, s2, p.E()) && BoundedBy(s2, p.totalData) && BoundedBy(s1, p.l1Entries)
    requires At(p.l1Tables, p.E()) == 8 * |l1| && At(p.l1Entries, p.E()) == 8 * |l2|
    requires p.l1Entries <= 8 * |l1| && p.totalData <= 8 * |l2|
    ensures RegionsOk(g, p, raw, s1, s2) && IsHeader(g.header, p)
  {
    TableGeometry(p.cs, p.rb);
    var header := BuildHeader(p);
    var rcTable := WriteRefcountTable(p);
    var rcBlocks := WriteRefcountBlocks(p.cs, p.rb, p.PerBlock(), p.Total(), p.rcBlocks);
    var l1Rows := WriteL1Tables(l1, p.l1Tables, p.E(), p.cs, p.L2Idx(), s1, p.l1Entries, p.Total());
    var l2Rows := WriteL2Tables(l1, l2, p.l1Entries, p.E(), p.cs, p.DataIdx(), s1, s2, p.totalData, p.Total());
    var data := WriteData(raw, p.cs, p.totalData, l2, s2);
    g := Regions(header, rcTable, rcBlocks, l1Rows, l2Rows, data);
  }

  // ----- the regions tile the file

  lemma {:induction false} RegionSizes(g: Regions, p: Plan, raw: bytes, s1: set<nat>, s2: set<nat>)
    requires PlanFits(p, s1, s2) && RegionsOk(g, p, raw, s1, s2)
    ensures |g.header| == p.cs && AllOfSize(g.rcTable, p.cs) && AllOfSize(g.rcBlocks, p.cs)
    ensures AllOfSize(g.l1, p.cs) && AllOfSize(g.l2, p.cs) && AllOfSize(g.data, p.cs)
    ensures |g.rcTable| == p.rcTables && |g.rcBlocks| == p.rcBlocks && |g.l1| == p.l1Tables
    ensures |g.l2| == p.l2Tables && |g.data| == p.dataClusters
  {
    RowSizes(RcTable(p, At(p.rcTables, p.E())), p.E(), p.rcTables);
    RowSizes(L1Table(p, s1), p.E(), p.l1Tables);
    SomeRowSizes(L2Table(p, s2), p.E(), s1, p.l1Entries);
    DataSizes(raw, p.cs, s2, p.totalData);
    BlockSizes(p.cs, p.rb, p.PerBlock(), p.Total(), p.rcBlocks);
  }

  lemma {:induction false} BlockSizes(cs: nat, rb: nat, perBlock: nat, total: nat, n: nat)
    ensures AllOfSize(Blocks(cs, rb, perBlock, total, n), cs)
  {
    if n > 0 {
      BlockSizes(cs, rb, perBlock, total, n - 1);
    }
  }

  /** Each region starts where the plan says and ends where the next one starts. */
  lemma {:induction false} RegionsTile(g: Regions, p: Plan, raw: bytes, s1: set<nat>, s2: set<nat>)
    requires PlanFits(p, s1, s2) && RegionsOk(g, p, raw, s1, s2)
    ensures |g.All()| == p.Total() && AllOfSize(g.All(), p.cs)
    ensures g.All()[0] == g.header
    ensures g.All()[1..p.RcBlockIdx()] == g.rcTable
    ensures g.All()[p.RcBlockIdx()..p.L1Idx()] == g.rcBlocks
    ensures g.All()[p.L1Idx()..p.L2Idx()] == g.l1
    ensures g.All()[p.L2Idx()..p.DataIdx()] == g.l2
    ensures g.All()[p.DataIdx()..] == g.data
  {
    RegionSizes(g, p, raw, s1, s2);
    hide PlanFits, RegionsOk, AllOfSize, Rank, CeilDiv;
    TileSix([g.header], g.rcTable, g.rcBlocks, g.l1, g.l2, g.data, p.cs);
  }

  lemma {:induction false} TileSix(
    a: seq<bytes>, b: seq<bytes>, c: seq<bytes>, d: seq<bytes>, e: seq<bytes>, f: seq<bytes>, cs: nat)
    requires AllOfSize(a, cs) && AllOfSize(b, cs) && AllOfSize(c, cs) && AllOfSize(d, cs) && AllOfSize(e, cs) && AllOfSize(f, cs)
    ensures var s := a + b + c + d + e + f;
            var i, j, k, m := |a| + |b|, |a| + |b| + |c|, |a| + |b| + |c| + |d|, |a| + |b| + |c| + |d| + |e|;
            && s[..|a|] == a && s[|a|..i] == b && s[i..j] == c && s[j..k] == d && s[k..m] == e && s[m..] == f
            && |s| == m + |f| && AllOfSize(s, cs)
  {
  }

  lemma {:induction false} RowSizes(table: seq<nat>, e: nat, n: nat)
    requires At(n, e) <= |table|
    ensures AllOfSize(TableRows(table, e, n), 8 * e)
  {
    forall t | 0 <= t < n ensures |TableRows(table, e, n)[t]| == 8 * e { TableRowsAt(table, e, n, t); }
  }

  lemma {:induction false} SomeRowSizes(table: seq<nat>, e: nat, present: set<nat>, n: nat)
    requires At(n, e) <= |table|
    ensures AllOfSize(SomeRows(table, e, present, n), 8 * e)
  {
    if n > 0 {
      SomeRowSizes(table, e, present, n - 1);
    }
  }

  // ----- where the clusters lie in the file

  /** Host cluster c of the file. */
  ghost predicate PlacedAt(file: bytes, cs: nat, c: nat, cluster: bytes) {
    At(c, cs) + cs <= |file| && file[At(c, cs)..At(c, cs) + cs] == cluster
  }

  /** The file holds these clusters one after another from host cluster idx on. */
  ghost predicate Placed(file: bytes, cs: nat, idx: nat, clusters: seq<bytes>) {
    forall r :: 0 <= r < |clusters| ==> PlacedAt(file, cs, idx + r, clusters[r])
  }

  lemma {:induction false} PlaceRegion(all: seq<bytes>, cs: nat, idx: nat, end: nat, clusters: seq<bytes>)
    requires AllOfSize(all, cs) && idx <= end <= |all| && all[idx..end] == clusters
    ensures Placed(Flatten(all), cs, idx, clusters)
  {
    forall r | 0 <= r < |clusters| ensures PlacedAt(Flatten(all), cs, idx + r, clusters[r]) {
      FlattenAt(all, cs, idx + r);
      assert all[idx + r] == all[idx..end][r];
    }
  }

  /** All a reader can find out about the level-1, level-2 and data regions. */
  ghost predicate MappingPlaced(file: bytes, p: Plan, raw: bytes, s1: set<nat>, s2: set<nat>) {
    && Placed(file, p.cs, p.L1Idx(), TableRows(L1Table(p, s1), p.E(), p.l1Tables))
    && Placed(file, p.cs, p.L2Idx(), SomeRows(L2Table(p, s2), p.E(), s1, p.l1Entries))
    && Placed(file, p.cs, p.DataIdx(), DataClusters(raw, p.cs, s2, p.totalData))
  }

  /** And about the refcount table and blocks. */
  ghost predicate RefcountsPlaced(file: bytes, p: Plan) {
    && p.rb > 0
    && Placed(file, p.cs, 1, TableRows(RcTable(p, At(p.rcTables, p.E())), p.E(), p.rcTables))
    && Placed(file, p.cs, p.RcBlockIdx(), Blocks(p.cs, p.rb, p.PerBlock(), p.Total(), p.rcBlocks))
  }

  lemma {:induction false} RegionsPlaced(g: Regions, p: Plan, raw: bytes, s1: set<nat>, s2: set<nat>)
    requires PlanFits(p, s1, s2) && RegionsOk(g, p, raw, s1, s2)
    ensures MappingPlaced(Flatten(g.All()), p, raw, s1, s2) && RefcountsPlaced(Flatten(g.All()), p)
    ensures |Flatten(g.All())| == At(p.Total(), p.cs) && Placed(Flatten(g.All()), p.cs, 0, [g.header])
  {
    RegionsTile(g, p, raw, s1, s2);
    FlattenSize(g.All(), p.cs);
    assert g.All()[0..1] == [g.header];
    assert g.All()[p.DataIdx()..p.Total()] == g.data;
    PlaceRegion(g.All(), p.cs, 0, 1, [g.header]);
    PlaceRegion(g.All(), p.cs, 1, p.RcBlockIdx(), g.rcTable);
    PlaceRegion(g.All(), p.cs, p.RcBlockIdx(), p.L1Idx(), g.rcBlocks);
    PlaceRegion(g.All(), p.cs, p.L1Idx(), p.L2Idx(), g.l1);
    PlaceRegion(g.All(), p.cs, p.L2Idx(), p.DataIdx(), g.l2);
    PlaceRegion(g.All(), p.cs, p.DataIdx(), p.Total(), g.data);
  }
}
