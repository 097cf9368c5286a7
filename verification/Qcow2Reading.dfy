/** Reading the emitted file: the header opens, table entries come back, and following them leads to
    the guest bytes and the refcounts (QEMU's docs/interop/qcow2, "Host cluster management" and
    "Cluster mapping"). */
module Qcow2Reading {
  import opened Bytes
  import opened Arithmetic
  import opened Bitmap
  import opened Qcow2Plan
  import opened Qcow2Format
  import opened Qcow2Output
  import opened Qcow2Header
  import opened Qcow2Refcounts
  import opened Qcow2Tables
  import opened Qcow2Regions

  // ----- reading the header

  lemma {:induction false} HeaderField(file: bytes, p: Plan, k: nat)
    requires p.cs > 0 && p.rb > 0 && |file| >= 104 && file[..104] == Packed(HeaderFields(p))
    requires k < 18 && HeaderFields(p)[k].1 < Pow256(HeaderFields(p)[k].0)
    ensures FieldOffset(HeaderFields(p), k) + HeaderFields(p)[k].0 <= 104
    ensures Field(file, FieldOffset(HeaderFields(p), k), HeaderFields(p)[k].0) == HeaderFields(p)[k].1
  {
    HeaderFieldOffsets(p);
    hide HeaderFields, FieldOffset, Packed, FromBE, Pow256;
    var f := HeaderFields(p);
    var a, w := FieldOffset(f, k), f[k].0;
    UnpackField(f, k);
    FieldWithin(f, k, 18);
    assert file[a..a + w] == file[..104][a..a + w];
  }

  /** What the header holds, as far as the numbers fit their fields. */
  predicate HeaderFits(file: bytes, p: Plan) {
    && ClusterSizeOk(p.cs) && RefcountBitsOk(p.rb) && |file| >= 104 && file[..104] == Packed(HeaderFields(p))
    && p.diskSize <= 0x20_0000_0000_0000 && p.l1Entries <= 0x40_0000 && OffsetsFit(p)
  }

  lemma {:induction false} HeaderOpens(file: bytes, p: Plan)
    requires HeaderFits(file, p)
    ensures Opens(file) && Pow2(Field(file, 20, 4)) == p.cs && Pow2(Field(file, 96, 4)) == p.rb
  {
    LogsAreExact(p.cs, p.rb);
    HeaderFieldOffsets(p);
    Pow256Values();
    HeaderField(file, p, 0);
    HeaderField(file, p, 1);
    HeaderField(file, p, 2);
    HeaderField(file, p, 4);
    HeaderField(file, p, 6);
    HeaderField(file, p, 11);
    HeaderField(file, p, 13);
    HeaderField(file, p, 16);
    HeaderField(file, p, 17);
  }

  lemma {:induction false} HeaderEmpty(file: bytes, p: Plan)
    requires HeaderFits(file, p)
    ensures NothingElse(file)
  {
    HeaderFieldOffsets(p);
    Pow256Values();
    HeaderField(file, p, 3);
    HeaderField(file, p, 12);
    HeaderField(file, p, 14);
    HeaderField(file, p, 15);
  }

  lemma {:induction false} HeaderNumbers(file: bytes, p: Plan)
    requires HeaderFits(file, p)
    ensures Field(file, 24, 8) == p.diskSize && Field(file, 36, 4) == p.l1Entries
    ensures Field(file, 40, 8) == if p.l1Tables == 0 then 0 else At(p.L1Idx(), p.cs)
    ensures Field(file, 48, 8) == At(1, p.cs) && Field(file, 56, 4) == p.rcTables
  {
    HeaderFieldOffsets(p);
    Pow256Values();
    AtMono(p.L1Idx(), p.Total(), p.cs);
    AtMono(1, p.Total(), p.cs);
    HeaderField(file, p, 5);
    HeaderField(file, p, 7);
    HeaderField(file, p, 8);
    HeaderField(file, p, 9);
    HeaderField(file, p, 10);
  }

  function PlanHeader(p: Plan): Header {
    Header(p.cs, p.rb, p.diskSize, p.l1Entries, if p.l1Tables == 0 then 0 else At(p.L1Idx(), p.cs), At(1, p.cs), p.rcTables)
  }

  lemma {:induction false} HeaderReads(file: bytes, p: Plan)
    requires HeaderFits(file, p)
    ensures OpenImage(file) == Some(PlanHeader(p)) && NothingElse(file)
  {
    HeaderOpens(file, p);
    HeaderEmpty(file, p);
    HeaderNumbers(file, p);
  }

  // ----- reading tables

  lemma {:induction false} AtTimes8(t: nat, e: nat)
    ensures 8 * At(t, e) == At(t, 8 * e)
  {
    AtIs(t, e);
    AtIs(t, 8 * e);
  }

  /** Entry j of the cluster that lies at idx + r. */
  lemma {:induction false} ReadEntry(file: bytes, cs: nat, idx: nat, clusters: seq<bytes>, r: nat, j: nat)
    requires Placed(file, cs, idx, clusters) && r < |clusters| && |clusters[r]| == cs && 8 * j + 8 <= cs
    ensures ReadQ(file, At(idx + r, cs) + 8 * j) == Some(Entry(clusters[r], j))
  {
    var o := At(idx + r, cs);
    assert PlacedAt(file, cs, idx + r, clusters[r]);
    SliceOfSlice(file, o, cs, 8 * j, 8 * j + 8);
  }

  /** Entry j of a row of a table. */
  lemma {:induction false} ReadRow(file: bytes, e: nat, idx: nat, clusters: seq<bytes>, r: nat, table: seq<nat>, first: nat, j: nat)
    requires Placed(file, 8 * e, idx, clusters) && r < |clusters| && first + e <= |table| && j < e
    requires clusters[r] == TableRow(table, first, e) && table[first + j] <= 0xffff_ffff_ffff_ffff
    ensures ReadQ(file, At(idx + r, 8 * e) + 8 * j) == Some(table[first + j])
  {
    EntryOfPackQ(table[first..first + e], j);
    ReadEntry(file, 8 * e, idx, clusters, r, j);
  }

  lemma {:induction false} Locate(i: nat, n: nat, e: nat) returns (t: nat, j: nat)
    requires i < At(n, e)
    ensures t < n && j < e && i == At(t, e) + j
  {
    if i < At(n - 1, e) {
      t, j := Locate(i, n - 1, e);
    } else {
      t, j := n - 1, i - At(n - 1, e);
    }
  }

  /** Entry i of a table whose rows are all there. */
  lemma {:induction false} ReadTable(file: bytes, e: nat, idx: nat, n: nat, table: seq<nat>, i: nat)
    requires At(n, e) <= |table| && Placed(file, 8 * e, idx, TableRows(table, e, n))
    requires i < At(n, e) && table[i] <= 0xffff_ffff_ffff_ffff
    ensures ReadQ(file, At(idx, 8 * e) + 8 * i) == Some(table[i])
  {
    var t, j := Locate(i, n, e);
    TableRowsAt(table, e, n, t);
    ReadRow(file, e, idx, TableRows(table, e, n), t, table, At(t, e), j);
    AtTimes8(t, e);
    AtAdd(idx, t, 8 * e);
  }

  /** Cluster-aligned offsets survive the flag bits of a table entry. */
  lemma {:induction false} EntryOffset(idx: nat, cs: nat)
    requires ClusterSizeOk(cs) && idx > 0 && At(idx, cs) < 0x100_0000_0000_0000
    ensures var entry := At(idx, cs) + COPIED;
            && OffsetBits(entry) == At(idx, cs) == entry % COPIED != 0 && entry / COPIED == 1
            && entry % COPIED < COMPRESSED && entry % 2 == 0 && entry <= 0xffff_ffff_ffff_ffff
    ensures At(idx, cs) / 512 * 512 == At(idx, cs)
  {
    hide OffsetBits;
    var a := At(idx, cs);
    AlignedAt(idx, cs);
    AtMono(1, idx, cs);
    assert At(1, cs) == cs;
    AlignedParts(a);
    FlagsApart(a / 512);
    FlagsAbove(a / 512);
  }

  lemma {:induction false} AlignedParts(a: nat)
    requires a % 512 == 0
    ensures a / 512 * 512 == a && a / 512 >= 0
  {
  }

  /** The offset field of an entry for q blocks of 512 bytes. */
  lemma {:induction false} FlagsApart(q: nat)
    requires q < 0x8000_0000_0000
    ensures OffsetBits(q * 512 + COPIED) == q * 512
  {
    DivModUnique(q + 0x40_0000_0000_0000, 0, 512);
    DivModUnique(128, q, 0x8000_0000_0000);
  }

  /** Its flags. */
  lemma {:induction false} FlagsAbove(q: nat)
    requires q < 0x8000_0000_0000
    ensures var entry := q * 512 + COPIED;
            && entry % COPIED == q * 512 && entry / COPIED == 1
            && entry % COPIED < COMPRESSED && entry % 2 == 0 && entry <= 0xffff_ffff_ffff_ffff
  {
    DivModUnique(1, q * 512, COPIED);
    DivModUnique(q * 256 + 0x4000_0000_0000_0000, 0, 2);
  }

  lemma {:induction false} AlignedAt(idx: nat, cs: nat)
    requires cs % 512 == 0
    ensures At(idx, cs) % 512 == 0
  {
    if idx > 0 {
      AlignedAt(idx - 1, cs);
    }
  }

  // ----- following the mapping

  lemma {:induction false} MapEntryFits(s: set<nat>, n: nat, base: nat, top: nat, cs: nat, i: nat)
    requires ClusterSizeOk(cs) && i < n && 0 < base && base + Rank(s, n) <= top && At(top, cs) < 0x100_0000_0000_0000
    ensures MapEntry(s, base, cs, i) <= 0xffff_ffff_ffff_ffff && (i in s <==> MapEntry(s, base, cs, i) != 0)
    ensures i in s ==> OffsetBits(MapEntry(s, base, cs, i)) == At(base + Rank(s, i), cs) != 0
    ensures i in s ==> MapEntry(s, base, cs, i) % COPIED < COMPRESSED && MapEntry(s, base, cs, i) % 2 == 0
    ensures i in s ==> MapEntry(s, base, cs, i) % COPIED == At(base + Rank(s, i), cs) && MapEntry(s, base, cs, i) / COPIED == 1
  {
    RankMono(s, i, n);
    AtMono(base + Rank(s, i), top, cs);
    EntryOffset(base + Rank(s, i), cs);
  }

  lemma {:induction false} RowsCover(i: nat, n: nat, e: nat)
    requires e > 0 && i < n
    ensures i < At(CeilDiv(n, e), e) && CeilDiv(n, e) > 0
  {
    AtIs(CeilDiv(n, e), e);
  }

  /** Entry i of a mapping table whose rows are all there. */
  lemma {:induction false} L1Lookup(file: bytes, e: nat, idx: nat, rows: nat, s: set<nat>, base: nat, i: nat)
    requires Placed(file, 8 * e, idx, TableRows(MapTable(s, base, 8 * e, At(rows, e)), e, rows))
    requires i < At(rows, e) && MapEntry(s, base, 8 * e, i) <= 0xffff_ffff_ffff_ffff
    ensures ReadQ(file, At(idx, 8 * e) + 8 * i) == Some(MapEntry(s, base, 8 * e, i))
  {
    MapTableAt(s, base, 8 * e, At(rows, e), i);
    ReadTable(file, e, idx, rows, MapTable(s, base, 8 * e, At(rows, e)), i);
  }

  /** Entry j of row t, of which only the rows in s1 are there. */
  lemma {:induction false} L2Lookup(file: bytes, e: nat, idx: nat, n: nat, s1: set<nat>, s: set<nat>, base: nat, t: nat, j: nat)
    requires Placed(file, 8 * e, idx, SomeRows(MapTable(s, base, 8 * e, At(n, e)), e, s1, n))
    requires t < n && t in s1 && j < e && MapEntry(s, base, 8 * e, At(t, e) + j) <= 0xffff_ffff_ffff_ffff
    ensures ReadQ(file, At(idx + Rank(s1, t), 8 * e) + 8 * j) == Some(MapEntry(s, base, 8 * e, At(t, e) + j))
  {
    hide MapTable, MapEntry, SomeRows, Rank, ReadQ, At;
    var table := MapTable(s, base, 8 * e, At(n, e));
    SomeRowsAt(table, e, s1, n, t);
    MapTableAt(s, base, 8 * e, At(n, e), At(t, e) + j);
    ReadRow(file, e, idx, SomeRows(table, e, s1, n), Rank(s1, t), table, At(t, e), j);
  }

  /** The bytes of a data cluster are the bytes of its guest cluster. */
  lemma {:induction false} DataLookup(file: bytes, cs: nat, idx: nat, raw: bytes, s: set<nat>, n: nat, i: nat, k: nat)
    requires Placed(file, cs, idx, DataClusters(raw, cs, s, n)) && i in s && i < n && k < cs
    ensures At(idx + Rank(s, i), cs) + k < |file|
    ensures file[At(idx + Rank(s, i), cs) + k] == RawCluster(raw, i, cs)[k]
  {
    DataClustersAt(raw, cs, s, n, i);
    var o := At(idx + Rank(s, i), cs);
    assert PlacedAt(file, cs, idx + Rank(s, i), DataClusters(raw, cs, s, n)[Rank(s, i)]);
    assert file[o..o + cs][k] == file[o + k];
  }

  /** Following two mapping entries to a byte: all that ReadMapped depends on. */
  lemma {:induction false} FollowEntries(file: bytes, l1Offset: nat, t: nat, j: nat, k: nat,
                                         e1: nat, o1: nat, e2: nat, o2: nat, v: byte)
    requires ReadQ(file, l1Offset + 8 * t) == Some(e1)
    requires e1 == 0 ==> v == 0
    requires e1 != 0 ==> OffsetBits(e1) == o1 != 0 && ReadQ(file, o1 + 8 * j) == Some(e2)
    requires e2 == 0 ==> v == 0
    requires e2 != 0 ==> OffsetBits(e2) == o2 != 0 && e2 % COPIED < COMPRESSED && e2 % 2 == 0
    requires e1 != 0 && e2 != 0 ==> o2 + k < |file| && file[o2 + k] == v
    ensures ReadMapped(file, l1Offset, t, j, k) == Some(v)
  {
  }

  /** The byte that the mapping gives for guest cluster i. */
  function MappedByte(raw: bytes, s2: set<nat>, cs: nat, i: nat, k: nat): byte
    requires k < cs
  {
    if i in s2 then RawCluster(raw, i, cs)[k] else 0
  }

  /** Guest cluster At(t, E) + j, byte k, through level 1, level 2 and the data region. */
  lemma {:induction false} ClusterReads(file: bytes, p: Plan, raw: bytes, s1: set<nat>, s2: set<nat>, t: nat, j: nat, k: nat)
    requires PlanFits(p, s1, s2) && MappingPlaced(file, p, raw, s1, s2)
    requires t < p.l1Entries <= At(p.l1Tables, p.E()) && j < p.E() && k < p.cs
    requires At(t, p.E()) + j < p.totalData && (At(t, p.E()) + j in s2 ==> t in s1)
    ensures ReadMapped(file, At(p.L1Idx(), p.cs), t, j, k) == Some(MappedByte(raw, s2, p.cs, At(t, p.E()) + j, k))
  {
    hide MapEntry, OffsetBits, ReadQ, ReadMapped, RawCluster, MapTable, DataClusters, SomeRows, TableRows;
    var i, e := At(t, p.E()) + j, p.E();
    MapEntryFits(s1, p.l1Entries, p.L2Idx(), p.Total(), p.cs, t);
    MapEntryFits(s2, p.totalData, p.DataIdx(), p.Total(), p.cs, i);
    L1Lookup(file, e, p.L1Idx(), p.l1Tables, s1, p.L2Idx(), t);
    if t in s1 {
      L2Lookup(file, e, p.L2Idx(), p.l1Entries, s1, s2, p.DataIdx(), t, j);
    }
    if i in s2 {
      DataLookup(file, p.cs, p.DataIdx(), raw, s2, p.totalData, i, k);
    }
    FollowEntries(file, At(p.L1Idx(), p.cs), t, j, k,
                  MapEntry(s1, p.L2Idx(), p.cs, t), At(p.L2Idx() + Rank(s1, t), p.cs),
                  MapEntry(s2, p.DataIdx(), p.cs, i), At(p.DataIdx() + Rank(s2, i), p.cs),
                  MappedByte(raw, s2, p.cs, i, k));
  }

  /** Where the reader's divisions take a guest offset. */
  lemma {:induction false} OffsetParts(off: nat, cs: nat, e: nat)
    requires cs > 0 && e > 0
    ensures off / cs >= 0 && off / cs / e >= 0
    ensures At(off / cs / e, e) + off / cs % e == off / cs
    ensures off / cs * cs + off % cs == off
  {
    DivNonNeg(off, cs);
    DivNonNeg(off / cs, e);
    AtIs(off / cs / e, e);
  }

  /** A cluster the bitmap does not mark is all zero. */
  lemma {:induction false} UnmarkedIsZero(raw: bytes, s2: set<nat>, cs: nat, n: nat, i: nat, k: nat)
    requires MarksData(s2, raw, cs, n) && i < n && i !in s2 && k < cs
    ensures RawCluster(raw, i, cs)[k] == 0
  {
    assert !HasData(raw, i, cs);
    assert Zeros(cs)[k] == 0;
  }

  /** A marked cluster's table is marked. */
  lemma {:induction false} MarkedTable(s1: set<nat>, s2: set<nat>, e: nat, t: nat, j: nat)
    requires e > 0 && CoversTables(s1, s2, TableOf(e)) && j < e && At(t, e) + j in s2
    ensures t in s1
  {
    AtDivMod(t, j, e);
    assert TableOf(e)(At(t, e) + j) == t;
  }

  lemma {:induction false} RowOfCluster(t: nat, j: nat, e: nat, n: nat)
    requires e > 0 && j < e && At(t, e) + j < n
    ensures t < CeilDiv(n, e)
  {
    AtDivMod(t, j, e);
    DivBelow(At(t, e) + j, e, CeilDiv(n, e));
  }

  lemma {:induction false} GuestMapped(file: bytes, p: Plan, raw: bytes, s1: set<nat>, s2: set<nat>, i: nat, k: nat, off: nat)
    requires PlanFits(p, s1, s2) && MappingPlaced(file, p, raw, s1, s2) && off < p.diskSize
    requires i == off / p.cs && k == off % p.cs && i < p.totalData
    requires i / p.E() < p.l1Entries && (i in s2 ==> i / p.E() in s1)
    ensures ReadGuest(file, PlanHeader(p), off) == Some(MappedByte(raw, s2, p.cs, i, k))
  {
    hide ReadMapped, MappedByte, MappingPlaced, CeilDiv, Rank;
    OffsetParts(off, p.cs, p.E());
    RowsCover(i / p.E(), p.l1Entries, p.E());
    RowsCover(p.l1Entries - 1, p.l1Entries, p.E());
    ClusterReads(file, p, raw, s1, s2, i / p.E(), i % p.E(), k);
  }

  /** The mapped byte is the raw image's, whether or not its cluster is marked. */
  lemma {:induction false} MappedIsRaw(raw: bytes, s2: set<nat>, cs: nat, n: nat, i: nat, k: nat)
    requires MarksData(s2, raw, cs, n) && i < n && k < cs
    ensures MappedByte(raw, s2, cs, i, k) == RawByte(raw, i * cs + k)
  {
    hide MarksData;
    if i !in s2 {
      UnmarkedIsZero(raw, s2, cs, n, i, k);
    }
  }

  /** A guest offset below the disk size lies in a cluster that the table covers, and in a marked table if it is
      marked itself. */
  lemma {:induction false} OffsetMapped(p: Plan, s1: set<nat>, s2: set<nat>, off: nat)
    requires PlanFits(p, s1, s2) && CoversTables(s1, s2, TableOf(p.E())) && off < p.diskSize
    ensures off / p.cs < p.totalData && off / p.cs / p.E() < p.l1Entries
    ensures off / p.cs in s2 ==> off / p.cs / p.E() in s1
  {
    OffsetParts(off, p.cs, p.E());
    var i := off / p.cs;
    DivBelow(off, p.cs, p.totalData);
    RowOfCluster(i / p.E(), i % p.E(), p.E(), p.totalData);
    if i in s2 {
      MarkedTable(s1, s2, p.E(), i / p.E(), i % p.E());
    }
  }

  lemma {:induction false} PlanPositive(p: Plan, s1: set<nat>, s2: set<nat>)
    requires PlanFits(p, s1, s2)
    ensures p.cs > 0 && p.E() > 0
  {
  }

  /** Every guest offset below the disk size reads as the raw image's byte. */
  lemma {:induction false} GuestReads(file: bytes, p: Plan, raw: bytes, s1: set<nat>, s2: set<nat>, off: nat)
    requires PlanFits(p, s1, s2) && MappingPlaced(file, p, raw, s1, s2) && off < p.diskSize
    requires CoversTables(s1, s2, TableOf(p.E())) && MarksData(s2, raw, p.cs, p.totalData)
    ensures ReadGuest(file, PlanHeader(p), off) == Some(RawByte(raw, off))
  {
    hide ReadGuest, RawByte, MappedByte, PlanFits, MappingPlaced, CoversTables, MarksData;
    PlanPositive(p, s1, s2);
    OffsetParts(off, p.cs, p.E());
    var i, k := off / p.cs, off % p.cs;
    OffsetMapped(p, s1, s2, off);
    MappedIsRaw(raw, s2, p.cs, p.totalData, i, k);
    GuestMapped(file, p, raw, s1, s2, i, k, off);
  }

  // ----- every cluster is counted exactly once

  /** Following a refcount table entry to a refcount: all that CountAt depends on. */
  lemma {:induction false} FollowCount(file: bytes, h: Header, i: nat, j: nat, entry: nat, block: bytes, v: nat)
    requires i < h.rcTableClusters * (h.cs / 8) && ReadQ(file, h.rcTableOffset + 8 * i) == Some(entry)
    requires entry / 512 * 512 == entry && (entry == 0 ==> v == 0)
    requires entry != 0 ==> entry + h.cs <= |file| && file[entry..entry + h.cs] == block && |block| == h.cs
    requires entry != 0 ==> HasRefcount(h.cs, h.rb, j) && |block| == h.cs && RefcountAt(block, h.rb, j) == v
    ensures CountAt(file, h, i, j) == Some(v)
  {
  }

  lemma {:induction false} UsedCount(i: nat, j: nat, cs: nat, rb: nat, perBlock: nat, total: nat)
    requires RefcountBitsOk(rb) && perBlock * rb == 8 * cs && j < perBlock
    ensures HasRefcount(cs, rb, j)
    ensures RefcountAt(Block(cs, rb, UsedInBlock(i, perBlock, total)), rb, j) == if At(i, perBlock) + j < total then 1 else 0
  {
    RefcountsFit(cs, rb, perBlock, j);
    BlockDecodes(Block(cs, rb, UsedInBlock(i, perBlock, total)), rb, UsedInBlock(i, perBlock, total), j);
  }

  /** Entry i of the refcount table. */
  lemma {:induction false} RcLookup(file: bytes, p: Plan, i: nat)
    requires p.cs == 8 * p.E() && OffsetsFit(p) && RefcountsPlaced(file, p) && i < At(p.rcTables, p.E())
    ensures ReadQ(file, At(1, p.cs) + 8 * i) == Some(if i < p.rcBlocks then At(p.RcBlockIdx() + i, p.cs) else 0)
  {
    hide ReadQ, Blocks, Placed, TableRows;
    if i < p.rcBlocks {
      AtMono(p.RcBlockIdx() + i, p.Total(), p.cs);
    }
    ReadTable(file, p.E(), 1, p.rcTables, RcTable(p, At(p.rcTables, p.E())), i);
  }

  /** Refcount j of block i is one for the clusters of the file and zero past its end. */
  lemma {:induction false} CountReads(file: bytes, p: Plan, i: nat, j: nat)
    requires ClusterSizeOk(p.cs) && RefcountBitsOk(p.rb) && p.cs == 8 * p.E() && OffsetsFit(p) && RefcountsPlaced(file, p)
    requires j < p.PerBlock() && p.PerBlock() * p.rb == 8 * p.cs
    requires i < p.rcBlocks <= At(p.rcTables, p.E()) == p.rcTables * p.E()
    ensures CountAt(file, PlanHeader(p), i, j) == Some(if At(i, p.PerBlock()) + j < p.Total() then 1 else 0)
  {
    hide ReadQ, RefcountAt, CountAt, BlockByte, RcTable, TableRows;
    var entry, block := At(p.RcBlockIdx() + i, p.cs), Block(p.cs, p.rb, UsedInBlock(i, p.PerBlock(), p.Total()));
    RcLookup(file, p, i);
    BlocksAt(p.cs, p.rb, p.PerBlock(), p.Total(), p.rcBlocks, i);
    assert PlacedAt(file, p.cs, p.RcBlockIdx() + i, block);
    AtMono(p.RcBlockIdx() + i, p.Total(), p.cs);
    EntryOffset(p.RcBlockIdx() + i, p.cs);
    UsedCount(i, j, p.cs, p.rb, p.PerBlock(), p.Total());
    FollowCount(file, PlanHeader(p), i, j, entry, block, if At(i, p.PerBlock()) + j < p.Total() then 1 else 0);
  }

  lemma {:induction false} CountReadsPastBlocks(file: bytes, p: Plan, i: nat, j: nat)
    requires p.cs == 8 * p.E() && OffsetsFit(p) && RefcountsPlaced(file, p) && p.Total() <= At(p.rcBlocks, p.PerBlock())
    requires p.rcBlocks <= i && At(p.rcTables, p.E()) == p.rcTables * p.E()
    ensures CountAt(file, PlanHeader(p), i, j) == Some(0) && At(i, p.PerBlock()) >= p.Total()
  {
    hide ReadQ, RefcountAt, Placed, TableRows, Blocks, RcTable;
    AtMono(p.rcBlocks, i, p.PerBlock());
    if i < At(p.rcTables, p.E()) {
      RcLookup(file, p, i);
      FollowCount(file, PlanHeader(p), i, j, 0, [], 0);
    }
  }

  /** The part of a plan that the refcounts depend on: table and blocks have room for all of them. */
  predicate RefcountPlanFits(p: Plan) {
    && ClusterSizeOk(p.cs) && RefcountBitsOk(p.rb) && OffsetsFit(p) && p.cs == 8 * p.E()
    && p.rcBlocks <= At(p.rcTables, p.E()) && p.Total() <= At(p.rcBlocks, p.PerBlock())
  }

  /** Host cluster k has refcount one if the file has it, and zero otherwise. */
  lemma {:induction false} RefcountReads(file: bytes, p: Plan, k: nat)
    requires RefcountPlanFits(p) && RefcountsPlaced(file, p)
    ensures RefcountOf(file, PlanHeader(p), k) == Some(if k < p.Total() then 1 else 0)
  {
    TableGeometry(p.cs, p.rb);
    DivNonNeg(k, p.PerBlock());
    AtIs(k / p.PerBlock(), p.PerBlock());
    AtIs(p.rcTables, p.E());
    if k / p.PerBlock() < p.rcBlocks {
      CountReads(file, p, k / p.PerBlock(), k % p.PerBlock());
    } else {
      CountReadsPastBlocks(file, p, k / p.PerBlock(), k % p.PerBlock());
    }
  }
}
