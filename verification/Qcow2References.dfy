/** Every host cluster of the emitted file is named exactly once: by the header, the refcount table, level 1 or
    level 2 (QEMU's docs/interop/qcow2, "Host cluster management"). Its refcount is the number of its names. */
module Qcow2References {
  import opened Bytes
  import opened Arithmetic
  import opened Bitmap
  import opened Qcow2Plan
  import opened Qcow2Format
  import opened Qcow2Output
  import opened Qcow2Refcounts
  import opened Qcow2Tables
  import opened Qcow2Regions
  import opened Qcow2Reading

  // ----- what a reader counts

  /** Whether the mapping entry at file offset `off` names the cluster at file offset `target`. */
  function Names(file: bytes, off: nat, target: nat): nat {
    match ReadQ(file, off)
    case None => 0
    case Some(v) => if OffsetBits(v) != 0 && OffsetBits(v) == target then 1 else 0
  }

  /** How many of the first n entries of the table at `off` do. */
  function NamesIn(file: bytes, off: nat, n: nat, target: nat): nat
    decreases n, |file|
  {
    if n == 0 then 0 else NamesIn(file, off, n - 1, target) + Names(file, off + 8 * (n - 1), target)
  }

  /** How many entries of the level-2 tables do that the first n level-1 entries name. */
  function NamesBelow(file: bytes, h: Header, n: nat, target: nat): nat
    decreases n, |file|
  {
    if n == 0 then 0 else
    NamesBelow(file, h, n - 1, target) +
    match ReadQ(file, h.l1Offset + 8 * (n - 1))
    case None => 0
    case Some(v) => if OffsetBits(v) == 0 then 0 else NamesIn(file, OffsetBits(v), h.cs / 8, target)
  }

  /** How many of the first n entries of the refcount table do. */
  function NamesOfBlocks(file: bytes, h: Header, n: nat, target: nat): nat
    decreases n, |file|
  {
    if n == 0 then 0 else
    NamesOfBlocks(file, h, n - 1, target) +
    match ReadQ(file, h.rcTableOffset + 8 * (n - 1))
    case None => 0
    case Some(v) => if v / 512 != 0 && v / 512 * 512 == target then 1 else 0
  }

  function Within(target: nat, off: nat, size: nat): nat {
    if off <= target < off + size then 1 else 0
  }

  /** All names of host cluster k: it is the header, lies in one of the two tables that the header names, or is
      named by a table entry. */
  function References(file: bytes, h: Header, k: nat): nat {
    var target := k * h.cs;
    (if target == 0 then 1 else 0)
    + Within(target, h.rcTableOffset, h.rcTableClusters * h.cs)
    + Within(target, h.l1Offset, 8 * h.l1Size)
    + NamesOfBlocks(file, h, h.rcTableClusters * (h.cs / 8), target)
    + NamesIn(file, h.l1Offset, h.l1Size, target)
    + NamesBelow(file, h, h.l1Size, target)
  }

  // ----- consecutive clusters are named once each

  /** How many members below n are mapped to cluster c when members get consecutive clusters from base on. */
  function Mapped(s: set<nat>, base: nat, n: nat, c: nat): nat {
    if n == 0 then 0 else Mapped(s, base, n - 1, c) + if n - 1 in s && base + Rank(s, n - 1) == c then 1 else 0
  }

  lemma {:induction false} MappedOnce(s: set<nat>, base: nat, n: nat, c: nat)
    ensures Mapped(s, base, n, c) == if base <= c < base + Rank(s, n) then 1 else 0
  {
    if n > 0 {
      MappedOnce(s, base, n - 1, c);
    }
  }

  lemma {:induction false} AtInjective(a: nat, b: nat, size: nat)
    requires size > 0
    ensures At(a, size) == At(b, size) <==> a == b
  {
    if a < b {
      AtMono(a, b, size);
    } else {
      AtMono(b, a, size);
    }
  }

  /** Entry i of a mapping table names cluster c if and only if i is a member and c its cluster. */
  lemma {:induction false} EntryNames(file: bytes, off: nat, s: set<nat>, n: nat, base: nat, top: nat, cs: nat, i: nat, c: nat)
    requires ClusterSizeOk(cs) && 0 < base && base + Rank(s, n) <= top && At(top, cs) < 0x100_0000_0000_0000
    requires BoundedBy(s, n) && ReadQ(file, off) == Some(MapEntry(s, base, cs, i))
    ensures Names(file, off, At(c, cs)) == if i in s && base + Rank(s, i) == c then 1 else 0
  {
    hide OffsetBits, ReadQ, Rank;
    if i in s {
      MapEntryFits(s, n, base, top, cs, i);
      AtInjective(base + Rank(s, i), c, cs);
    } else {
      assert OffsetBits(0) == 0 by { NoOffset(); }
    }
  }

  lemma {:induction false} NoOffset()
    ensures OffsetBits(0) == 0
  {
  }

  lemma {:induction false} EntryBound(s: set<nat>, n: nat, base: nat, top: nat, cs: nat, i: nat)
    requires ClusterSizeOk(cs) && 0 < base && base + Rank(s, n) <= top && At(top, cs) < 0x100_0000_0000_0000 && BoundedBy(s, n)
    ensures MapEntry(s, base, cs, i) <= 0xffff_ffff_ffff_ffff
  {
    hide OffsetBits, Rank;
    if i in s {
      MapEntryFits(s, n, base, top, cs, i);
    }
  }

  // ----- the four kinds of names

  /** The plan's numbers, and all of its regions in the file. */
  ghost predicate Laid(file: bytes, p: Plan, raw: bytes, s1: set<nat>, s2: set<nat>) {
    && PlanFits(p, s1, s2) && BoundedBy(s1, p.l1Entries) && BoundedBy(s2, p.totalData) && CoversTables(s1, s2, TableOf(p.E()))
    && MappingPlaced(file, p, raw, s1, s2) && RefcountsPlaced(file, p)
  }

  lemma {:induction false} L1EntryNames(file: bytes, p: Plan, raw: bytes, s1: set<nat>, s2: set<nat>, i: nat, c: nat)
    requires Laid(file, p, raw, s1, s2) && i < p.l1Entries
    ensures Names(file, At(p.L1Idx(), p.cs) + 8 * i, At(c, p.cs)) == if i in s1 && p.L2Idx() + Rank(s1, i) == c then 1 else 0
  {
    hide Names, ReadQ, MapEntry, Placed, MapTable, TableRows, SomeRows, Rank;
    RowsCover(i, p.l1Entries, p.E());
    EntryBound(s1, p.l1Entries, p.L2Idx(), p.Total(), p.cs, i);
    L1Lookup(file, p.E(), p.L1Idx(), p.l1Tables, s1, p.L2Idx(), i);
    EntryNames(file, At(p.L1Idx(), p.cs) + 8 * i, s1, p.l1Entries, p.L2Idx(), p.Total(), p.cs, i, c);
  }

  lemma {:induction false} L1Names(file: bytes, p: Plan, raw: bytes, s1: set<nat>, s2: set<nat>, n: nat, c: nat)
    requires Laid(file, p, raw, s1, s2) && n <= p.l1Entries
    ensures NamesIn(file, At(p.L1Idx(), p.cs), n, At(c, p.cs)) == Mapped(s1, p.L2Idx(), n, c)
    decreases n
  {
    hide Names, Laid, Rank;
    if n > 0 {
      L1Names(file, p, raw, s1, s2, n - 1, c);
      L1EntryNames(file, p, raw, s1, s2, n - 1, c);
    }
  }

  lemma {:induction false} L2EntryNames(file: bytes, p: Plan, raw: bytes, s1: set<nat>, s2: set<nat>, t: nat, j: nat, c: nat)
    requires Laid(file, p, raw, s1, s2) && t < p.l1Entries && t in s1 && j < p.E()
    ensures Names(file, At(p.L2Idx() + Rank(s1, t), p.cs) + 8 * j, At(c, p.cs))
         == if At(t, p.E()) + j in s2 && p.DataIdx() + Rank(s2, At(t, p.E()) + j) == c then 1 else 0
  {
    hide Names, ReadQ, MapEntry, Placed, MapTable, TableRows, SomeRows, Rank;
    var i := At(t, p.E()) + j;
    EntryBound(s2, p.totalData, p.DataIdx(), p.Total(), p.cs, i);
    L2Lookup(file, p.E(), p.L2Idx(), p.l1Entries, s1, s2, p.DataIdx(), t, j);
    EntryNames(file, At(p.L2Idx() + Rank(s1, t), p.cs) + 8 * j, s2, p.totalData, p.DataIdx(), p.Total(), p.cs, i, c);
  }

  /** The first n entries of the level-2 table of row t. */
  lemma {:induction false} L2Names(file: bytes, p: Plan, raw: bytes, s1: set<nat>, s2: set<nat>, t: nat, n: nat, c: nat)
    requires Laid(file, p, raw, s1, s2) && t < p.l1Entries && t in s1 && n <= p.E()
    ensures NamesIn(file, At(p.L2Idx() + Rank(s1, t), p.cs), n, At(c, p.cs)) + Mapped(s2, p.DataIdx(), At(t, p.E()), c)
         == Mapped(s2, p.DataIdx(), At(t, p.E()) + n, c)
    decreases n
  {
    hide Names, Laid, Rank, At;
    if n > 0 {
      L2Names(file, p, raw, s1, s2, t, n - 1, c);
      L2EntryNames(file, p, raw, s1, s2, t, n - 1, c);
    }
  }

  /** A row without a table maps nothing. */
  lemma {:induction false} NoTableNoNames(s1: set<nat>, s2: set<nat>, e: nat, base: nat, t: nat, n: nat, c: nat)
    requires e > 0 && CoversTables(s1, s2, TableOf(e)) && t !in s1 && n <= e
    ensures Mapped(s2, base, At(t, e) + n, c) == Mapped(s2, base, At(t, e), c)
    decreases n
  {
    if n > 0 {
      NoTableNoNames(s1, s2, e, base, t, n - 1, c);
      if At(t, e) + (n - 1) in s2 {
        MarkedTable(s1, s2, e, t, n - 1);
      }
    }
  }

  /** All level-2 tables of the first n rows. */
  lemma {:induction false} TablesNames(file: bytes, p: Plan, raw: bytes, s1: set<nat>, s2: set<nat>, n: nat, c: nat)
    requires Laid(file, p, raw, s1, s2) && n <= p.l1Entries
    ensures NamesBelow(file, PlanHeader(p), n, At(c, p.cs)) == Mapped(s2, p.DataIdx(), At(n, p.E()), c)
    decreases n
  {
    hide NamesIn, ReadQ, MapEntry, Placed, MapTable, TableRows, SomeRows, Rank, OffsetBits, Mapped;
    if n == 0 {
      NothingMapped(s2, p.DataIdx(), c);
    } else {
      var t := n - 1;
      TablesNames(file, p, raw, s1, s2, t, c);
      RowsCover(t, p.l1Entries, p.E());
      EntryBound(s1, p.l1Entries, p.L2Idx(), p.Total(), p.cs, t);
      L1Lookup(file, p.E(), p.L1Idx(), p.l1Tables, s1, p.L2Idx(), t);
      if t in s1 {
        MapEntryFits(s1, p.l1Entries, p.L2Idx(), p.Total(), p.cs, t);
        L2Names(file, p, raw, s1, s2, t, p.E(), c);
      } else {
        NoEntry(s1, p.L2Idx(), p.cs, t);
        NoTableNoNames(s1, s2, p.E(), p.DataIdx(), t, p.E(), c);
      }
    }
  }

  lemma {:induction false} NothingMapped(s: set<nat>, base: nat, c: nat)
    ensures Mapped(s, base, 0, c) == 0
  {
  }

  lemma {:induction false} NoEntry(s: set<nat>, base: nat, cs: nat, i: nat)
    requires i !in s
    ensures MapEntry(s, base, cs, i) == 0 && OffsetBits(MapEntry(s, base, cs, i)) == 0
  {
  }

  /** The refcount table names the refcount blocks. */
  lemma {:induction false} BlockNames(file: bytes, p: Plan, n: nat, c: nat)
    requires ClusterSizeOk(p.cs) && p.cs == 8 * p.E() && OffsetsFit(p) && RefcountsPlaced(file, p)
    requires n <= At(p.rcTables, p.E())
    ensures NamesOfBlocks(file, PlanHeader(p), n, At(c, p.cs))
         == if p.RcBlockIdx() <= c < p.RcBlockIdx() + Min(n, p.rcBlocks) then 1 else 0
    decreases n
  {
    hide ReadQ, Placed, TableRows, Blocks, RcTable;
    if n > 0 {
      BlockNames(file, p, n - 1, c);
      RcLookup(file, p, n - 1);
      if n - 1 < p.rcBlocks {
        AtMono(p.RcBlockIdx() + (n - 1), p.Total(), p.cs);
        EntryOffset(p.RcBlockIdx() + (n - 1), p.cs);
        AtInjective(p.RcBlockIdx() + (n - 1), c, p.cs);
      }
    }
  }

  // ----- the two tables that the header names

  lemma {:induction false} WithinClusters(first: nat, n: nat, cs: nat, c: nat)
    requires cs > 0
    ensures Within(At(c, cs), At(first, cs), n * cs) == if first <= c < first + n then 1 else 0
  {
    AtAdd(first, n, cs);
    AtIs(n, cs);
    if c < first {
      AtMono(c, first, cs);
    } else {
      AtMono(first, c, cs);
      if c < first + n {
        AtMono(c, first + n, cs);
      } else {
        AtMono(first + n, c, cs);
      }
    }
  }

  /** A table of entries of eight bytes, of which the last cluster may be partly used. */
  lemma {:induction false} WithinTable(first: nat, entries: nat, e: nat, cs: nat, c: nat)
    requires e > 0 && cs == 8 * e
    ensures Within(At(c, cs), At(first, cs), 8 * entries) == if first <= c < first + CeilDiv(entries, e) then 1 else 0
  {
    if c < first {
      AtMono(c, first, cs);
    } else {
      var r := c - first;
      AtAdd(first, r, cs);
      AtTimes8(r, e);
      AtIs(r, e);
      if r < CeilDiv(entries, e) {
        MulMono(r, CeilDiv(entries, e) - 1, e);
      } else {
        MulMono(CeilDiv(entries, e), r, e);
      }
    }
  }

  // ----- all names together

  lemma {:induction false} HeaderTables(p: Plan, s1: set<nat>, s2: set<nat>, c: nat)
    requires PlanFits(p, s1, s2)
    ensures var h := PlanHeader(p);
            && Within(At(c, p.cs), h.rcTableOffset, h.rcTableClusters * h.cs) == (if 1 <= c < p.RcBlockIdx() then 1 else 0)
            && Within(At(c, p.cs), h.l1Offset, 8 * h.l1Size) == (if p.L1Idx() <= c < p.L2Idx() then 1 else 0)
            && (At(c, p.cs) == 0 <==> c == 0)
  {
    hide Rank;
    AtInjective(c, 0, p.cs);
    WithinClusters(1, p.rcTables, p.cs, c);
    WithinTable(p.L1Idx(), p.l1Entries, p.E(), p.cs, c);
    if p.l1Tables == 0 {
      assert p.l1Entries == 0;
    }
  }

  lemma {:induction false} L1Counts(file: bytes, p: Plan, raw: bytes, s1: set<nat>, s2: set<nat>, c: nat)
    requires Laid(file, p, raw, s1, s2)
    ensures NamesIn(file, PlanHeader(p).l1Offset, p.l1Entries, At(c, p.cs)) == if p.L2Idx() <= c < p.DataIdx() then 1 else 0
  {
    hide Names, Rank, Mapped, MappingPlaced, RefcountsPlaced;
    L1Names(file, p, raw, s1, s2, p.l1Entries, c);
    MappedOnce(s1, p.L2Idx(), p.l1Entries, c);
    if p.l1Tables == 0 {
      assert p.l1Entries == 0;
    }
  }

  lemma {:induction false} L2Counts(file: bytes, p: Plan, raw: bytes, s1: set<nat>, s2: set<nat>, c: nat)
    requires Laid(file, p, raw, s1, s2)
    ensures NamesBelow(file, PlanHeader(p), p.l1Entries, At(c, p.cs)) == if p.DataIdx() <= c < p.Total() then 1 else 0
  {
    hide NamesBelow, Rank, Mapped, MappingPlaced, RefcountsPlaced;
    TablesNames(file, p, raw, s1, s2, p.l1Entries, c);
    var n := At(p.l1Entries, p.E());
    AtIs(p.l1Entries, p.E());
    RankOfClearRange(s2, p.totalData, n);
    MappedOnce(s2, p.DataIdx(), n, c);
  }

  lemma {:induction false} BlockCounts(file: bytes, p: Plan, raw: bytes, s1: set<nat>, s2: set<nat>, c: nat)
    requires Laid(file, p, raw, s1, s2)
    ensures NamesOfBlocks(file, PlanHeader(p), p.rcTables * p.E(), At(c, p.cs)) == if p.RcBlockIdx() <= c < p.L1Idx() then 1 else 0
  {
    hide NamesOfBlocks, Rank, MappingPlaced, RefcountsPlaced;
    AtIs(p.rcTables, p.E());
    BlockNames(file, p, At(p.rcTables, p.E()), c);
  }

  /** Host cluster c is named exactly once if the file has it, and never otherwise: tables, blocks and data do not
      overlap, nothing is leaked, and the refcounts are the numbers of names. */
  lemma {:induction false} NamedOnce(file: bytes, p: Plan, raw: bytes, s1: set<nat>, s2: set<nat>, c: nat)
    requires Laid(file, p, raw, s1, s2)
    ensures References(file, PlanHeader(p), c) == if c < p.Total() then 1 else 0
  {
    hide NamesOfBlocks, NamesIn, NamesBelow, Within, Laid;
    LaidFits(file, p, raw, s1, s2);
    AtIs(c, p.cs);
    HeaderTables(p, s1, s2, c);
    L1Counts(file, p, raw, s1, s2, c);
    L2Counts(file, p, raw, s1, s2, c);
    BlockCounts(file, p, raw, s1, s2, c);
  }

  // ----- flags

  /** Cluster c of the file has refcount one, and its offset leads back to it. */
  lemma {:induction false} ClusterCounts(file: bytes, p: Plan, raw: bytes, s1: set<nat>, s2: set<nat>, c: nat)
    requires Laid(file, p, raw, s1, s2) && c < p.Total()
    ensures At(c, p.cs) % p.cs == 0 && At(c, p.cs) / p.cs == c && RefcountOf(file, PlanHeader(p), c) == Some(1)
  {
    hide RefcountOf, Rank, MappingPlaced;
    AtDivMod(c, 0, p.cs);
    AtIs(p.rcTables, p.E());
    RefcountReads(file, p, c);
  }

  /** An entry of a mapping table that is all in the file. */
  lemma {:induction false} MapEntryFlagged(file: bytes, p: Plan, raw: bytes, s1: set<nat>, s2: set<nat>,
                                           s: set<nat>, n: nat, base: nat, i: nat)
    requires Laid(file, p, raw, s1, s2) && BoundedBy(s, n) && 0 < base && base + Rank(s, n) <= p.Total()
    ensures p.cs > 0 && EntryFlagged(file, PlanHeader(p), MapEntry(s, base, p.cs, i))
  {
    hide RefcountOf, OffsetBits, Rank, MappingPlaced, RefcountsPlaced, MapEntry;
    if i in s {
      MapEntryFits(s, n, base, p.Total(), p.cs, i);
      RankStep(s, i, n);
      ClusterCounts(file, p, raw, s1, s2, base + Rank(s, i));
    } else {
      NoEntry(s, base, p.cs, i);
    }
  }

  /** A member has a smaller rank than all members together. */
  lemma {:induction false} RankStep(s: set<nat>, i: nat, n: nat)
    requires i in s && i < n
    ensures Rank(s, i) < Rank(s, n)
  {
    RankMono(s, i + 1, n);
  }

  lemma {:induction false} L1EntryFlagged(file: bytes, p: Plan, raw: bytes, s1: set<nat>, s2: set<nat>, t: nat)
    requires Laid(file, p, raw, s1, s2) && t < p.l1Entries
    ensures p.cs > 0 && L1Flagged(file, PlanHeader(p), t)
  {
    hide ReadQ, MapEntry, EntryFlagged, Placed, MapTable, TableRows, SomeRows, Rank;
    RowsCover(t, p.l1Entries, p.E());
    EntryBound(s1, p.l1Entries, p.L2Idx(), p.Total(), p.cs, t);
    L1Lookup(file, p.E(), p.L1Idx(), p.l1Tables, s1, p.L2Idx(), t);
    MapEntryFlagged(file, p, raw, s1, s2, s1, p.l1Entries, p.L2Idx(), t);
  }

  lemma {:induction false} L2EntryFlagged(file: bytes, p: Plan, raw: bytes, s1: set<nat>, s2: set<nat>, t: nat, j: nat)
    requires Laid(file, p, raw, s1, s2) && t < p.l1Entries && j < p.E()
    ensures p.cs > 0 && L2Flagged(file, PlanHeader(p), t, j)
  {
    hide ReadQ, MapEntry, EntryFlagged, OffsetBits, Placed, MapTable, TableRows, SomeRows, Rank;
    RowsCover(t, p.l1Entries, p.E());
    EntryBound(s1, p.l1Entries, p.L2Idx(), p.Total(), p.cs, t);
    L1Lookup(file, p.E(), p.L1Idx(), p.l1Tables, s1, p.L2Idx(), t);
    if t in s1 {
      MapEntryFits(s1, p.l1Entries, p.L2Idx(), p.Total(), p.cs, t);
      var i := At(t, p.E()) + j;
      EntryBound(s2, p.totalData, p.DataIdx(), p.Total(), p.cs, i);
      L2Lookup(file, p.E(), p.L2Idx(), p.l1Entries, s1, s2, p.DataIdx(), t, j);
      MapEntryFlagged(file, p, raw, s1, s2, s2, p.totalData, p.DataIdx(), i);
    } else {
      NoEntry(s1, p.L2Idx(), p.cs, t);
    }
  }

  lemma {:induction false} RcEntryAligned(file: bytes, p: Plan, i: nat)
    requires ClusterSizeOk(p.cs) && p.cs == 8 * p.E() && OffsetsFit(p) && RefcountsPlaced(file, p) && i < At(p.rcTables, p.E())
    ensures RcAligned(file, PlanHeader(p), i)
  {
    hide ReadQ, Placed, TableRows, Blocks, RcTable;
    RcLookup(file, p, i);
    AtDivMod(p.RcBlockIdx() + i, 0, p.cs);
  }

  /** The flags of all tables are right, and no reserved bit is set. */
  lemma {:induction false} FlagsAreRight(file: bytes, p: Plan, raw: bytes, s1: set<nat>, s2: set<nat>)
    requires Laid(file, p, raw, s1, s2)
    ensures EntriesFlagged(file, PlanHeader(p))
  {
    hide Laid, L1Flagged, L2Flagged, RcAligned;
    LaidFits(file, p, raw, s1, s2);
    var h := PlanHeader(p);
    forall t: nat | t < h.l1Size ensures L1Flagged(file, h, t) {
      L1EntryFlagged(file, p, raw, s1, s2, t);
    }
    forall t: nat, j: nat | t < h.l1Size && j < h.cs / 8 ensures L2Flagged(file, h, t, j) {
      L2EntryFlagged(file, p, raw, s1, s2, t, j);
    }
    AtIs(p.rcTables, p.E());
    forall i: nat | i < h.rcTableClusters * (h.cs / 8) ensures RcAligned(file, h, i) {
      RcEntryAligned(file, p, i);
    }
  }

  lemma {:induction false} LaidFits(file: bytes, p: Plan, raw: bytes, s1: set<nat>, s2: set<nat>)
    requires Laid(file, p, raw, s1, s2)
    ensures PlanFits(p, s1, s2) && RefcountsPlaced(file, p)
  {
  }
}
