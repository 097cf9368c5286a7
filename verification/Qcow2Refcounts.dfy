/** The refcount table and the refcount blocks (scripts/qcow2-convert.py:259-290). */
module Qcow2Refcounts {
  import opened Bytes
  import opened Arithmetic
  import opened Bitmap
  import opened Qcow2Plan
  import opened Qcow2Format
  import opened Qcow2Output

  // ----- refcount table

  /** The first n entries of the refcount table: the offsets of the refcount blocks, then zeros. */
  function RcTable(p: Plan, n: nat): (table: seq<nat>)
    ensures |table| == n
    ensures forall i :: 0 <= i < n ==> table[i] == if i < p.rcBlocks then At(p.RcBlockIdx() + i, p.cs) else 0
  {
    if n == 0 then [] else RcTable(p, n - 1) + [if n - 1 < p.rcBlocks then At(p.RcBlockIdx() + n - 1, p.cs) else 0]
  }

  /** One cluster of the refcount table, from entry `first` on. */
  method BuildOffsets(p: Plan, ghost first: nat, count: nat, start: nat, ghost table: seq<nat>) returns (curOffset: nat, row: bytes)
    requires first <= p.rcBlocks && count == Min(p.rcBlocks - first, p.E())
    requires start == At(p.RcBlockIdx() + first, p.cs)
    requires table == RcTable(p, |table|) && first + p.E() <= |table|
    ensures curOffset == At(p.RcBlockIdx() + first + count, p.cs)
    ensures row == TableRow(table, first, p.E())
  {
    hide RcTable, Filled, PackQ;
    var e, cs := p.E(), p.cs;
    var cluster := new nat[e](_ => 0);
    curOffset := start;
    FilledNothing(cluster[..], table, first);
    for idx := 0 to count
      invariant curOffset == At(p.RcBlockIdx() + first + idx, cs)
      invariant Filled(cluster[..], table, first, idx)
    {
      FilledMore(cluster[..], table, first, idx);
      OffsetAt(p, table, first + idx);
      cluster[idx] := curOffset;
      curOffset := curOffset + cs;
    }
    forall i | first + count <= i < first + e ensures table[i] == 0 {
      OffsetAt(p, table, i);
    }
    FilledRest(cluster[..], table, first, count);
    FilledRow(cluster[..], table, first);
    row := PackQ(cluster[..]);
  }

  lemma {:induction false} OffsetAt(p: Plan, table: seq<nat>, i: nat)
    requires table == RcTable(p, |table|) && i < |table|
    ensures table[i] == if i < p.rcBlocks then At(p.RcBlockIdx() + i, p.cs) else 0
  {
  }

  /** File offsets fit the format: what keeps struct.pack_into from raising. */
  predicate OffsetsFit(p: Plan) {
    At(p.Total(), p.cs) < 0x100_0000_0000_0000 && p.rcTables <= 0xffff_ffff
  }

  /** Number of table clusters once every block has been named. */
  lemma {:induction false} TablesNeeded(blocks: nat, e: nat, t: nat)
    requires e > 0 && At(t, e) >= blocks && (t > 0 ==> At(t - 1, e) < blocks)
    ensures CeilDiv(blocks, e) == t
  {
    AtIs(t, e);
    CeilDivLeast(blocks, e, t);
    if CeilDiv(blocks, e) < t {
      AtIs(t - 1, e);
      MulMono(CeilDiv(blocks, e), t - 1, e);
    }
  }

  /** While entries remain, there is another row of the table. */
  lemma {:induction false} RoomForRow(p: Plan, t: nat)
    requires p.E() > 0 && p.rcTables == CeilDiv(p.rcBlocks, p.E()) && At(t, p.E()) < p.rcBlocks
    ensures At(t, p.E()) + p.E() <= At(p.rcTables, p.E())
  {
    AtIs(p.rcTables, p.E());
    if t >= p.rcTables {
      AtMono(p.rcTables, t, p.E());
    } else {
      AtMono(t, p.rcTables, p.E());
    }
  }

  lemma {:induction false} NoRows(table: seq<nat>, e: nat)
    ensures At(0, e) == 0 && TableRows(table, e, 0) == []
  {
  }

  lemma {:induction false} RowDone(table: seq<nat>, e: nat, t: nat)
    requires At(t, e) + e <= |table|
    ensures At(t + 1, e) == At(t, e) + e
    ensures TableRows(table, e, t + 1) == TableRows(table, e, t) + [TableRow(table, At(t, e), e)]
  {
  }

  /** The refcount table, cluster by cluster. */
  method WriteRefcountTable(p: Plan) returns (rows: seq<bytes>)
    requires p.E() > 0 && OffsetsFit(p) && p.rcTables == CeilDiv(p.rcBlocks, p.E())
    ensures rows == TableRows(RcTable(p, At(p.rcTables, p.E())), p.E(), p.rcTables)
  {
    hide At, TableRows, RcTable, CeilDiv;
    var e := p.E();
    var curOffset := At(p.RcBlockIdx(), p.cs);
    var remaining := p.rcBlocks;
    rows := [];
    ghost var table := RcTable(p, At(p.rcTables, e));
    ghost var t, first, done: nat := 0, 0, 0;
    NoRows(table, e);
    while remaining > 0
      invariant done + remaining == p.rcBlocks
      invariant first == At(t, e) && done == Min(first, p.rcBlocks)
      invariant t > 0 ==> At(t - 1, e) < p.rcBlocks
      invariant curOffset == At(p.RcBlockIdx() + done, p.cs)
      invariant At(t, e) <= |table| && rows == TableRows(table, e, t)
      decreases remaining
    {
      var toWrite := Min(remaining, e);
      RoomForRow(p, t);
      var row;
      curOffset, row := BuildOffsets(p, done, toWrite, curOffset, table);
      RowDone(table, e, t);
      remaining := remaining - toWrite;
      rows := rows + [row];
      t, first, done := t + 1, first + e, done + toWrite;
    }
    TablesNeeded(p.rcBlocks, e, t);
  }

  // ----- refcount blocks

  /** Byte q of a refcount block in which the first n refcounts are one. */
  function BlockByte(rb: nat, n: nat, q: nat): byte {
    if rb == 64 then (if q % 8 == 7 && q / 8 < n then 1 else 0)
    else if rb == 32 then (if q % 4 == 3 && q / 4 < n then 1 else 0)
    else if rb == 16 then (if q % 2 == 1 && q / 2 < n then 1 else 0)
    else if rb == 8 then (if q < n then 1 else 0)
    else if rb == 4 then (if 2 * q < n then 1 else 0) + (if 2 * q + 1 < n then 16 else 0)
    else if rb == 2 then
      (if 4 * q < n then 1 else 0) + (if 4 * q + 1 < n then 4 else 0)
      + (if 4 * q + 2 < n then 16 else 0) + (if 4 * q + 3 < n then 64 else 0)
    else
      (if 8 * q < n then 1 else 0) + (if 8 * q + 1 < n then 2 else 0)
      + (if 8 * q + 2 < n then 4 else 0) + (if 8 * q + 3 < n then 8 else 0)
      + (if 8 * q + 4 < n then 16 else 0) + (if 8 * q + 5 < n then 32 else 0)
      + (if 8 * q + 6 < n then 64 else 0) + (if 8 * q + 7 < n then 128 else 0)
  }

  /** The refcount block of cs bytes whose first n refcounts are one. */
  function Block(cs: nat, rb: nat, n: nat): (c: bytes)
    ensures |c| == cs
  {
    seq<byte>(cs, q requires 0 <= q < cs => BlockByte(rb, n, q))
  }

  /** How many of the clusters t * perBlock .. (t + 1) * perBlock a file of `total` clusters has. */
  function UsedInBlock(t: nat, perBlock: nat, total: nat): nat {
    if At(t, perBlock) <= total then Min(total - At(t, perBlock), perBlock) else 0
  }

  /** The first n refcount blocks of a file of `total` clusters. */
  function Blocks(cs: nat, rb: nat, perBlock: nat, total: nat, n: nat): (blocks: seq<bytes>)
    ensures |blocks| == n
  {
    if n == 0 then [] else Blocks(cs, rb, perBlock, total, n - 1) + [Block(cs, rb, UsedInBlock(n - 1, perBlock, total))]
  }

  predicate BlockHolds(c: bytes, rb: nat, n: nat) {
    forall q :: 0 <= q < |c| ==> c[q] == BlockByte(rb, n, q)
  }

  lemma {:induction false} OnesEncoding()
    ensures BE(1, 8) == [0, 0, 0, 0, 0, 0, 0, 1] && BE(1, 4) == [0, 0, 0, 1] && BE(1, 2) == [0, 1]
    ensures FromBE(BE(1, 8)) == 1 && FromBE(BE(1, 4)) == 1 && FromBE(BE(1, 2)) == 1
    ensures FromBE(Zeros(8)) == 0 && FromBE(Zeros(4)) == 0 && FromBE(Zeros(2)) == 0
  {
    Pow256Values();
    BEofZero(7); BEofZero(3); BEofZero(1);
    FromBEofBE(1, 8); FromBEofBE(1, 4); FromBEofBE(1, 2);
    BEofZero(8); BEofZero(4); BEofZero(2);
    FromBEofBE(0, 8); FromBEofBE(0, 4); FromBEofBE(0, 2);
  }

  /** Or-ing refcount idx into its byte is the next step of BlockByte. */
  lemma {:induction false} NarrowStep4(idx: nat)
    ensures OrBit(BlockByte(4, idx, idx / 2), idx % 2 * 4) == BlockByte(4, idx + 1, idx / 2)
  {
    assert OrBit(0, 0) == 1 && OrBit(1, 4) == 17;
  }

  lemma {:induction false} NarrowStep2(idx: nat)
    ensures OrBit(BlockByte(2, idx, idx / 4), idx % 4 * 2) == BlockByte(2, idx + 1, idx / 4)
  {
    assert OrBit(0, 0) == 1 && OrBit(1, 2) == 5;
    assert OrBit(5, 4) == 21 && OrBit(21, 6) == 85;
  }

  lemma {:induction false} NarrowStep1(idx: nat)
    ensures OrBit(BlockByte(1, idx, idx / 8), idx % 8) == BlockByte(1, idx + 1, idx / 8)
  {
    assert OrBit(0, 0) == 1 && OrBit(1, 1) == 3;
    assert OrBit(3, 2) == 7 && OrBit(7, 3) == 15;
    assert OrBit(15, 4) == 31 && OrBit(31, 5) == 63;
    assert OrBit(63, 6) == 127 && OrBit(127, 7) == 255;
    var k := idx % 8;
    if k == 0 {} else if k == 1 {} else if k == 2 {} else if k == 3 {}
    else if k == 4 {} else if k == 5 {} else if k == 6 {} else {}
  }

  lemma {:induction false} Outside64(idx: nat, q: nat)
    requires q < 8 * idx || q >= 8 * idx + 8
    ensures BlockByte(64, idx + 1, q) == BlockByte(64, idx, q)
  {
    assert q / 8 < idx <==> q / 8 < idx + 1;
  }

  lemma {:induction false} Inside64(idx: nat, r: nat)
    requires r < 8
    ensures BlockByte(64, idx + 1, 8 * idx + r) == [0, 0, 0, 0, 0, 0, 0, 1][r]
  {
    assert (8 * idx + r) / 8 == idx && (8 * idx + r) % 8 == r;
  }

  lemma {:induction false} WideStep64(c: bytes, idx: nat)
    requires BlockHolds(c, 64, idx) && 8 * idx + 8 <= |c|
    ensures BlockHolds(c[..8 * idx] + BE(1, 8) + c[8 * idx + 8..], 64, idx + 1)
  {
    OnesEncoding();
    hide BE, BlockByte;
    var ones: bytes := [0, 0, 0, 0, 0, 0, 0, 1];
    var d := c[..8 * idx] + ones + c[8 * idx + 8..];
    forall q | 0 <= q < |d| ensures d[q] == BlockByte(64, idx + 1, q) {
      if 8 * idx <= q < 8 * idx + 8 {
        Inside64(idx, q - 8 * idx);
      } else {
        Outside64(idx, q);
        assert d[q] == c[q];
      }
    }
  }

  lemma {:induction false} Outside32(idx: nat, q: nat)
    requires q < 4 * idx || q >= 4 * idx + 4
    ensures BlockByte(32, idx + 1, q) == BlockByte(32, idx, q)
  {
    assert q / 4 < idx <==> q / 4 < idx + 1;
  }

  lemma {:induction false} Inside32(idx: nat, r: nat)
    requires r < 4
    ensures BlockByte(32, idx + 1, 4 * idx + r) == [0, 0, 0, 1][r]
  {
    assert (4 * idx + r) / 4 == idx && (4 * idx + r) % 4 == r;
  }

  lemma {:induction false} WideStep32(c: bytes, idx: nat)
    requires BlockHolds(c, 32, idx) && 4 * idx + 4 <= |c|
    ensures BlockHolds(c[..4 * idx] + BE(1, 4) + c[4 * idx + 4..], 32, idx + 1)
  {
    OnesEncoding();
    hide BE, BlockByte;
    var ones: bytes := [0, 0, 0, 1];
    var d := c[..4 * idx] + ones + c[4 * idx + 4..];
    forall q | 0 <= q < |d| ensures d[q] == BlockByte(32, idx + 1, q) {
      if 4 * idx <= q < 4 * idx + 4 {
        Inside32(idx, q - 4 * idx);
      } else {
        Outside32(idx, q);
        assert d[q] == c[q];
      }
    }
  }

  lemma {:induction false} Outside16(idx: nat, q: nat)
    requires q < 2 * idx || q >= 2 * idx + 2
    ensures BlockByte(16, idx + 1, q) == BlockByte(16, idx, q)
  {
    assert q / 2 < idx <==> q / 2 < idx + 1;
  }

  lemma {:induction false} Inside16(idx: nat, r: nat)
    requires r < 2
    ensures BlockByte(16, idx + 1, 2 * idx + r) == [0, 1][r]
  {
    assert (2 * idx + r) / 2 == idx && (2 * idx + r) % 2 == r;
  }

  lemma {:induction false} WideStep16(c: bytes, idx: nat)
    requires BlockHolds(c, 16, idx) && 2 * idx + 2 <= |c|
    ensures BlockHolds(c[..2 * idx] + BE(1, 2) + c[2 * idx + 2..], 16, idx + 1)
  {
    OnesEncoding();
    hide BE, BlockByte;
    var ones: bytes := [0, 1];
    var d := c[..2 * idx] + ones + c[2 * idx + 2..];
    forall q | 0 <= q < |d| ensures d[q] == BlockByte(16, idx + 1, q) {
      if 2 * idx <= q < 2 * idx + 2 {
        Inside16(idx, q - 2 * idx);
      } else {
        Outside16(idx, q);
        assert d[q] == c[q];
      }
    }
  }

  /** struct.pack_into of a one as wide as the refcount. */
  method PackWideRefcount(cluster: array<byte>, rb: nat, idx: nat)
    requires rb == 64 || rb == 32 || rb == 16
    requires HasRefcount(cluster.Length, rb, idx) && BlockHolds(cluster[..], rb, idx)
    modifies cluster
    ensures BlockHolds(cluster[..], rb, idx + 1)
  {
    hide BE, BlockHolds;
    ghost var was := cluster[..];
    if rb == 64 {
      WideStep64(was, idx);
      PackBytes(cluster, idx * 8, BE(1, 8));
      assert cluster[..] == was[..8 * idx] + BE(1, 8) + was[8 * idx + 8..];
    } else if rb == 32 {
      WideStep32(was, idx);
      PackBytes(cluster, idx * 4, BE(1, 4));
      assert cluster[..] == was[..4 * idx] + BE(1, 4) + was[4 * idx + 4..];
    } else {
      WideStep16(was, idx);
      PackBytes(cluster, idx * 2, BE(1, 2));
      assert cluster[..] == was[..2 * idx] + BE(1, 2) + was[2 * idx + 2..];
    }
  }

  lemma {:induction false} RefcountsFit(len: nat, rb: nat, perBlock: nat, j: nat)
    requires RefcountBitsOk(rb) && perBlock * rb == 8 * len && j < perBlock
    ensures HasRefcount(len, rb, j)
  {
    MulStrict(j, perBlock, rb);
    if rb == 1 {} else if rb == 2 {} else if rb == 4 {} else if rb == 8 {}
    else if rb == 16 {} else if rb == 32 {} else {}
  }

  /** One more refcount of a width below a byte, or of a byte, changes one byte of the block. */
  lemma {:induction false} ByteStep(c: bytes, rb: nat, idx: nat, q: nat, v: byte)
    requires BlockHolds(c, rb, idx) && q < |c| && v == BlockByte(rb, idx + 1, q)
    requires forall k :: 0 <= k < |c| && k != q ==> BlockByte(rb, idx + 1, k) == BlockByte(rb, idx, k)
    ensures BlockHolds(c[q := v], rb, idx + 1)
  {
    hide BlockByte;
  }

  lemma {:induction false} BlockStep8(c: bytes, idx: nat)
    requires BlockHolds(c, 8, idx) && idx < |c|
    ensures BlockHolds(c[idx := 1], 8, idx + 1)
  {
    ByteStep(c, 8, idx, idx, 1);
  }

  lemma {:induction false} BlockStep4(c: bytes, idx: nat)
    requires BlockHolds(c, 4, idx) && idx / 2 < |c|
    ensures OrBit(c[idx / 2], idx % 2 * 4) < 256
    ensures BlockHolds(c[idx / 2 := OrBit(c[idx / 2], idx % 2 * 4)], 4, idx + 1)
  {
    hide OrBit;
    NarrowStep4(idx);
    ByteStep(c, 4, idx, idx / 2, OrBit(c[idx / 2], idx % 2 * 4));
  }

  lemma {:induction false} BlockStep2(c: bytes, idx: nat)
    requires BlockHolds(c, 2, idx) && idx / 4 < |c|
    ensures OrBit(c[idx / 4], idx % 4 * 2) < 256
    ensures BlockHolds(c[idx / 4 := OrBit(c[idx / 4], idx % 4 * 2)], 2, idx + 1)
  {
    hide OrBit;
    NarrowStep2(idx);
    ByteStep(c, 2, idx, idx / 4, OrBit(c[idx / 4], idx % 4 * 2));
  }

  lemma {:induction false} BlockStep1(c: bytes, idx: nat)
    requires BlockHolds(c, 1, idx) && idx / 8 < |c|
    ensures OrBit(c[idx / 8], idx % 8) < 256
    ensures BlockHolds(c[idx / 8 := OrBit(c[idx / 8], idx % 8)], 1, idx + 1)
  {
    hide OrBit;
    NarrowStep1(idx);
    ByteStep(c, 1, idx, idx / 8, OrBit(c[idx / 8], idx % 8));
  }

  /** Packs refcount number idx, which is one, in a block of rb-bit refcounts. */
  method PackRefcount(cluster: array<byte>, rb: nat, idx: nat)
    requires HasRefcount(cluster.Length, rb, idx)
    requires BlockHolds(cluster[..], rb, idx)
    modifies cluster
    ensures BlockHolds(cluster[..], rb, idx + 1)
  {
    hide BlockHolds, OrBit;
    if rb >= 16 {
      PackWideRefcount(cluster, rb, idx);
    } else if rb == 8 {
      BlockStep8(cluster[..], idx);
      cluster[idx] := 1;
    } else if rb == 4 {
      BlockStep4(cluster[..], idx);
      cluster[idx / 2] := OrBit(cluster[idx / 2], idx % 2 * 4);
    } else if rb == 2 {
      BlockStep2(cluster[..], idx);
      cluster[idx / 4] := OrBit(cluster[idx / 4], idx % 4 * 2);
    } else {
      BlockStep1(cluster[..], idx);
      cluster[idx / 8] := OrBit(cluster[idx / 8], idx % 8);
    }
  }

  /** The block's bytes decode to n ones followed by zeros. */
  lemma {:induction false} BlockDecodes(c: bytes, rb: nat, n: nat, j: nat)
    requires HasRefcount(|c|, rb, j) && BlockHolds(c, rb, n)
    ensures RefcountAt(c, rb, j) == if j < n then 1 else 0
  {
    if rb == 64 {
      Decodes64(c, n, j);
    } else if rb == 32 {
      Decodes32(c, n, j);
    } else if rb == 16 {
      Decodes16(c, n, j);
    } else if rb == 8 {
    } else if rb == 4 {
      NibbleDecodes(n, j);
    } else if rb == 2 {
      PairDecodes(n, j);
    } else {
      BitDecodes(n, j);
    }
  }

  lemma {:induction false} ZeroBytes(n: nat)
    ensures |Zeros(n)| == n && forall i :: 0 <= i < n ==> Zeros(n)[i] == 0
  {
  }

  lemma {:induction false} Decodes64(c: bytes, n: nat, j: nat)
    requires BlockHolds(c, 64, n) && 8 * j + 8 <= |c|
    ensures Field(c, 8 * j, 8) == if j < n then 1 else 0
  {
    OnesEncoding();
    hide FromBE, BE, Zeros;
    ZeroBytes(8);
    var field, ones := c[8 * j..8 * j + 8], if j < n then BE(1, 8) else Zeros(8);
    forall k | 0 <= k < 8 ensures field[k] == ones[k] {
      assert field[k] == c[8 * j + k] == BlockByte(64, n, 8 * j + k);
      assert (8 * j + k) / 8 == j && (8 * j + k) % 8 == k;
      assert k < 7 ==> ones[k] == 0;
    }
    assert field == ones;
  }

  lemma {:induction false} Decodes32(c: bytes, n: nat, j: nat)
    requires BlockHolds(c, 32, n) && 4 * j + 4 <= |c|
    ensures Field(c, 4 * j, 4) == if j < n then 1 else 0
  {
    OnesEncoding();
    hide FromBE, BE, Zeros;
    ZeroBytes(4);
    var field, ones := c[4 * j..4 * j + 4], if j < n then BE(1, 4) else Zeros(4);
    forall k | 0 <= k < 4 ensures field[k] == ones[k] {
      assert field[k] == c[4 * j + k] == BlockByte(32, n, 4 * j + k);
      assert (4 * j + k) / 4 == j && (4 * j + k) % 4 == k;
      assert k < 3 ==> ones[k] == 0;
    }
    assert field == ones;
  }

  lemma {:induction false} Decodes16(c: bytes, n: nat, j: nat)
    requires BlockHolds(c, 16, n) && 2 * j + 2 <= |c|
    ensures Field(c, 2 * j, 2) == if j < n then 1 else 0
  {
    OnesEncoding();
    hide FromBE, BE, Zeros;
    ZeroBytes(2);
    var field, ones := c[2 * j..2 * j + 2], if j < n then BE(1, 2) else Zeros(2);
    forall k | 0 <= k < 2 ensures field[k] == ones[k] {
      assert field[k] == c[2 * j + k] == BlockByte(16, n, 2 * j + k);
      assert (2 * j + k) / 2 == j && (2 * j + k) % 2 == k;
      assert k < 1 ==> ones[k] == 0;
    }
    assert field == ones;
  }

  lemma {:induction false} NibbleDecodes(n: nat, j: nat)
    ensures BlockByte(4, n, j / 2) / (if j % 2 == 0 then 1 else 16) % 16 == if j < n then 1 else 0
  {
  }

  lemma {:induction false} PairDecodes(n: nat, j: nat)
    ensures BlockByte(2, n, j / 4) / (if j % 4 == 0 then 1 else if j % 4 == 1 then 4 else if j % 4 == 2 then 16 else 64) % 4
         == if j < n then 1 else 0
  {
    var k := j % 4;
    if k == 0 {} else if k == 1 {} else if k == 2 {} else {}
  }

  lemma {:induction false} BitDecodes(n: nat, j: nat)
    ensures BlockByte(1, n, j / 8) / Pow2(j % 8) % 2 == if j < n then 1 else 0
  {
    Pow2Values();
    assert Pow2(3) == 8 && Pow2(7) == 128;
    var k := j % 8;
    if k == 0 {} else if k == 1 {} else if k == 2 {} else if k == 3 {}
    else if k == 4 {} else if k == 5 {} else if k == 6 {} else {}
  }

  /** A refcount block whose first `toWrite` refcounts are one. */
  method BuildBlock(cs: nat, rb: nat, perBlock: nat, toWrite: nat) returns (c: bytes)
    requires RefcountBitsOk(rb) && perBlock * rb == 8 * cs && toWrite <= perBlock
    ensures c == Block(cs, rb, toWrite)
  {
    var cluster := new byte[cs](_ => 0);
    for idx := 0 to toWrite
      invariant BlockHolds(cluster[..], rb, idx)
    {
      RefcountsFit(cs, rb, perBlock, idx);
      PackRefcount(cluster, rb, idx);
    }
    c := cluster[..];
  }

  /** The refcount blocks, one cluster each. */
  method WriteRefcountBlocks(cs: nat, rb: nat, perBlock: nat, total: nat, n: nat) returns (blocks: seq<bytes>)
    requires RefcountBitsOk(rb) && perBlock * rb == 8 * cs
    ensures blocks == Blocks(cs, rb, perBlock, total, n)
  {
    var remaining := total;
    blocks := [];
    for t := 0 to n
      invariant blocks == Blocks(cs, rb, perBlock, total, t)
      invariant remaining == if At(t, perBlock) <= total then total - At(t, perBlock) else 0
    {
      var toWrite := Min(remaining, perBlock);
      remaining := remaining - toWrite;
      var c := BuildBlock(cs, rb, perBlock, toWrite);
      blocks := blocks + [c];
    }
  }

  lemma {:induction false} BlocksAt(cs: nat, rb: nat, perBlock: nat, total: nat, n: nat, t: nat)
    requires t < n
    ensures Blocks(cs, rb, perBlock, total, n)[t] == Block(cs, rb, UsedInBlock(t, perBlock, total))
  {
    if t < n - 1 {
      BlocksAt(cs, rb, perBlock, total, n - 1, t);
    }
  }
}
