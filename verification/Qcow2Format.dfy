/** The qcow2 on-disk format, as a reader sees it: fields, tables, refcounts and the mapping from
    guest offsets to file offsets (QEMU's docs/interop/qcow2, "Header", "Host cluster management",
    "Cluster mapping"). Nothing here knows how the writer lays a file out. */
module Qcow2Format {
  import opened Bytes
  import opened Arithmetic

  const COPIED := 0x8000_0000_0000_0000
  const COMPRESSED := 0x4000_0000_0000_0000

  /** The k-byte big-endian number at offset off. */
  function Field(c: bytes, off: nat, k: nat): nat
    requires off + k <= |c|
  {
    FromBE(c[off..off + k])
  }

  /** Entry j of a table of 64-bit entries. */
  function Entry(c: bytes, j: nat): nat
    requires 8 * j + 8 <= |c|
  {
    Field(c, 8 * j, 8)
  }

  /** Bits 9 to 55 of a table entry, in place: a cluster-aligned file offset. */
  function OffsetBits(entry: nat): nat {
    entry / 512 % 0x8000_0000_0000 * 512
  }

  /** A block of len bytes has a refcount number j of rb bits. */
  predicate HasRefcount(len: nat, rb: nat, j: nat) {
    if rb == 64 then 8 * j + 8 <= len
    else if rb == 32 then 4 * j + 4 <= len
    else if rb == 16 then 2 * j + 2 <= len
    else if rb == 8 then j < len
    else if rb == 4 then j / 2 < len
    else if rb == 2 then j / 4 < len
    else rb == 1 && j / 8 < len
  }

  /** Refcount j of a refcount block whose refcounts are rb bits wide; inside a byte, the least
      significant bits come first. */
  function RefcountAt(c: bytes, rb: nat, j: nat): (r: nat)
    requires HasRefcount(|c|, rb, j)
  {
    if rb == 64 then Field(c, 8 * j, 8)
    else if rb == 32 then Field(c, 4 * j, 4)
    else if rb == 16 then Field(c, 2 * j, 2)
    else if rb == 8 then c[j]
    else if rb == 4 then c[j / 2] / (if j % 2 == 0 then 1 else 16) % 16
    else if rb == 2 then c[j / 4] / (if j % 4 == 0 then 1 else if j % 4 == 1 then 4 else if j % 4 == 2 then 16 else 64) % 4
    else c[j / 8] / Pow2(j % 8) % 2
  }

  // ----- a reader

  /** The 64-bit number at a file offset, if the file reaches that far. */
  function ReadQ(file: bytes, off: nat): Option<nat> {
    if off + 8 <= |file| then Some(Field(file, off, 8)) else None
  }

  /** What a reader keeps of the header. */
  datatype Header = Header(cs: nat, rb: nat, diskSize: nat, l1Size: nat, l1Offset: nat,
                           rcTableOffset: nat, rcTableClusters: nat)

  /** A file this reader can open: version 3, no backing file, encryption, snapshots or
      incompatible features, and sane logarithms. */
  predicate Opens(file: bytes) {
    && |file| >= 104
    && Field(file, 0, 4) == 0x514649fb
    && Field(file, 4, 4) == 3
    && Field(file, 8, 8) == 0 && Field(file, 32, 4) == 0
    && Field(file, 60, 4) == 0 && Field(file, 72, 8) == 0
    && 9 <= Field(file, 20, 4) < 22 && Field(file, 96, 4) < 7
    && Field(file, 100, 4) >= 104
  }

  function OpenImage(file: bytes): Option<Header> {
    if Opens(file) then
      Some(Header(Pow2(Field(file, 20, 4)), Pow2(Field(file, 96, 4)), Field(file, 24, 8), Field(file, 36, 4),
                  Field(file, 40, 8), Field(file, 48, 8), Field(file, 56, 4)))
    else None
  }

  /** Byte k of the guest cluster that level-1 entry t and level-2 entry j map. An entry without an
      offset reads as zeros; None is a malformed file. */
  function ReadMapped(file: bytes, l1Offset: nat, t: nat, j: nat, k: nat): Option<byte> {
    match ReadQ(file, l1Offset + 8 * t)
    case None => None
    case Some(l1) =>
      if OffsetBits(l1) == 0 then Some(0) else
      match ReadQ(file, OffsetBits(l1) + 8 * j)
      case None => None
      case Some(l2) =>
        if l2 % COPIED >= COMPRESSED then None
        else if OffsetBits(l2) == 0 || l2 % 2 == 1 then Some(0)
        else if OffsetBits(l2) + k < |file| then Some(file[OffsetBits(l2) + k])
        else None
  }

  /** The guest byte at offset off; None also for an offset past the disk or past the level-1 table. */
  function ReadGuest(file: bytes, h: Header, off: nat): Option<byte> {
    var e := h.cs / 8;
    if e == 0 || off >= h.diskSize then None else
    DivNonNeg(off, h.cs);
    DivNonNeg(off / h.cs, e);
    if off / h.cs / e >= h.l1Size then None
    else ReadMapped(file, h.l1Offset, off / h.cs / e, off / h.cs % e, off % h.cs)
  }

  /** Refcount number j of the block that refcount table entry i names; a zero entry, or one past
      the table, counts nothing. */
  function CountAt(file: bytes, h: Header, i: nat, j: nat): Option<nat> {
    if i >= h.rcTableClusters * (h.cs / 8) then Some(0) else
    match ReadQ(file, h.rcTableOffset + 8 * i)
    case None => None
    case Some(entry) =>
      var block := entry / 512 * 512;
      if block == 0 then Some(0)
      else if block + h.cs > |file| || !HasRefcount(h.cs, h.rb, j) then None
      else Some(RefcountAt(file[block..block + h.cs], h.rb, j))
  }

  /** The refcount of host cluster k. */
  function RefcountOf(file: bytes, h: Header, k: nat): Option<nat> {
    if h.rb == 0 then None else
    var perBlock := h.cs * 8 / h.rb;
    DivNonNeg(h.cs * 8, h.rb);
    if perBlock == 0 then None else
    DivNonNeg(k, perBlock);
    CountAt(file, h, k / perBlock, k % perBlock)
  }

  // ----- flags and reserved bits

  /** The entry v of a mapping table: its offset is that of a cluster, its bit 63 is set if and only if the cluster it
      names has refcount one, and every other bit is clear. An entry without an offset names no cluster. */
  predicate EntryFlagged(file: bytes, h: Header, v: nat)
    requires h.cs > 0
  {
    DivNonNeg(OffsetBits(v), h.cs);
    && OffsetBits(v) % h.cs == 0 && v % 0x8000_0000_0000_0000 == OffsetBits(v)
    && v / 0x8000_0000_0000_0000
       == if OffsetBits(v) != 0 && RefcountOf(file, h, OffsetBits(v) / h.cs) == Some(1) then 1 else 0
  }

  predicate FlaggedAt(file: bytes, h: Header, off: nat)
    requires h.cs > 0
  {
    ReadQ(file, off).Some? && EntryFlagged(file, h, ReadQ(file, off).value)
  }

  predicate L1Flagged(file: bytes, h: Header, t: nat)
    requires h.cs > 0
  {
    FlaggedAt(file, h, h.l1Offset + 8 * t)
  }

  /** Entry j of the level-2 table that level-1 entry t names, if it names one. */
  predicate L2Flagged(file: bytes, h: Header, t: nat, j: nat)
    requires h.cs > 0
  {
    match ReadQ(file, h.l1Offset + 8 * t)
    case None => false
    case Some(v) => OffsetBits(v) == 0 || FlaggedAt(file, h, OffsetBits(v) + 8 * j)
  }

  /** Entry i of the refcount table, whose low bits are reserved. */
  predicate RcAligned(file: bytes, h: Header, i: nat)
    requires h.cs > 0
  {
    ReadQ(file, h.rcTableOffset + 8 * i).Some? && ReadQ(file, h.rcTableOffset + 8 * i).value % h.cs == 0
  }

  /** Every entry of level 1, of the level-2 tables and of the refcount table. */
  ghost predicate EntriesFlagged(file: bytes, h: Header) {
    && h.cs > 0
    && (forall t: nat :: t < h.l1Size ==> L1Flagged(file, h, t))
    && (forall t: nat, j: nat :: t < h.l1Size && j < h.cs / 8 ==> L2Flagged(file, h, t, j))
    && (forall i: nat :: i < h.rcTableClusters * (h.cs / 8) ==> RcAligned(file, h, i))
  }

  /** The header fields of what the image does not have: the length of a backing file's name, the place of the
      snapshots, compatible features, autoclear features. */
  predicate NothingElse(file: bytes) {
    && |file| >= 104 && Field(file, 16, 4) == 0 && Field(file, 64, 8) == 0
    && Field(file, 80, 8) == 0 && Field(file, 88, 8) == 0
  }

  // ----- fields packed one after another

  type Fields = seq<(nat, nat)>

  /** struct.pack with big-endian (width, value) fields. */
  function Packed(fields: Fields): bytes {
    if |fields| == 0 then [] else Packed(fields[..|fields| - 1]) + BE(fields[|fields| - 1].1, fields[|fields| - 1].0)
  }

  function FieldOffset(fields: Fields, k: nat): nat
    requires k <= |fields|
  {
    if k == 0 then 0 else FieldOffset(fields, k - 1) + fields[k - 1].0
  }

  lemma {:induction false} PackedPrefix(fields: Fields, k: nat)
    requires k <= |fields|
    ensures |Packed(fields[..k])| == FieldOffset(fields, k) <= |Packed(fields)|
    ensures Packed(fields)[..FieldOffset(fields, k)] == Packed(fields[..k])
    decreases |fields|
  {
    var n := |fields|;
    if k == n {
      assert fields[..n] == fields;
      if n > 0 {
        PackedPrefix(fields[..n - 1], n - 1);
        OffsetOfPrefix(fields, n - 1, n - 1);
        assert fields[..n - 1][..n - 1] == fields[..n - 1];
      }
    } else {
      PackedPrefix(fields[..n - 1], k);
      OffsetOfPrefix(fields, n - 1, k);
      assert fields[..n - 1][..k] == fields[..k];
    }
  }

  lemma {:induction false} OffsetOfPrefix(fields: Fields, m: nat, k: nat)
    requires k <= m <= |fields|
    ensures FieldOffset(fields[..m], k) == FieldOffset(fields, k)
  {
    if k > 0 {
      OffsetOfPrefix(fields, m, k - 1);
    }
  }

  lemma {:induction false} FieldWithin(fields: Fields, k: nat, n: nat)
    requires k < n <= |fields|
    ensures FieldOffset(fields, k) + fields[k].0 <= FieldOffset(fields, n)
  {
    if k < n - 1 {
      FieldWithin(fields, k, n - 1);
    }
  }

  /** Unpacking field k gives back its value. */
  lemma {:induction false} UnpackField(fields: Fields, k: nat)
    requires k < |fields| && fields[k].1 < Pow256(fields[k].0)
    ensures FieldOffset(fields, k) + fields[k].0 <= |Packed(fields)|
    ensures Field(Packed(fields), FieldOffset(fields, k), fields[k].0) == fields[k].1
  {
    var a, w := FieldOffset(fields, k), fields[k].0;
    PackedPrefix(fields, k);
    PackedPrefix(fields, k + 1);
    var prefix := fields[..k + 1];
    assert prefix[..|prefix| - 1] == fields[..k];
    SliceOfPrefix(Packed(fields), Packed(fields[..k]), BE(fields[k].1, w));
    FromBEofBE(fields[k].1, w);
  }

  lemma {:induction false} SliceOfPrefix(s: bytes, a: bytes, b: bytes)
    requires |a| + |b| <= |s| && s[..|a| + |b|] == a + b
    ensures s[|a|..|a| + |b|] == b
  {
    assert s[|a|..|a| + |b|] == s[..|a| + |b|][|a|..];
  }
}
