/** The GPT patcher (kernel/src/gpt_boot_patch.rs:35-150; UEFI Specification sections 5.3.2 and 5.3.3):
    sets two attribute bits of the first partition entry and repairs both checksums. */
module GptPatch {
  import opened Bytes
  import Arithmetic
  import opened Crc32
  import opened CrcPolynomial

  const SECTOR := 512
  const SIG_EFI_PART: bytes := [69, 70, 73, 32, 80, 65, 82, 84]
  const U32 := 0x1_0000_0000

  // ----- the disk

  /** A block device of 512-byte sectors. A request may fail: the k-th does when `refused` says so, or when
      it lies beyond the end. A failed request changes nothing. */
  class Disk {
    var sectors: seq<bytes>
    var requests: nat
    const refused: set<nat>

    predicate Valid()
      reads this
    {
      SectorsOk(sectors)
    }

    constructor (sectors: seq<bytes>, refused: set<nat>)
      requires SectorsOk(sectors)
      ensures Valid() && this.sectors == sectors && this.refused == refused
    {
      this.sectors, this.refused, requests := sectors, refused, 0;
    }

    method ReadSector(lba: nat) returns (s: Option<bytes>)
      requires Valid()
      modifies this`requests
      ensures s.Some? ==> lba < |sectors| && s.value == sectors[lba] && |s.value| == SECTOR
      ensures refused == {} && lba < |sectors| ==> s.Some?
    {
      requests := requests + 1;
      if lba < |sectors| && requests !in refused {
        return Some(sectors[lba]);
      }
      return None;
    }

    method WriteSector(lba: nat, s: bytes) returns (ok: bool)
      requires Valid() && |s| == SECTOR
      modifies this
      ensures Valid() && (ok ==> lba < |sectors|) && |sectors| == |old(sectors)|
      ensures sectors == if ok then old(sectors)[lba := s] else old(sectors)
      ensures refused == {} && lba < |sectors| ==> ok
    {
      requests := requests + 1;
      if lba < |sectors| && requests !in refused {
        sectors := sectors[lba := s];
        return true;
      }
      return false;
    }
  }

  predicate SectorsOk(sectors: seq<bytes>) {
    forall k :: 0 <= k < |sectors| ==> |sectors[k]| == SECTOR
  }

  // ----- fields

  /** The little-endian number in n bytes at `at`. */
  function Field(s: bytes, at: nat, n: nat): nat
    requires at + n <= |s|
  {
    FromLE(s[at..at + n])
  }

  /** A 512-byte sector as a GPT header. */
  predicate HeaderOk(h: bytes) {
    && |h| == SECTOR && h[0..8] == SIG_EFI_PART
    && 92 <= HeaderSize(h) <= SECTOR && Field(h, 0x18, 8) == 1
    && NumEntries(h) > 0 && 128 <= EntrySize(h) <= 4096 && ArrayLength(h) <= 2 * 1024 * 1024
  }

  function HeaderSize(h: bytes): nat
    requires |h| == SECTOR
  {
    Field(h, 0x0C, 4)
  }

  function EntryLba(h: bytes): nat
    requires |h| == SECTOR
  {
    Field(h, 0x48, 8)
  }

  function NumEntries(h: bytes): nat
    requires |h| == SECTOR
  {
    Field(h, 0x50, 4)
  }

  function EntrySize(h: bytes): nat
    requires |h| == SECTOR
  {
    Field(h, 0x54, 4)
  }

  function ArrayLength(h: bytes): nat
    requires |h| == SECTOR
  {
    NumEntries(h) * EntrySize(h)
  }

  /** A header with these numbers in its fields (UEFI Specification, section 5.3.2) is read as having them. */
  lemma {:induction false} HeaderReads(h: bytes, size: nat, lba: nat, count: nat, each: nat)
    requires |h| == SECTOR && size < U32 && lba < 0x1_0000_0000_0000_0000 && count < U32 && each < U32
    requires h[12..16] == LE(size, 4) && h[72..80] == LE(lba, 8) && h[80..84] == LE(count, 4) && h[84..88] == LE(each, 4)
    ensures HeaderSize(h) == size && EntryLba(h) == lba && ArrayLength(h) == count * each
    ensures NumEntries(h) == count && EntrySize(h) == each
  {
    hide LE, FromLE;
    Pow256Values();
    FromLEofLE(size, 4);
    FromLEofLE(lba, 8);
    FromLEofLE(count, 4);
    FromLEofLE(each, 4);
  }

  // ----- the partition array

  /** The first n bytes from sector lba on. */
  function Stored(sectors: seq<bytes>, lba: nat, n: nat): (s: bytes)
    requires SectorsOk(sectors) && lba * SECTOR + n <= |sectors| * SECTOR
    ensures |s| == n
    decreases n
  {
    if n == 0 then [] else
    var whole := (n - 1) / SECTOR;
    assert n - whole * SECTOR <= SECTOR;
    Stored(sectors, lba, whole * SECTOR) + sectors[lba + whole][..n - whole * SECTOR]
  }

  /** Byte i of the array is byte i % 512 of sector i / 512. */
  lemma {:induction false} StoredAt(sectors: seq<bytes>, lba: nat, n: nat, i: nat)
    requires SectorsOk(sectors) && lba * SECTOR + n <= |sectors| * SECTOR && i < n
    ensures lba + i / SECTOR < |sectors| && Stored(sectors, lba, n)[i] == sectors[lba + i / SECTOR][i % SECTOR]
    decreases n
  {
    var whole := (n - 1) / SECTOR;
    if i < whole * SECTOR {
      StoredAt(sectors, lba, whole * SECTOR, i);
    } else {
      assert i / SECTOR == whole && i % SECTOR == i - whole * SECTOR;
    }
  }

  lemma {:induction false} OneMoreSector(sectors: seq<bytes>, lba: nat, pos: nat, chunk: nat)
    requires SectorsOk(sectors) && 0 < chunk <= SECTOR && lba * SECTOR + pos + chunk <= |sectors| * SECTOR && pos % SECTOR == 0
    ensures lba + pos / SECTOR < |sectors|
    ensures Stored(sectors, lba, pos + chunk) == Stored(sectors, lba, pos) + sectors[lba + pos / SECTOR][..chunk]
  {
    assert (pos + chunk - 1) / SECTOR == pos / SECTOR;
    assert pos / SECTOR * SECTOR == pos;
  }

  /** crc_partition_bytes: sector by sector, the CRC of the concatenation. */
  method CrcPartitionBytes(blk: Disk, entryLba: nat, total: nat) returns (crc: Option<nat>)
    requires blk.Valid() && total > 0
    modifies blk`requests
    ensures crc.Some? ==> entryLba * SECTOR + total <= |blk.sectors| * SECTOR && crc.value == Checksum(Stored(blk.sectors, entryLba, total))
    ensures blk.refused == {} && entryLba * SECTOR + total <= |blk.sectors| * SECTOR ==> crc.Some?
    ensures crc.Some? ==> crc.value < U32
  {
    hide Update, Stored, Checksum;
    var register := INITIAL;
    var pos := 0;
    CrcOfNothing(blk.sectors, entryLba);
    while pos < total
      invariant pos <= total && (pos < total ==> pos % SECTOR == 0)
      invariant pos > 0 ==> Inside(entryLba, pos, |blk.sectors|)
      invariant Inside(entryLba, pos, |blk.sectors|) ==> register == Update(INITIAL, Stored(blk.sectors, entryLba, pos))
    {
      var lba, o := entryLba + pos / SECTOR, pos % SECTOR;
      var s := blk.ReadSector(lba);
      if s.None? {
        return None;
      }
      var chunk := if SECTOR - o < total - pos then SECTOR - o else total - pos;
      OneMoreSector(blk.sectors, entryLba, pos, chunk);
      UpdateConcat(INITIAL, Stored(blk.sectors, entryLba, pos), s.value[..chunk]);
      register := Crc32Update(register, s.value[o..o + chunk]);
      pos := pos + chunk;
    }
    CrcIsChecksum(Stored(blk.sectors, entryLba, total));
    return Some(Finish(register));
  }

  predicate Inside(lba: nat, n: nat, sectors: nat) {
    lba * SECTOR + n <= sectors * SECTOR
  }

  lemma {:induction false} CrcOfNothing(sectors: seq<bytes>, lba: nat)
    requires SectorsOk(sectors)
    ensures Inside(lba, 0, |sectors|) ==> Update(INITIAL, Stored(sectors, lba, 0)) == INITIAL
  {
  }

  // ----- the patch

  /** write_u32_le and write_u64_le, at an offset inside the sector. */
  function Put(s: bytes, at: nat, n: nat, v: nat): (r: bytes)
    requires at + n <= |s|
    ensures |r| == |s|
  {
    Splice(s, at, LE(v, n))
  }

  /** A number with bits 0 and 2 set. */
  function WithBootBits(v: nat): (r: nat) {
    v / 8 * 8 + BootLow(v % 8)
  }

  /** The low three bits: bit 1 stays. */
  function BootLow(low: nat): nat {
    if low == 2 || low == 3 || low == 6 || low == 7 then 7 else 5
  }

  predicate Bit(v: nat, k: nat) {
    if k == 0 then v % 2 == 1 else Bit(v / 2, k - 1)
  }

  lemma {:induction false} BitZero(v: nat)
    ensures Bit(v, 0) == (v % 2 == 1)
  {
  }

  lemma {:induction false} BitUp(v: nat, k: nat)
    requires k > 0
    ensures Bit(v, k) == Bit(v / 2, k - 1)
  {
  }

  lemma {:induction false} Halves(v: nat)
    ensures v / 2 / 2 == v / 4 && v / 2 / 2 / 2 == v / 8
  {
  }

  lemma {:induction false} LowDigits(v: nat)
    ensures v % 2 == v % 8 % 2 && v / 2 % 2 == v % 8 / 2 % 2 && v / 4 % 2 == v % 8 / 4
  {
    var q, low := v / 8, v % 8;
    assert v == q * 8 + low && low == low / 4 * 4 + low % 4 && low == low / 2 * 2 + low % 2;
    Arithmetic.DivModUnique(q * 4 + low / 2, low % 2, 2);
    Arithmetic.DivModUnique(q * 2 + low / 4, low % 4, 4);
    Arithmetic.DivModUnique(q, low / 4, 2);
    assert low / 2 == low / 4 * 2 + low / 2 % 2;
    Arithmetic.DivModUnique(q * 2 + low / 4, low / 2 % 2, 2);
  }

  lemma {:induction false} HighBit(v: nat, k: nat)
    requires k >= 3
    ensures Bit(v, k) == Bit(v / 8, k - 3)
  {
    hide Bit;
    BitUp(v, k);
    BitUp(v / 2, k - 1);
    BitUp(v / 2 / 2, k - 2);
    Halves(v);
  }

  lemma {:induction false} LowBits(v: nat, low: nat)
    requires low == v % 8
    ensures Bit(v, 0) == (low % 2 == 1) && Bit(v, 1) == (low / 2 % 2 == 1) && Bit(v, 2) == (low / 4 == 1)
    ensures forall k :: k >= 3 ==> Bit(v, k) == Bit(v / 8, k - 3)
  {
    hide Bit;
    LowDigits(v);
    Halves(v);
    BitZero(v);
    BitUp(v, 1);
    BitZero(v / 2);
    BitUp(v, 2);
    BitUp(v / 2, 1);
    BitZero(v / 2 / 2);
    forall k | k >= 3 ensures Bit(v, k) == Bit(v / 8, k - 3) {
      HighBit(v, k);
    }
  }

  lemma {:induction false} SameHigh(v: nat, r: nat, k: nat)
    requires r / 8 == v / 8 && k >= 3
    ensures Bit(r, k) == Bit(v, k)
  {
    LowBits(v, v % 8);
    LowBits(r, r % 8);
  }

  /** Exactly bits 0 and 2 are set, and a number is left alone if and only if both were. */
  lemma {:induction false} BootBits(v: nat)
    ensures forall k :: Bit(WithBootBits(v), k) == (k == 0 || k == 2 || Bit(v, k))
    ensures WithBootBits(v) == v <==> Bit(v, 0) && Bit(v, 2)
  {
    hide Bit;
    var r, low := WithBootBits(v), v % 8;
    assert r / 8 == v / 8 && r % 8 == BootLow(low);
    LowBits(v, low);
    LowBits(r, BootLow(low));
    forall k ensures Bit(r, k) == (k == 0 || k == 2 || Bit(v, k)) {
      if k >= 3 {
        SameHigh(v, r, k);
      }
    }
  }

  const ATTRS := 48

  /** The first entry's sector with its boot bits set. */
  function PatchedEntry(ent: bytes): (r: bytes)
    requires |ent| == SECTOR
    ensures |r| == SECTOR
  {
    Put(ent, ATTRS, 8, WithBootBits(Field(ent, ATTRS, 8)))
  }

  /** Setting the bits changes one byte of the sector and nothing else. */
  lemma {:induction false} PatchIsOneByte(ent: bytes)
    requires |ent| == SECTOR
    ensures WithBootBits(ent[ATTRS]) < 256 && PatchedEntry(ent) == ent[ATTRS := WithBootBits(ent[ATTRS])]
    ensures Field(PatchedEntry(ent), ATTRS, 8) == WithBootBits(Field(ent, ATTRS, 8))
  {
    hide WithBootBits, LE, FromLE;
    var a := ent[ATTRS..ATTRS + 8];
    BootBitsLow(a[0], 0);
    BootBytes(a);
    assert PatchedEntry(ent)[ATTRS..ATTRS + 8] == LE(WithBootBits(FromLE(a)), 8);
  }

  lemma {:induction false} BootBytes(a: bytes)
    requires |a| == 8
    ensures WithBootBits(a[0]) < 256 && LE(WithBootBits(FromLE(a)), 8) == a[0 := WithBootBits(a[0])]
    ensures FromLE(LE(WithBootBits(FromLE(a)), 8)) == WithBootBits(FromLE(a))
  {
    hide WithBootBits, LE, FromLE;
    var v, high := FromLE(a), FromLE(a[1..]);
    LowestFirst(a);
    BootBitsLow(a[0], high);
    var low := WithBootBits(a[0]);
    LEofFromLE(a[1..]);
    LEofFromLE(a);
    Pow256Values();
    LowByteFirst(low, high);
    assert a[0 := low] == [low] + a[1..];
    BootBitsFit(v);
    FromLEofLE(WithBootBits(v), 8);
  }

  lemma {:induction false} LowestFirst(a: bytes)
    requires |a| > 0
    ensures FromLE(a) == a[0] + 256 * FromLE(a[1..])
  {
  }

  lemma {:induction false} LowByteFirst(low: byte, high: nat)
    ensures LE(low + 256 * high, 8) == [low] + LE(high, 7)
  {
    assert (low + 256 * high) % 256 == low && (low + 256 * high) / 256 == high;
  }

  lemma {:induction false} BootBitsLow(low: byte, high: nat)
    ensures 0 <= WithBootBits(low) < 256 && WithBootBits(low + 256 * high) == WithBootBits(low) + 256 * high
  {
    var v := low + 256 * high;
    assert v == (low / 8 + 32 * high) * 8 + low % 8;
    assert v / 8 == low / 8 + 32 * high && v % 8 == low % 8;
  }

  lemma {:induction false} BootBitsFit(v: nat)
    requires v < 0x1_0000_0000_0000_0000
    ensures WithBootBits(v) < 0x1_0000_0000_0000_0000
  {
  }

  const HEADER_CRC := 0x10
  const ARRAY_CRC := 0x58

  /** The block the header checksum covers: the first n bytes with the checksum itself zero. */
  function CheckedBlock(h: bytes, n: nat): bytes
    requires 92 <= n <= |h|
  {
    Put(h, HEADER_CRC, 4, 0)[..n]
  }

  /** Both stored checksums agree with what is on the disk. */
  predicate Verifies(sectors: seq<bytes>, lba: nat, n: nat, size: nat)
    requires SectorsOk(sectors) && |sectors| > 1 && Inside(lba, n, |sectors|) && 92 <= size <= SECTOR
  {
    && Field(sectors[1], ARRAY_CRC, 4) == Checksum(Stored(sectors, lba, n))
    && Field(sectors[1], HEADER_CRC, 4) == Checksum(CheckedBlock(sectors[1], size))
  }

  /** Two headers that agree outside the two checksums. */
  predicate SameButChecksums(h: bytes, g: bytes) {
    |h| == |g| == SECTOR && h[..HEADER_CRC] == g[..HEADER_CRC]
    && h[HEADER_CRC + 4..ARRAY_CRC] == g[HEADER_CRC + 4..ARRAY_CRC] && h[ARRAY_CRC + 4..] == g[ARRAY_CRC + 4..]
  }

  predicate EntryUsed(ent: bytes) {
    |ent| == SECTOR && ent[0..16] != Zeros(16)
  }

  predicate AlreadySet(ent: bytes)
    requires |ent| == SECTOR
  {
    WithBootBits(Field(ent, ATTRS, 8)) == Field(ent, ATTRS, 8)
  }

  const TMP_LEN := 128

  /** The end of the patch on the header alone: the array checksum goes in, then the header's own. It gives
      up on a header of more than 128 bytes. */
  method RepairHeader(h0: bytes, size: nat, arrayCrc: nat) returns (h: Option<bytes>)
    requires |h0| == SECTOR && 92 <= size <= SECTOR && arrayCrc < U32
    ensures h.Some? <==> size <= TMP_LEN
    ensures h.Some? ==> |h.value| == SECTOR && SameButChecksums(h.value, h0) && Field(h.value, ARRAY_CRC, 4) == arrayCrc
    ensures h.Some? ==> Field(h.value, HEADER_CRC, 4) == Checksum(CheckedBlock(h.value, size))
  {
    hide Update, LE, FromLE, Checksum;
    var hdr := Put(h0, ARRAY_CRC, 4, arrayCrc);
    hdr := Put(hdr, HEADER_CRC, 4, 0);
    if size > TMP_LEN {
      return None;
    }
    var tmp := hdr[..size];
    tmp := Put(tmp, HEADER_CRC, 4, 0);
    var crc := Crc32Update(INITIAL, tmp);
    var hc := Finish(crc);
    CrcIsChecksum(tmp);
    Repaired(h0, size, arrayCrc, hc);
    return Some(Put(hdr, HEADER_CRC, 4, hc));
  }

  lemma {:induction false} PutField(s: bytes, at: nat, v: nat)
    requires at + 4 <= |s| && v < U32
    ensures Field(Put(s, at, 4, v), at, 4) == v
    ensures Put(s, at, 4, v)[..at] == s[..at] && Put(s, at, 4, v)[at + 4..] == s[at + 4..]
  {
    Pow256Values();
    FromLEofLE(v, 4);
    assert Put(s, at, 4, v)[at..at + 4] == LE(v, 4);
  }

  lemma {:induction false} PutAgain(s: bytes, at: nat, v: nat, w: nat)
    requires at + 4 <= |s|
    ensures Put(Put(s, at, 4, v), at, 4, w) == Put(s, at, 4, w)
  {
  }

  lemma {:induction false} PutPrefix(s: bytes, at: nat, v: nat, n: nat)
    requires at + 4 <= n <= |s|
    ensures Put(s[..n], at, 4, v) == Put(s, at, 4, v)[..n]
  {
  }

  lemma {:induction false} Repaired(h0: bytes, size: nat, arrayCrc: nat, hc: nat)
    requires |h0| == SECTOR && 92 <= size <= SECTOR && arrayCrc < U32 && hc < U32
    ensures var hdr := Put(Put(h0, ARRAY_CRC, 4, arrayCrc), HEADER_CRC, 4, 0);
            var h := Put(hdr, HEADER_CRC, 4, hc);
            && SameButChecksums(h, h0) && Field(h, ARRAY_CRC, 4) == arrayCrc && Field(h, HEADER_CRC, 4) == hc
            && CheckedBlock(h, size) == Put(hdr[..size], HEADER_CRC, 4, 0)
  {
    hide LE, FromLE, Put;
    var a := Put(h0, ARRAY_CRC, 4, arrayCrc);
    var hdr := Put(a, HEADER_CRC, 4, 0);
    var h := Put(hdr, HEADER_CRC, 4, hc);
    PutField(h0, ARRAY_CRC, arrayCrc);
    PutAgain(a, HEADER_CRC, 0, hc);
    PutField(a, HEADER_CRC, hc);
    PutAgain(hdr, HEADER_CRC, hc, 0);
    PutPrefix(hdr, HEADER_CRC, 0, size);
    Outside(h0, a, h);
  }

  lemma {:induction false} Outside(h0: bytes, a: bytes, h: bytes)
    requires |h0| == |a| == |h| == SECTOR
    requires a[..ARRAY_CRC] == h0[..ARRAY_CRC] && a[ARRAY_CRC + 4..] == h0[ARRAY_CRC + 4..]
    requires h[..HEADER_CRC] == a[..HEADER_CRC] && h[HEADER_CRC + 4..] == a[HEADER_CRC + 4..]
    ensures SameButChecksums(h, h0) && Field(h, ARRAY_CRC, 4) == Field(a, ARRAY_CRC, 4)
  {
    hide FromLE;
    assert h[..HEADER_CRC] == a[..ARRAY_CRC][..HEADER_CRC];
    SliceOfSlice(h, HEADER_CRC + 4, SECTOR - HEADER_CRC - 4, 0, ARRAY_CRC - HEADER_CRC - 4);
    SliceOfSlice(a, HEADER_CRC + 4, SECTOR - HEADER_CRC - 4, 0, ARRAY_CRC - HEADER_CRC - 4);
    SliceOfSlice(a, 0, ARRAY_CRC, HEADER_CRC + 4, ARRAY_CRC);
    SliceOfSlice(h0, 0, ARRAY_CRC, HEADER_CRC + 4, ARRAY_CRC);
    assert h[HEADER_CRC + 4..][ARRAY_CRC - HEADER_CRC..] == h[ARRAY_CRC + 4..];
    assert a[HEADER_CRC + 4..][ARRAY_CRC - HEADER_CRC..] == a[ARRAY_CRC + 4..];
    assert h[HEADER_CRC + 4..][ARRAY_CRC - HEADER_CRC - 4..ARRAY_CRC - HEADER_CRC] == h[ARRAY_CRC..ARRAY_CRC + 4];
    assert a[HEADER_CRC + 4..][ARRAY_CRC - HEADER_CRC - 4..ARRAY_CRC - HEADER_CRC] == a[ARRAY_CRC..ARRAY_CRC + 4];
  }

  // ----- the whole patch

  /** The disk after a patch that wrote: the entry's boot bits set, the header's two checksums renewed, and
      every other byte as before. */
  predicate Patched(was: seq<bytes>, now: seq<bytes>)
    requires SectorsOk(was) && SectorsOk(now) && |was| == |now| > 1 && EntryLba(was[1]) < |was|
  {
    var lba := EntryLba(was[1]);
    && now == was[lba := PatchedEntry(was[lba])][1 := now[1]]
    && SameButChecksums(now[1], was[1])
  }

  /** Where the array starts behind the header and fits the disk. */
  predicate ArrayBehindHeader(sectors: seq<bytes>)
    requires SectorsOk(sectors) && |sectors| > 1
  {
    EntryLba(sectors[1]) >= 2 && Inside(EntryLba(sectors[1]), ArrayLength(sectors[1]), |sectors|)
  }

  /** What the patcher looks for before it writes. */
  predicate Patchable(sectors: seq<bytes>)
    requires SectorsOk(sectors) && |sectors| > 1
  {
    HeaderOk(sectors[1]) && EntryLba(sectors[1]) < |sectors| && EntryUsed(sectors[EntryLba(sectors[1])])
  }

  predicate BitsSet(sectors: seq<bytes>)
    requires SectorsOk(sectors) && |sectors| > 1 && EntryLba(sectors[1]) < |sectors|
  {
    AlreadySet(sectors[EntryLba(sectors[1])])
  }

  /** try_patch_gpt on a disk whose sector 1 has just been read into hdr. With the array outside sectors 0
      and 1, true means: nothing had to be done, or the bits are set, both checksums verify against what is
      now on the disk, and no other byte has changed. */
  method TryPatchGpt(blk: Disk, hdr0: bytes) returns (ok: bool)
    requires blk.Valid() && |blk.sectors| > 1 && hdr0 == blk.sectors[1]
    modifies blk
    ensures blk.Valid() && |blk.sectors| == |old(blk.sectors)|
    ensures ok ==> Patchable(old(blk.sectors))
    ensures ok && BitsSet(old(blk.sectors)) ==> blk.sectors == old(blk.sectors)
    ensures ok && !BitsSet(old(blk.sectors)) && EntryLba(hdr0) >= 2 ==>
      && Patched(old(blk.sectors), blk.sectors)
      && Inside(EntryLba(hdr0), ArrayLength(hdr0), |blk.sectors|)
      && Verifies(blk.sectors, EntryLba(hdr0), ArrayLength(hdr0), HeaderSize(hdr0))
    ensures blk.refused == {} && ArrayBehindHeader(old(blk.sectors)) ==>
      (ok <==> Patchable(old(blk.sectors)) && (BitsSet(old(blk.sectors)) || HeaderSize(hdr0) <= TMP_LEN))
    ensures blk.refused == {} && ArrayBehindHeader(old(blk.sectors)) && Patchable(old(blk.sectors)) && !ok ==>
      blk.sectors == old(blk.sectors)[EntryLba(hdr0) := PatchedEntry(old(blk.sectors)[EntryLba(hdr0)])]
  {
    hide Checksum, Stored, PatchedEntry, FromLE, CheckedBlock, SameButChecksums, WithBootBits;
    if hdr0[0..8] != SIG_EFI_PART {
      return false;
    }
    var size := HeaderSize(hdr0);
    if size < 92 || size > SECTOR {
      return false;
    }
    if Field(hdr0, 0x18, 8) != 1 {
      return false;
    }
    var lba, count, each := EntryLba(hdr0), NumEntries(hdr0), EntrySize(hdr0);
    if count == 0 || each < 128 || each > 4096 {
      return false;
    }
    var total := count * each;
    if total > 2 * 1024 * 1024 {
      return false;
    }
    Positive(count, each);
    var e := blk.ReadSector(lba);
    if e.None? {
      return false;
    }
    if e.value[0..16] == Zeros(16) {
      return false;
    }
    if AlreadySet(e.value) {
      return true;
    }
    ok := WriteEntryAndRepair(blk, lba, total, size);
  }

  lemma {:induction false} Positive(a: nat, b: nat)
    requires a > 0 && b >= 128
    ensures a * b > 0
  {
  }

  /** The writing half of the patch. */
  method WriteEntryAndRepair(blk: Disk, lba: nat, total: nat, size: nat) returns (ok: bool)
    requires blk.Valid() && |blk.sectors| > 1 && lba < |blk.sectors| && total > 0 && 92 <= size <= SECTOR
    modifies blk
    ensures blk.Valid() && |blk.sectors| == |old(blk.sectors)|
    ensures ok && lba >= 2 ==>
      && blk.sectors == old(blk.sectors)[lba := PatchedEntry(old(blk.sectors)[lba])][1 := blk.sectors[1]]
      && SameButChecksums(blk.sectors[1], old(blk.sectors)[1])
      && Inside(lba, total, |blk.sectors|) && Verifies(blk.sectors, lba, total, size)
    ensures blk.refused == {} && lba >= 2 && Inside(lba, total, |blk.sectors|) ==> (ok <==> size <= TMP_LEN)
    ensures blk.refused == {} && lba >= 2 && Inside(lba, total, |blk.sectors|) && !ok ==>
      blk.sectors == old(blk.sectors)[lba := PatchedEntry(old(blk.sectors)[lba])]
  {
    hide Checksum, Stored, PatchedEntry, FromLE, CheckedBlock, SameButChecksums;
    ghost var was := blk.sectors;
    var ent := PatchedEntry(blk.sectors[lba]);
    var written := blk.WriteSector(lba, ent);
    if !written {
      return false;
    }
    var crc := CrcPartitionBytes(blk, lba, total);
    if crc.None? {
      return false;
    }
    var hdr := blk.ReadSector(1);
    if hdr.None? {
      return false;
    }
    var h := RepairHeader(hdr.value, size, crc.value);
    if h.None? {
      return false;
    }
    if lba >= 2 {
      SameArray(blk.sectors, h.value, lba, total);
    }
    ok := blk.WriteSector(1, h.value);
  }

  /** Writing the header does not change an array that lies behind it. */
  lemma {:induction false} SameArray(sectors: seq<bytes>, h: bytes, lba: nat, n: nat)
    requires SectorsOk(sectors) && |sectors| > 1 && |h| == SECTOR && lba >= 2 && Inside(lba, n, |sectors|)
    ensures SectorsOk(sectors[1 := h]) && Stored(sectors[1 := h], lba, n) == Stored(sectors, lba, n)
    decreases n
  {
    if n > 0 {
      SameArray(sectors, h, lba, (n - 1) / SECTOR * SECTOR);
    }
  }

  /** The bits that a successful patch leaves set. */
  lemma {:induction false} PatchedBits(was: seq<bytes>, now: seq<bytes>)
    requires SectorsOk(was) && SectorsOk(now) && |was| == |now| > 1 && 2 <= EntryLba(was[1]) < |was| && Patched(was, now)
    ensures var e, f := was[EntryLba(was[1])], now[EntryLba(was[1])];
            && (forall k :: Bit(Field(f, ATTRS, 8), k) == (k == 0 || k == 2 || Bit(Field(e, ATTRS, 8), k)))
            && (forall i :: 0 <= i < SECTOR && i != ATTRS ==> f[i] == e[i])
  {
    hide WithBootBits, FromLE, Bit;
    var e := was[EntryLba(was[1])];
    PatchIsOneByte(e);
    BootBits(Field(e, ATTRS, 8));
  }
}
