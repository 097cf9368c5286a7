/** The raw-to-qcow2 writer as a whole (scripts/qcow2-convert.py:144-327), proved against the
    independent reader of Qcow2Format: reading back gives the disk, every cluster of the file is
    named and counted exactly once, and the regions of the file tile it. */
module Qcow2Image {
  import opened Bytes
  import opened Arithmetic
  import opened Bitmap
  import opened Qcow2Plan
  import opened Qcow2Format
  import opened Qcow2Output
  import opened Qcow2Header
  import opened Qcow2Refcounts
  import opened Qcow2Tables
  import opened Qcow2Regions
  import opened Qcow2Reading
  import opened Qcow2References

  // ----- the whole conversion

  /** write_qcow2_content without an external data file. The one failure is a level-1 table of more
      than 32 MiB; otherwise the emitted file opens, its guest content is the raw image padded with
      zeros to the disk size, it consists of whole clusters that are named and counted exactly once, and the copied
      flag of every table entry agrees with the count. */
  method WriteQcow2Content(f: SparseFile, cs: nat, rb: nat) returns (out: Option<bytes>)
    requires f.Valid() && ClusterSizeOk(cs) && RefcountBitsOk(rb)
    requires AlignUp(|f.content|, 512) <= 0x20_0000_0000_0000
    ensures out == None <==> CeilDiv(CeilDiv(AlignUp(|f.content|, 512), cs), cs / 8) * 8 > MAX_L1_BYTES
    ensures out.Some? ==> Converts(out.value, f.content, cs, rb)
  {
    var plan, l1, l2 := MakePlan(f, cs, rb);
    if plan == None {
      return None;
    }
    var p := plan.value;
    ghost var s1, s2 := SetBits(l1[..]), SetBits(l2[..]);
    PlanOkFits(p, f.content, l1[..], l2[..]);
    SetBitsRepresented(l1[..]);
    SetBitsRepresented(l2[..]);
    AtIs(p.l1Tables, p.E());
    AtIs(p.l1Entries, p.E());
    NoDataInAbsentTables(s1, s2, p.E());
    var g := WriteRegions(p, f.content, l1[..], l2[..], s1, s2);
    out := Some(Flatten(g.All()));
    ImageConverts(out.value, g, p, f.content, s1, s2);
  }

  /** What the conversion promises about the bytes of the file. */
  ghost predicate Converts(file: bytes, raw: bytes, cs: nat, rb: nat) {
    && OpenImage(file).Some? && NothingElse(file) && FeaturesNamed(file)
    && var h := OpenImage(file).value;
    && h.cs == cs && h.rb == rb && h.diskSize == AlignUp(|raw|, 512)
    && (forall off: nat :: off < h.diskSize ==> ReadGuest(file, h, off) == Some(RawByte(raw, off)))
    && EntriesFlagged(file, h)
    && exists total: nat :: |file| == total * cs
         && forall k: nat :: RefcountOf(file, h, k) == Some(if k < total then 1 else 0)
                             && References(file, h, k) == (if k < total then 1 else 0)
  }

  lemma {:induction false} ImageConverts(file: bytes, g: Regions, p: Plan, raw: bytes, s1: set<nat>, s2: set<nat>)
    requires PlanFits(p, s1, s2) && RegionsOk(g, p, raw, s1, s2) && IsHeader(g.header, p) && file == Flatten(g.All())
    requires p.diskSize == AlignUp(|raw|, 512)
    requires CoversTables(s1, s2, TableOf(p.E())) && MarksData(s2, raw, p.cs, p.totalData)
    requires BoundedBy(s1, p.l1Entries) && BoundedBy(s2, p.totalData)
    ensures Converts(file, raw, p.cs, p.rb)
  {
    RegionsPlaced(g, p, raw, s1, s2);
    ImageHeader(file, g.header, p);
    ImageFeatures(file, g.header, p);
    AtIs(p.Total(), p.cs);
    var h := PlanHeader(p);
    forall off: nat | off < h.diskSize ensures ReadGuest(file, h, off) == Some(RawByte(raw, off)) {
      GuestReads(file, p, raw, s1, s2, off);
    }
    FlagsAreRight(file, p, raw, s1, s2);
    AtIs(p.rcTables, p.E());
    forall k: nat ensures RefcountOf(file, h, k) == Some(if k < p.Total() then 1 else 0)
                          && References(file, h, k) == (if k < p.Total() then 1 else 0)
    {
      RefcountReads(file, p, k);
      NamedOnce(file, p, raw, s1, s2, k);
    }
  }

  lemma {:induction false} ImageHeader(file: bytes, header: bytes, p: Plan)
    requires ClusterSizeOk(p.cs) && RefcountBitsOk(p.rb) && OffsetsFit(p) && IsHeader(header, p)
    requires p.diskSize <= 0x20_0000_0000_0000 && p.l1Entries <= 0x40_0000
    requires Placed(file, p.cs, 0, [header])
    ensures OpenImage(file) == Some(PlanHeader(p)) && NothingElse(file)
  {
    hide OpenImage, NothingElse, PlanHeader, Packed, FeatureTable, Zeros;
    HeaderFieldOffsets(p);
    assert [header][0] == header;
    assert PlacedAt(file, p.cs, 0, header);
    assert header[..104] == Packed(HeaderFields(p));
    assert file[..104] == file[..p.cs][..104];
    HeaderReads(file, p);
  }

  lemma {:induction false} ImageFeatures(file: bytes, header: bytes, p: Plan)
    requires ClusterSizeOk(p.cs) && RefcountBitsOk(p.rb) && IsHeader(header, p) && Placed(file, p.cs, 0, [header])
    ensures FeaturesNamed(file)
  {
    hide IsHeader, FeaturesNamed;
    assert [header][0] == header;
    assert PlacedAt(file, p.cs, 0, header);
    assert file == header + file[p.cs..];
    FeaturesRead(header, p, file[p.cs..]);
  }
}
