/** The header cluster (scripts/qcow2-convert.py:105-141, 219-257). */
module Qcow2Header {
  import opened Bytes
  import opened Arithmetic
  import opened Qcow2Plan
  import opened Qcow2Format
  import opened Qcow2Output

  // ----- the header cluster

  function HeaderFields(p: Plan): Fields
    requires p.cs > 0 && p.rb > 0
  {
    [ (4, 0x514649fb), (4, 3), (8, 0), (4, 0), (4, Log2(p.cs)), (8, p.diskSize), (4, 0), (4, p.l1Entries),
      (8, if p.l1Tables == 0 then 0 else At(p.L1Idx(), p.cs)), (8, At(1, p.cs)), (4, p.rcTables), (4, 0), (8, 0),
      (8, 0), (8, 0), (8, 0), (4, Log2(p.rb)), (4, 112) ]
  }

  function Ascii(s: string): bytes {
    seq<byte>(|s|, i requires 0 <= i < |s| => s[i] as int % 256)
  }

  const FEATURES: seq<(byte, byte, string)> :=
    [ (0, 0, "dirty bit"), (0, 1, "corrupt bit"), (0, 2, "external data file"), (0, 3, "compression type"),
      (0, 4, "extended L2 entries"), (1, 0, "lazy refcounts"), (2, 0, "bitmaps"), (2, 1, "raw external data") ]

  /** ">BB46s" */
  function FeatureRecord(f: (byte, byte, string)): (r: bytes)
    requires |f.2| <= 46
    ensures |r| == 48
  {
    [f.0, f.1] + Ascii(f.2) + Zeros(46 - |f.2|)
  }

  function FeatureRecords(): (r: seq<bytes>)
    ensures |r| == 8 && forall k :: 0 <= k < 8 ==> |r[k]| == 48
  {
    seq(8, k requires 0 <= k < 8 => FeatureRecord(FEATURES[k]))
  }

  /** What write_features packs: the extension's type and length, then one record per known bit. */
  function FeatureTable(records: seq<bytes>): bytes {
    BE(0x6803F857, 4) + BE(|records| * 48, 4) + Flatten(records)
  }

  lemma {:induction false} ConcatSize(parts: seq<bytes>, size: nat)
    requires forall k :: 0 <= k < |parts| ==> |parts[k]| == size
    ensures |Flatten(parts)| == |parts| * size
  {
    if |parts| > 0 {
      ConcatSize(parts[..|parts| - 1], size);
      assert (|parts| - 1) * size + size == |parts| * size;
    }
  }

  /** The header cluster: packed fields, two 32-bit zeros, the feature extension, zeros. */
  predicate IsHeader(c: bytes, p: Plan)
    requires p.cs > 0 && p.rb > 0
  {
    && |c| == p.cs >= 512
    && c == Packed(HeaderFields(p)) + Zeros(8) + FeatureTable(FeatureRecords()) + Zeros(p.cs - 504)
  }

  lemma {:induction false} HeaderFieldOffsets(p: Plan)
    requires p.cs > 0 && p.rb > 0
    ensures var f := HeaderFields(p);
            && |f| == 18 && FieldOffset(f, 1) == 4 && FieldOffset(f, 2) == 8 && FieldOffset(f, 3) == 16 && FieldOffset(f, 4) == 20 && FieldOffset(f, 5) == 24
            && FieldOffset(f, 6) == 32 && FieldOffset(f, 7) == 36 && FieldOffset(f, 8) == 40 && FieldOffset(f, 9) == 48
            && FieldOffset(f, 10) == 56 && FieldOffset(f, 11) == 60 && FieldOffset(f, 12) == 64 && FieldOffset(f, 13) == 72
            && FieldOffset(f, 14) == 80 && FieldOffset(f, 15) == 88
            && FieldOffset(f, 16) == 96 && FieldOffset(f, 17) == 100 && FieldOffset(f, 18) == 104
            && |Packed(f)| == 104
  {
    var f := HeaderFields(p);
    assert FieldOffset(f, 1) == 4;
    assert FieldOffset(f, 2) == 8;
    assert FieldOffset(f, 3) == 16;
    assert FieldOffset(f, 4) == 20;
    assert FieldOffset(f, 5) == 24;
    assert FieldOffset(f, 6) == 32;
    assert FieldOffset(f, 7) == 36;
    assert FieldOffset(f, 8) == 40;
    assert FieldOffset(f, 9) == 48;
    assert FieldOffset(f, 10) == 56;
    assert FieldOffset(f, 11) == 60;
    assert FieldOffset(f, 12) == 64;
    assert FieldOffset(f, 13) == 72;
    assert FieldOffset(f, 14) == 80;
    assert FieldOffset(f, 15) == 88;
    assert FieldOffset(f, 16) == 96;
    assert FieldOffset(f, 17) == 100;
    assert FieldOffset(f, 18) == 104;
    PackedPrefix(f, 18);
    assert f[..18] == f;
  }

  method BuildHeader(p: Plan) returns (c: bytes)
    requires p.cs >= 512 && p.rb > 0
    ensures IsHeader(c, p)
  {
    var cluster := new byte[p.cs](_ => 0);
    assert cluster[..] == Zeros(p.cs);
    HeaderFieldOffsets(p);
    ConcatSize(FeatureRecords(), 48);
    HeaderAssembly(Packed(HeaderFields(p)), FeatureTable(FeatureRecords()), p.cs);
    PackBytes(cluster, 0, Packed(HeaderFields(p)));
    PackBytes(cluster, 112, FeatureTable(FeatureRecords()));
    c := cluster[..];
  }

  /** Packing the fields and then the feature table into a zeroed cluster. */
  lemma {:induction false} HeaderAssembly(packed: bytes, features: bytes, cs: nat)
    requires |packed| == 104 && |features| == 392 && cs >= 512
    ensures var first := Zeros(cs)[..0] + packed + Zeros(cs)[104..];
            first[..112] + features + first[504..] == packed + Zeros(8) + features + Zeros(cs - 504)
  {
  }

  // ----- the feature names, as a reader finds them

  /** Behind the header length lies one extension: type and length of a feature name table, eight records
      naming the known bits, and the end of the extensions. */
  predicate FeaturesNamed(file: bytes) {
    && |file| >= 508 && Field(file, 100, 4) == 112
    && Field(file, 112, 4) == 0x6803F857 && Field(file, 116, 4) == 384 && Field(file, 504, 4) == 0
    && forall k :: 0 <= k < 8 ==> NamedAt(file, k)
  }

  predicate NamedAt(file: bytes, k: nat)
    requires k < 8
  {
    168 + 48 * k <= |file| && RecordIs(file[120 + 48 * k..168 + 48 * k], FEATURES[k])
  }

  /** A record: the kind of the bit, its number, and its name in ASCII with zeros behind it. */
  predicate RecordIs(record: bytes, f: (byte, byte, string))
    requires |record| == 48
  {
    && record[0] == f.0 && record[1] == f.1
    && forall i :: 0 <= i < 46 ==> record[2 + i] == if i < |f.2| then f.2[i] as int else 0
  }

  lemma {:induction false} RecordNames(f: (byte, byte, string))
    requires |f.2| <= 46 && forall i :: 0 <= i < |f.2| ==> f.2[i] as int < 128
    ensures RecordIs(FeatureRecord(f), f)
  {
  }

  lemma {:induction false} NamesAreAscii(k: nat)
    requires k < 8
    ensures |FEATURES[k].2| <= 46 && forall i :: 0 <= i < |FEATURES[k].2| ==> FEATURES[k].2[i] as int < 128
  {
  }

  lemma {:induction false} ConcatAt(parts: seq<bytes>, k: nat)
    requires (forall i :: 0 <= i < |parts| ==> |parts[i]| == 48) && k < |parts|
    ensures 48 * k + 48 <= |Flatten(parts)| && Flatten(parts)[48 * k..48 * k + 48] == parts[k]
  {
    ConcatSize(parts, 48);
    ConcatSize(parts[..|parts| - 1], 48);
    if k < |parts| - 1 {
      ConcatAt(parts[..|parts| - 1], k);
    }
  }

  lemma {:induction false} SliceOfMiddle(a: bytes, m: bytes, b: bytes, i: nat, j: nat)
    requires i <= j <= |m|
    ensures (a + m + b)[|a| + i..|a| + j] == m[i..j]
  {
  }

  lemma {:induction false} FieldOfMiddle(a: bytes, m: bytes, b: bytes, i: nat, v: nat)
    requires i + 4 <= |m| && m[i..i + 4] == BE(v, 4) && v < 0x1_0000_0000
    ensures Field(a + m + b, |a| + i, 4) == v
  {
    hide BE, FromBE;
    SliceOfMiddle(a, m, b, i, i + 4);
    Pow256Values();
    FromBEofBE(v, 4);
  }

  /** The extension of the header cluster is found by a reader that follows the header length. */
  lemma {:induction false} FeaturesRead(c: bytes, p: Plan, rest: bytes)
    requires p.cs > 0 && p.rb > 0 && IsHeader(c, p)
    ensures FeaturesNamed(c + rest)
  {
    hide BE, FromBE, Packed, Zeros, FeatureRecord, FeatureRecords, Flatten, NamedAt;
    HeaderFieldOffsets(p);
    var packed, records := Packed(HeaderFields(p)), FeatureRecords();
    var table := FeatureTable(records);
    ConcatSize(records, 48);
    var tail := Zeros(p.cs - 504) + rest;
    assert c + rest == packed + Zeros(8) + table + tail;
    var before := packed + Zeros(8);
    FieldOfMiddle(before, table, tail, 0, 0x6803F857);
    FieldOfMiddle(before, table, tail, 4, 384);
    LastField(p, Zeros(8) + table + tail);
    assert packed + (Zeros(8) + table + tail) == c + rest;
    EndOfExtensions(before + table, p.cs - 504, rest);
    assert before + table + tail == c + rest;
    assert before + (BE(0x6803F857, 4) + BE(|records| * 48, 4)) + Flatten(records) + tail == c + rest;
    RecordsNamed(before + (BE(0x6803F857, 4) + BE(|records| * 48, 4)), tail);
  }

  lemma {:induction false} RecordsNamed(before: bytes, tail: bytes)
    requires |before| == 120
    ensures forall k :: 0 <= k < 8 ==> NamedAt(before + Flatten(FeatureRecords()) + tail, k)
  {
    hide FeatureRecord, Flatten, RecordIs;
    var records := FeatureRecords();
    ConcatSize(records, 48);
    forall k | 0 <= k < 8 ensures NamedAt(before + Flatten(records) + tail, k) {
      NamesAreAscii(k);
      RecordNames(FEATURES[k]);
      ConcatAt(records, k);
      SliceOfMiddle(before, Flatten(records), tail, 48 * k, 48 * k + 48);
    }
  }

  lemma {:induction false} LastField(p: Plan, rest: bytes)
    requires p.cs > 0 && p.rb > 0
    ensures |Packed(HeaderFields(p))| == 104 && Field(Packed(HeaderFields(p)) + rest, 100, 4) == 112
  {
    hide FromBE, BE;
    HeaderFieldOffsets(p);
    Pow256Values();
    UnpackField(HeaderFields(p), 17);
    var packed := Packed(HeaderFields(p));
    assert (packed + rest)[100..104] == packed[100..104];
  }

  lemma {:induction false} EndOfExtensions(before: bytes, zeros: nat, rest: bytes)
    requires |before| == 504 && zeros >= 8
    ensures Field(before + (Zeros(zeros) + rest), 504, 4) == 0
  {
    hide FromBE;
    BEofZero(4);
    Pow256Values();
    FromBEofBE(0, 4);
    assert (before + (Zeros(zeros) + rest))[504..508] == Zeros(4);
  }
}
