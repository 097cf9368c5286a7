/** The Internet checksum (kernel/src/net.rs:2028-2040; RFC 1071 section 1). */
module InternetChecksum {
  import opened Bytes

  const U32 := 0x1_0000_0000

  /** The big-endian 16-bit words of the data, added up; an odd last byte counts as a high byte. */
  function WordSum(data: bytes): (s: nat)
    ensures s <= (|data| + 1) / 2 * 0xffff
    decreases |data|
  {
    if |data| == 0 then 0
    else if |data| == 1 then data[0] * 256
    else data[0] * 256 + data[1] + WordSum(data[2..])
  }

  /** The end-around carry, until 16 bits are left. */
  function Fold(sum: nat): (r: nat)
    ensures r <= 0xffff
  {
    if sum / 0x1_0000 == 0 then sum else Fold(sum % 0x1_0000 + sum / 0x1_0000)
  }

  /** In one's complement, 0 and 0xffff are the two zeros: folding keeps the remainder modulo 0xffff and
      tells the zeros apart. */
  lemma {:induction false} FoldMeaning(sum: nat)
    ensures Fold(sum) % 0xffff == sum % 0xffff && (Fold(sum) == 0 <==> sum == 0)
    decreases sum
  {
    if sum / 0x1_0000 != 0 {
      var next := sum % 0x1_0000 + sum / 0x1_0000;
      FoldMeaning(next);
      CarryAround(sum / 0x1_0000, sum % 0x1_0000);
    }
  }

  lemma {:induction false} CarryAround(hi: nat, lo: nat)
    ensures (hi * 0x1_0000 + lo) % 0xffff == (hi + lo) % 0xffff
  {
    assert hi * 0x1_0000 + lo == hi * 0xffff + (hi + lo);
  }

  function Sum16(data: bytes, sum: nat): (r: nat)
    ensures r <= 0xffff
  {
    0xffff - Fold(sum + WordSum(data))
  }

  /** sum16: no addition leaves 32 bits. */
  method Sum16Of(data0: bytes, sum0: nat) returns (r: nat)
    requires sum0 + WordSum(data0) < U32
    ensures r == Sum16(data0, sum0)
  {
    var data := data0;
    var sum: nat := sum0;
    while |data| >= 2
      invariant sum + WordSum(data) == sum0 + WordSum(data0) < U32
      decreases |data|
    {
      var hi: nat, lo: nat := data[0], data[1];
      sum := sum + (hi * 256 + lo);
      data := data[2..];
    }
    if |data| > 0 {
      var hi: nat := data[0];
      sum := sum + hi * 256;
    }
    while sum / 0x1_0000 != 0
      invariant Fold(sum) == Fold(sum0 + WordSum(data0)) && sum < U32
      decreases sum
    {
      sum := sum % 0x1_0000 + sum / 0x1_0000;
    }
    r := 0xffff - sum;
  }

  lemma {:induction false} WordSumConcat(a: bytes, b: bytes)
    requires |a| % 2 == 0
    ensures WordSum(a + b) == WordSum(a) + WordSum(b)
    decreases |a|
  {
    if |a| == 0 {
      assert a + b == b;
    } else {
      assert (a + b)[2..] == a[2..] + b;
      WordSumConcat(a[2..], b);
    }
  }

  lemma {:induction false} WordSumOfWord(v: nat)
    requires v < 0x1_0000
    ensures WordSum(BE(v, 2)) == v
  {
    var s := BE(v, 2);
    assert BE(v / 256, 1) == [v / 256] by { assert BE(v / 256 / 256, 0) == []; }
    assert s == [v / 256, v % 256];
    assert s[2..] == [];
    assert WordSum(s) == s[0] * 256 + s[1] + WordSum(s[2..]);
  }

  /** The data with a word put in place at an even offset. */
  function WithWord(data: bytes, at: nat, v: nat): (s: bytes)
    requires at + 2 <= |data|
    ensures |s| == |data|
  {
    data[..at] + BE(v, 2) + data[at + 2..]
  }

  lemma {:induction false} WordSumWith(data: bytes, at: nat, v: nat)
    requires at + 2 <= |data| && at % 2 == 0 && v < 0x1_0000
    ensures WordSum(WithWord(data, at, v)) == WordSum(WithWord(data, at, 0)) + v
  {
    hide BE;
    WordSumConcat(data[..at] + BE(v, 2), data[at + 2..]);
    WordSumConcat(data[..at], BE(v, 2));
    WordSumOfWord(v);
    WordSumConcat(data[..at] + BE(0, 2), data[at + 2..]);
    WordSumConcat(data[..at], BE(0, 2));
    WordSumOfWord(0);
  }

  /** A block whose checksum was computed over a zero field re-sums to zero once it is filled in. */
  lemma {:induction false} Resums(data: bytes, at: nat, sum: nat)
    requires at + 2 <= |data| && at % 2 == 0
    ensures Sum16(WithWord(data, at, Sum16(WithWord(data, at, 0), sum)), sum) == 0
  {
    hide WordSum, Fold;
    var s := sum + WordSum(WithWord(data, at, 0));
    var c := 0xffff - Fold(s);
    FoldMeaning(s);
    WordSumWith(data, at, c);
    FoldMeaning(s + c);
    ResumsTo(s, c, Fold(s), Fold(s + c));
  }

  lemma {:induction false} ResumsTo(s: nat, c: nat, f: nat, g: nat)
    requires f <= 0xffff && g <= 0xffff && c == 0xffff - f
    requires f % 0xffff == s % 0xffff && (f == 0 <==> s == 0)
    requires g % 0xffff == (s + c) % 0xffff && (g == 0 <==> s + c == 0)
    ensures g == 0xffff
  {
    assert (s + c) % 0xffff == (f + c) % 0xffff;
  }

  /** The checksum notices a change of any single byte. */
  lemma {:induction false} NoticesOneByte(data: bytes, k: nat, v: byte, sum: nat)
    requires k < |data| && Sum16(data, sum) == 0 && data[k] != v
    ensures Sum16(data[k := v], sum) != 0
  {
    hide WordSum, Fold;
    OneByteSum(data, k, v);
    FoldMeaning(sum + WordSum(data));
    FoldMeaning(sum + WordSum(data[k := v]));
    OneByteMod(sum + WordSum(data), sum + WordSum(data[k := v]), v - data[k], if k % 2 == 0 then 256 else 1);
  }

  lemma {:induction false} OneByteMod(s: nat, t: nat, d: int, e: int)
    requires (e == 256 || e == 1) && -256 < d < 256 && d != 0 && t == s + d * e && s % 0xffff == 0
    ensures t % 0xffff != 0
  {
    if e == 1 {
      assert t == s + d;
    } else {
      assert t == s + 256 * d;
    }
  }

  lemma {:induction false} OneByteSum(data: bytes, k: nat, v: byte)
    requires k < |data|
    ensures WordSum(data[k := v]) == WordSum(data) + (v - data[k]) * (if k % 2 == 0 then 256 else 1)
    decreases |data|
  {
    if k >= 2 {
      assert data[k := v][2..] == data[2..][k - 2 := v];
      OneByteSum(data[2..], k - 2, v);
    } else if |data| >= 2 {
      assert data[k := v][2..] == data[2..];
    }
  }
}
