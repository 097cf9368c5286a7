/** Bytes, byte-string integers and small wrappers shared by every component. */
module Bytes {

  type byte = x: int | 0 <= x < 256

  datatype Option<+T> = None | Some(value: T)

  /** Read-only view of a Rust slice or a Python bytes object. */
  type bytes = seq<byte>

  function Zeros(n: nat): (s: bytes)
    ensures |s| == n && forall i :: 0 <= i < n ==> s[i] == 0
  {
    seq(n, _ => 0)
  }

  /** 256 to the power k: the number of values of a k-byte field. */
  function Pow256(k: nat): (p: nat)
    ensures p >= 1
  {
    if k == 0 then 1 else 256 * Pow256(k - 1)
  }

  lemma {:induction false} Pow256Values()
    ensures Pow256(1) == 0x100 && Pow256(2) == 0x1_0000 && Pow256(4) == 0x1_0000_0000
    ensures Pow256(8) == 0x1_0000_0000_0000_0000
  {
    assert Pow256(3) == 0x100_0000;
    assert Pow256(5) == 0x100_0000_0000;
    assert Pow256(6) == 0x1_0000_0000_0000;
    assert Pow256(7) == 0x100_0000_0000_0000;
  }

  /** The low k bytes of n, most significant first. */
  function BE(n: nat, k: nat): (s: bytes)
    ensures |s| == k
  {
    if k == 0 then [] else BE(n / 256, k - 1) + [n % 256]
  }

  function FromBE(s: bytes): (n: nat)
  {
    if |s| == 0 then 0 else FromBE(s[..|s| - 1]) * 256 + s[|s| - 1]
  }

  /** A field that is wide enough gives the number back. */
  lemma {:induction false} FromBEofBE(n: nat, k: nat)
    requires n < Pow256(k)
    ensures FromBE(BE(n, k)) == n
  {
    if k > 0 {
      FromBEofBE(n / 256, k - 1);
      assert BE(n, k)[..k - 1] == BE(n / 256, k - 1);
    }
  }

  lemma {:induction false} BEofZero(k: nat)
    ensures BE(0, k) == Zeros(k)
  {
    if k > 0 {
      BEofZero(k - 1);
    }
  }

  /** The low k bytes of n, least significant first. */
  function LE(n: nat, k: nat): (s: bytes)
    ensures |s| == k
  {
    if k == 0 then [] else [n % 256] + LE(n / 256, k - 1)
  }

  function FromLE(s: bytes): (n: nat)
  {
    if |s| == 0 then 0 else s[0] + 256 * FromLE(s[1..])
  }

  lemma {:induction false} FromLEofLE(n: nat, k: nat)
    requires n < Pow256(k)
    ensures FromLE(LE(n, k)) == n
  {
    if k > 0 {
      FromLEofLE(n / 256, k - 1);
      assert LE(n, k)[1..] == LE(n / 256, k - 1);
    }
  }

  lemma {:induction false} ByteAndRest(lo: byte, hi: nat)
    ensures (lo + 256 * hi) % 256 == lo && (lo + 256 * hi) / 256 == hi
  {
  }

  lemma {:induction false} LEofFromLE(s: bytes)
    ensures FromLE(s) < Pow256(|s|)
    ensures LE(FromLE(s), |s|) == s
  {
    if |s| > 0 {
      var hi := FromLE(s[1..]);
      LEofFromLE(s[1..]);
      ByteAndRest(s[0], hi);
      assert LE(FromLE(s), |s|) == [s[0]] + LE(hi, |s| - 1);
      assert s == [s[0]] + s[1..];
    }
  }

  lemma {:induction false} SliceOfSlice(s: bytes, i: nat, n: nat, a: nat, b: nat)
    requires i + n <= |s| && a <= b <= n
    ensures s[i..i + n][a..b] == s[i + a..i + b]
  {
    var t := s[i..i + n];
    forall k | 0 <= k < b - a ensures t[a..b][k] == s[i + a..i + b][k] {
      assert t[a + k] == s[i + (a + k)];
    }
  }

  // ----- texts

  function HexDigit(b: byte): (d: Option<nat>)
    ensures d.Some? ==> d.value < 16
  {
    if 48 <= b <= 57 then Some(b - 48)
    else if 97 <= b <= 102 then Some(b - 97 + 10)
    else if 65 <= b <= 70 then Some(b - 65 + 10)
    else None
  }

  function LowerCase(b: byte): byte {
    if 65 <= b <= 90 then b + 32 else b
  }

  /** A line, unless it is empty. */
  function NonEmpty(line: bytes): seq<bytes> {
    if line == [] then [] else [line]
  }

  function Concat(parts: seq<bytes>): bytes {
    if parts == [] then [] else parts[0] + Concat(parts[1..])
  }

  lemma {:induction false} ConcatAppend(a: seq<bytes>, b: seq<bytes>)
    ensures Concat(a + b) == Concat(a) + Concat(b)
    decreases a
  {
    if a == [] {
      assert a + b == b;
    } else {
      assert (a + b)[1..] == a[1..] + b;
      ConcatAppend(a[1..], b);
    }
  }

  // ----- writing into buffers

  /** The buffer with `part` copied over it at `base`. */
  function Splice(buf: bytes, base: nat, part: bytes): (s: bytes)
    requires base + |part| <= |buf|
    ensures |s| == |buf|
  {
    buf[..base] + part + buf[base + |part|..]
  }

  /** copy_from_slice */
  method CopyIn(buf: array<byte>, base: nat, s: bytes)
    requires base + |s| <= buf.Length
    modifies buf
    ensures buf[..] == Splice(old(buf[..]), base, s)
  {
    forall i | 0 <= i < |s| {
      buf[base + i] := s[i];
    }
  }
}
