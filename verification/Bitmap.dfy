/** The packed bitmaps of the image writer (scripts/qcow2-convert.py:29-40). */
module Bitmap {
  import opened Bytes
  import opened Arithmetic

  /** (b & (1 << k)) != 0 */
  predicate BitOf(b: nat, k: nat)
  {
    if k == 0 then b % 2 == 1 else BitOf(b / 2, k - 1)
  }

  /** b | (1 << k), digit by binary digit. */
  function OrBit(b: nat, k: nat): (r: nat)
    ensures BitOf(r, k)
  {
    if k == 0 then (if b % 2 == 1 then b else b + 1) else 2 * OrBit(b / 2, k - 1) + b % 2
  }

  lemma {:induction false} OrBitKeepsOthers(b: nat, k: nat, m: nat)
    requires m != k
    ensures BitOf(OrBit(b, k), m) == BitOf(b, m)
  {
    if k > 0 && m > 0 {
      OrBitKeepsOthers(b / 2, k - 1, m - 1);
    }
  }

  lemma {:induction false} OrBitFits(b: nat, k: nat, n: nat)
    requires b < Pow2(n) && k < n
    ensures OrBit(b, k) < Pow2(n)
  {
    hide BitOf;
    var half := Pow2(n - 1);
    assert Pow2(n) == 2 * half;
    if k == 0 {
      EvenBelow(b, half);
    } else {
      assert b / 2 < half;
      OrBitFits(b / 2, k - 1, n - 1);
      assert OrBit(b, k) == 2 * OrBit(b / 2, k - 1) + b % 2;
    }
  }

  lemma {:induction false} EvenBelow(b: nat, half: nat)
    requires b < 2 * half
    ensures b % 2 == 0 ==> b + 1 < 2 * half
  {
  }

  predicate BitAt(bm: bytes, i: nat)
    requires i < 8 * |bm|
  {
    BitOf(bm[i / 8], i % 8)
  }

  /** The set a bitmap stands for. */
  function SetBits(bm: bytes): set<nat> {
    set i: nat | i < 8 * |bm| && BitAt(bm, i)
  }

  lemma {:induction false} ClearBitmap(bm: bytes)
    requires forall i :: 0 <= i < |bm| ==> bm[i] == 0
    ensures SetBits(bm) == {}
  {
    forall i: nat | i < 8 * |bm| ensures !BitAt(bm, i) { ClearByte(i % 8); }
  }

  lemma {:induction false} ClearByte(k: nat)
    ensures !BitOf(0, k)
  {
    if k > 0 { ClearByte(k - 1); }
  }

  method BitmapSet(bitmap: array<byte>, idx: nat)
    requires idx < 8 * bitmap.Length
    modifies bitmap
    ensures SetBits(bitmap[..]) == old(SetBits(bitmap[..])) + {idx}
  {
    var b := bitmap[idx / 8];
    assert Pow2(8) == 256;
    OrBitFits(b, idx % 8, 8);
    forall m | m != idx % 8 ensures BitOf(OrBit(b, idx % 8), m) == BitOf(b, m) {
      OrBitKeepsOthers(b, idx % 8, m);
    }
    bitmap[idx / 8] := OrBit(b, idx % 8);
    forall i: nat | i < 8 * bitmap.Length
      ensures BitAt(bitmap[..], i) == (i == idx || old(BitAt(bitmap[..], i)))
    {
      if i / 8 == idx / 8 && i % 8 == idx % 8 {
        assert i == i / 8 * 8 + i % 8;
      }
    }
  }

  predicate BitmapIsSet(bm: bytes, idx: nat)
    requires idx < 8 * |bm|
  {
    BitAt(bm, idx)
  }

  /** The bits of bm are the members of s. */
  predicate Represents(bm: bytes, s: set<nat>) {
    forall i: nat {:trigger BitmapIsSet(bm, i)} :: i < 8 * |bm| ==> BitmapIsSet(bm, i) == (i in s)
  }

  lemma {:induction false} SetBitsRepresented(bm: bytes)
    ensures Represents(bm, SetBits(bm))
  {
  }

  // ----- order inside a set

  /** The members below n, in increasing order: what bitmap_iterator yields. */
  function Below(s: set<nat>, n: nat): (r: seq<nat>) {
    if n == 0 then [] else Below(s, n - 1) + (if n - 1 in s then [n - 1] else [])
  }

  /** How many members lie below n. */
  function Rank(s: set<nat>, n: nat): nat {
    |Below(s, n)|
  }

  lemma {:induction false} RankMono(s: set<nat>, m: nat, n: nat)
    requires m <= n
    ensures Rank(s, m) <= Rank(s, n) <= Rank(s, m) + n - m
    ensures Below(s, n)[..Rank(s, m)] == Below(s, m)
  {
    if m < n {
      RankMono(s, m, n - 1);
    }
  }

  /** A member's rank is its position in the iteration. */
  lemma {:induction false} RankSelects(s: set<nat>, i: nat, n: nat)
    requires i < n && i in s
    ensures Rank(s, i) < Rank(s, n) && Below(s, n)[Rank(s, i)] == i
  {
    RankMono(s, i + 1, n);
    assert Below(s, i + 1) == Below(s, i) + [i];
    assert Below(s, n)[Rank(s, i)] == Below(s, n)[..Rank(s, i + 1)][Rank(s, i)];
  }

  lemma {:induction false} RankOfClearRange(s: set<nat>, m: nat, n: nat)
    requires m <= n && forall j :: m <= j < n ==> j !in s
    ensures Rank(s, n) == Rank(s, m)
  {
    if m < n {
      RankOfClearRange(s, m, n - 1);
    }
  }

  lemma {:induction false} RankAfterAdd(s: set<nat>, idx: nat, n: nat)
    requires idx !in s
    ensures Rank(s + {idx}, n) == Rank(s, n) + (if idx < n then 1 else 0)
  {
    if n > 0 {
      RankAfterAdd(s, idx, n - 1);
    }
  }

  predicate BoundedBy(s: set<nat>, n: nat) {
    forall i :: i in s ==> i < n
  }

  lemma {:induction false} RankBounded(s: set<nat>, n: nat, m: nat)
    requires BoundedBy(s, n)
    ensures Rank(s, m) <= Rank(s, n)
  {
    if m <= n {
      RankMono(s, m, n);
    } else {
      RankOfClearRange(s, n, m);
    }
  }
}
