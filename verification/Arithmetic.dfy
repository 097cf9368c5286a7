/** Ceilings, powers of two and the few facts about products that the layouts need. */
module Arithmetic {

  /** math.ceil(a / d) on integers: the least q with q * d >= a. */
  function CeilDiv(a: nat, d: nat): (q: nat)
    requires d > 0
    ensures q * d >= a && (q > 0 ==> (q - 1) * d < a)
  {
    assert (a + d - 1) / d * d + (a + d - 1) % d == a + d - 1;
    (a + d - 1) / d
  }

  function AlignUp(num: nat, d: nat): (r: nat)
    requires d > 0
    ensures num <= r < num + d && r % d == 0
  {
    ModOfProduct(CeilDiv(num, d), d);
    d * CeilDiv(num, d)
  }

  function Min(a: nat, b: nat): nat { if a <= b then a else b }

  function Pow2(k: nat): (p: nat)
    ensures p >= 1
  {
    if k == 0 then 1 else 2 * Pow2(k - 1)
  }

  /** int(math.log2(n)), exact on powers of two. */
  function Log2(n: nat): nat
    requires n >= 1
  {
    if n == 1 then 0 else 1 + Log2(n / 2)
  }

  lemma {:induction false} Log2OfPow2(k: nat)
    ensures Log2(Pow2(k)) == k
  {
    if k > 0 {
      Log2OfPow2(k - 1);
      assert Pow2(k) / 2 == Pow2(k - 1);
    }
  }

  lemma {:induction false} ModOfProduct(q: nat, d: nat)
    requires d > 0
    ensures (d * q) % d == 0 && (q * d) % d == 0
  {
    DivModUnique(q, 0, d);
  }

  /** Index t * d + j of a table of rows of d cells is cell j of row t. */
  lemma {:induction false} DivModUnique(t: nat, j: nat, d: nat)
    requires j < d
    ensures (t * d + j) / d == t && (t * d + j) % d == j
  {
    var n := t * d + j;
    var q := n / d;
    assert n == q * d + n % d;
    assert (q + 1) * d == q * d + d && (t + 1) * d == t * d + d;
    if q < t {
      MulMono(q + 1, t, d);
    } else if q > t {
      MulMono(t + 1, q, d);
    }
  }

  lemma {:induction false} MulMono(a: nat, b: nat, d: nat)
    requires a <= b
    ensures a * d <= b * d
  {
  }

  lemma {:induction false} MulStrict(a: nat, b: nat, d: nat)
    requires a < b && d > 0
    ensures a * d < b * d && a * d + d <= b * d
  {
    MulMono(a + 1, b, d);
    assert (a + 1) * d == a * d + d;
  }

  lemma {:induction false} CeilDivMono(a: nat, b: nat, d: nat)
    requires a <= b && d > 0
    ensures CeilDiv(a, d) <= CeilDiv(b, d)
  {
    if CeilDiv(a, d) > CeilDiv(b, d) {
      MulMono(CeilDiv(b, d), CeilDiv(a, d) - 1, d);
    }
  }

  /** CeilDiv is the least quotient: any q whose q * d covers a is at least it. */
  lemma {:induction false} CeilDivLeast(a: nat, d: nat, q: nat)
    requires d > 0 && q * d >= a
    ensures CeilDiv(a, d) <= q
  {
    if CeilDiv(a, d) > q {
      MulMono(q, CeilDiv(a, d) - 1, d);
    }
  }

  lemma {:induction false} DivNonNeg(n: nat, d: nat)
    requires d > 0
    ensures n / d >= 0 && n == n / d * d + n % d
  {
  }

  lemma {:induction false} DivBelow(n: nat, d: nat, rows: nat)
    requires d > 0 && n < rows * d
    ensures n / d < rows
  {
    assert n == n / d * d + n % d;
    if n / d >= rows {
      MulMono(rows, n / d, d);
    }
  }

  lemma {:induction false} DivMono(a: nat, b: nat, d: nat)
    requires d > 0 && a <= b
    ensures a / d <= b / d
  {
    assert a == a / d * d + a % d && b == b / d * d + b % d;
    if a / d > b / d {
      MulStrict(b / d, a / d, d);
    }
  }

  /** Where item idx starts in a run of items of one size: idx * size, by repeated addition. */
  function At(idx: nat, size: nat): nat {
    if idx == 0 then 0 else At(idx - 1, size) + size
  }

  lemma {:induction false} AtIs(idx: nat, size: nat)
    ensures At(idx, size) == idx * size
  {
    if idx > 0 {
      AtIs(idx - 1, size);
      assert (idx - 1) * size + size == idx * size;
    }
  }

  lemma {:induction false} AtAdd(a: nat, b: nat, size: nat)
    ensures At(a + b, size) == At(a, size) + At(b, size)
  {
    if b > 0 {
      AtAdd(a, b - 1, size);
    }
  }

  lemma {:induction false} AtMono(a: nat, b: nat, size: nat)
    requires a <= b
    ensures At(a, size) <= At(b, size)
    ensures a < b ==> At(a, size) + size <= At(b, size)
  {
    AtAdd(a, b - a, size);
  }

  /** Index At(t, d) + j of a table of rows of d cells is cell j of row t. */
  lemma {:induction false} AtDivMod(t: nat, j: nat, d: nat)
    requires j < d
    ensures (At(t, d) + j) / d == t && (At(t, d) + j) % d == j
  {
    AtIs(t, d);
    DivModUnique(t, j, d);
  }

  // ----- 32-bit counters

  const U32 := 0x1_0000_0000

  /** wrapping_add */
  function Add32(a: nat, b: nat): (r: nat)
    ensures r < U32
  {
    (a + b) % U32
  }

  lemma {:induction false} Add32Twice(a: nat, b: nat, c: nat)
    ensures Add32(Add32(a, b), c) == Add32(a, b + c)
    ensures a < U32 ==> Add32(a, 0) == a
  {
    assert a + b == (a + b) / U32 * U32 + Add32(a, b);
  }
}
