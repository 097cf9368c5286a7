/** What the CRC-32 computes (UEFI Specification, section 5.3.1, after ISO 3309): a remainder of polynomials over GF(2),
    with no register and no shifts (kernel/src/gpt_boot_patch.rs:17-33). */
module CrcPolynomial {
  import opened Bytes
  import opened Arithmetic
  import opened Crc32

  // ----- polynomials

  /** The coefficients of a polynomial over GF(2), of the highest power first. */
  type Poly = seq<bool>

  /** The powers in the generator. */
  const EXPONENTS: set<nat> := {32, 26, 23, 22, 16, 12, 11, 10, 8, 7, 5, 4, 2, 1, 0}

  function Generator(): (g: Poly)
    ensures |g| == 33 && forall i :: 0 <= i < 33 ==> g[i] == (32 - i in EXPONENTS)
  {
    seq(33, i requires 0 <= i < 33 => 32 - i in EXPONENTS)
  }

  function Add(p: Poly, q: Poly): (r: Poly)
    requires |p| == |q|
    ensures |r| == |p| && forall i :: 0 <= i < |p| ==> r[i] == (p[i] != q[i])
  {
    seq(|p|, i requires 0 <= i < |p| => p[i] != q[i])
  }

  function Nothing(n: nat): (p: Poly)
    ensures |p| == n && forall i :: 0 <= i < n ==> !p[i]
  {
    seq(n, _ => false)
  }

  function Complement(p: Poly): (q: Poly)
    ensures |q| == |p| && forall i :: 0 <= i < |p| ==> q[i] == !p[i]
  {
    seq(|p|, i requires 0 <= i < |p| => !p[i])
  }

  /** One step of a division: the generator is subtracted below the highest power, which is then gone. */
  function Reduce(p: Poly): (r: Poly)
    requires |p| > 32
    ensures |r| == |p| - 1
  {
    (if p[0] then Add(p[..33], Generator())[1..] else p[1..33]) + p[33..]
  }

  /** The remainder of division by the generator: what is left when no power is above 31. */
  function Remainder(p: Poly): (r: Poly)
    requires |p| >= 32
    ensures |r| == 32
    decreases |p|
  {
    if |p| == 32 then p else Remainder(Reduce(p))
  }

  // ----- bytes and numbers as polynomials

  /** The k low bits of n, the least significant first. */
  function LowFirst(n: nat, k: nat): (p: Poly)
    ensures |p| == k
  {
    if k == 0 then [] else [n % 2 == 1] + LowFirst(n / 2, k - 1)
  }

  /** The number whose bits these are. */
  function Number(p: Poly): nat {
    if p == [] then 0 else (if p[0] then 1 else 0) + 2 * Number(p[1..])
  }

  /** The message: the first byte has the highest powers, and in each byte the least significant bit. */
  function Message(data: bytes): (p: Poly)
    ensures |p| == 8 * |data|
  {
    if data == [] then [] else LowFirst(data[0], 8) + Message(data[1..])
  }

  /** CRC-32: the message times x^32, with its first 32 coefficients complemented, modulo the generator; the complement
      of that remainder, read with the coefficient of x^31 as the least significant bit. */
  function Checksum(data: bytes): nat {
    var p := Message(data) + Nothing(32);
    Number(Complement(Remainder(Complement(p[..32]) + p[32..])))
  }

  // ----- the bits of a number

  lemma {:induction false} LowXor(a: nat, b: nat, k: nat)
    ensures LowFirst(XorBits(a, b), k) == Add(LowFirst(a, k), LowFirst(b, k))
    decreases k
  {
    hide XorBits;
    if k > 0 {
      XorParts(a, b);
      LowXor(a / 2, b / 2, k - 1);
    }
  }

  lemma {:induction false} LowPad(n: nat, k: nat, j: nat)
    requires n < Pow2(k)
    ensures LowFirst(n, k + j) == LowFirst(n, k) + Nothing(j)
    decreases k + j
  {
    if k > 0 {
      LowPad(n / 2, k - 1, j);
    } else if j > 0 {
      LowPad(0, 0, j - 1);
    }
  }

  lemma {:induction false} NumberOfLow(n: nat, k: nat)
    requires n < Pow2(k)
    ensures Number(LowFirst(n, k)) == n
    decreases k
  {
    if k > 0 {
      NumberOfLow(n / 2, k - 1);
      assert LowFirst(n, k)[1..] == LowFirst(n / 2, k - 1);
    }
  }

  lemma {:induction false} LowComplement(n: nat, k: nat)
    requires n < Pow2(k)
    ensures LowFirst(Pow2(k) - 1 - n, k) == Complement(LowFirst(n, k))
    decreases k
  {
    if k > 0 {
      var m := Pow2(k) - 1 - n;
      assert m / 2 == Pow2(k - 1) - 1 - n / 2 && m % 2 == 1 - n % 2;
      LowComplement(n / 2, k - 1);
    }
  }

  /** Halving drops the coefficient of x^31 and appends that of x^0. */
  lemma {:induction false} LowHalf(n: u32)
    ensures LowFirst(n / 2, 32) == LowFirst(n, 32)[1..] + [false]
  {
    Pow2Of32();
    LowPad(n, 32, 1);
    assert LowFirst(n, 33)[1..] == LowFirst(n / 2, 32);
    assert (LowFirst(n, 32) + Nothing(1))[1..] == LowFirst(n, 32)[1..] + [false];
  }

  lemma {:induction false} LowStep(n: nat, k: nat)
    ensures LowFirst(n, k + 1) == [n % 2 == 1] + LowFirst(n / 2, k)
  {
  }

  /** Four bits at once. */
  lemma {:induction false} LowNibble(n: nat, k: nat)
    ensures LowFirst(n, k + 4) == [n % 2 == 1, n / 2 % 2 == 1, n / 4 % 2 == 1, n / 8 % 2 == 1] + LowFirst(n / 16, k)
  {
    hide LowFirst;
    LowStep(n, k + 3);
    LowStep(n / 2, k + 2);
    assert n / 2 / 2 == n / 4;
    LowStep(n / 4, k + 1);
    assert n / 4 / 2 == n / 8;
    LowStep(n / 8, k);
    assert n / 8 / 2 == n / 16;
  }

  lemma {:induction false} GeneratorHigh()
    ensures LowFirst(0xEDB8, 16) == Generator()[17..]
  {
    hide LowFirst;
    LowNibble(0xEDB8, 12);
    LowNibble(0xEDB, 8);
    LowNibble(0xED, 4);
    LowNibble(0xE, 0);
  }

  /** The polynomial of the shift is the generator's, without its highest power. */
  lemma {:induction false} GeneratorLow()
    ensures LowFirst(POLYNOMIAL, 32) == Generator()[1..]
  {
    hide LowFirst;
    GeneratorHigh();
    LowNibble(0xEDB8_8320, 28);
    LowNibble(0xEDB_8832, 24);
    LowNibble(0xED_B883, 20);
    LowNibble(0xE_DB88, 16);
  }

  // ----- the register divides

  /** What is left to divide when the register stands before the bits q of the message. */
  function Dividend(crc: u32, q: Poly): (p: Poly)
    requires |q| >= 32
    ensures |p| == |q|
  {
    Add(LowFirst(crc, 32), q[..32]) + q[32..]
  }

  /** A shift of the register is one step of the division. */
  lemma {:induction false} ShiftReduces(crc: u32, q: Poly)
    requires |q| >= 32
    ensures Reduce(Dividend(crc, [false] + q)) == Dividend(Shift(crc), q)
  {
    hide LowFirst, XorBits;
    GeneratorLow();
    LowHalf(crc);
    LowBit(crc);
    LowXor(crc / 2, POLYNOMIAL, 32);
    var p := Dividend(crc, [false] + q);
    var half := LowFirst(crc / 2, 32);
    assert |p| == |q| + 1 && p[33..] == q[32..];
    forall i | 0 <= i < 32 ensures p[1..33][i] == (half[i] != q[i]) {
      assert p[1..33][i] == p[i + 1];
    }
    assert p[1..33] == Add(half, q[..32]);
    if crc % 2 == 1 {
      assert Add(p[..33], Generator())[1..] == Add(p[1..33], Generator()[1..]);
    }
  }

  lemma {:induction false} LowBit(n: nat)
    ensures LowFirst(n, 32)[0] == (n % 2 == 1)
  {
  }

  lemma {:induction false} ShiftsDivide(crc: u32, n: nat, q: Poly)
    requires |q| >= 32
    ensures Remainder(Dividend(crc, Nothing(n) + q)) == Remainder(Dividend(Shifts(crc, n), q))
    decreases n
  {
    hide Shift, Reduce, Dividend;
    if n == 0 {
      assert Nothing(0) + q == q;
    } else {
      assert Nothing(n) + q == Nothing(n - 1) + ([false] + q);
      ShiftsDivide(crc, n - 1, [false] + q);
      ShiftReduces(Shifts(crc, n - 1), q);
    }
  }

  lemma {:induction false} ByteDivides(crc: u32, b: byte, q: Poly)
    requires |q| >= 32
    ensures Remainder(Dividend(crc, LowFirst(b, 8) + q)) == Remainder(Dividend(OneByte(crc, b), q))
  {
    hide LowFirst, XorBits, Remainder, Shifts;
    LowXor(crc, b, 32);
    assert Pow2(8) == 0x100;
    LowPad(b, 8, 24);
    assert Dividend(crc, LowFirst(b, 8) + q) == Dividend(Xor(crc, b), Nothing(8) + q);
    ShiftsDivide(Xor(crc, b), 8, q);
  }

  lemma {:induction false} UpdateDivides(crc: u32, data: bytes, q: Poly)
    requires |q| >= 32
    ensures Remainder(Dividend(crc, Message(data) + q)) == Remainder(Dividend(Update(crc, data), q))
    decreases data
  {
    hide LowFirst, OneByte, Remainder, Dividend;
    if data == [] {
      assert [] + q == q;
    } else {
      var first, rest := data[0], data[1..];
      assert Message(data) + q == LowFirst(first, 8) + (Message(rest) + q);
      ByteDivides(crc, first, Message(rest) + q);
      UpdateDivides(OneByte(crc, first), rest, q);
      assert data == [first] + rest;
      UpdateConcat(crc, [first], rest);
      assert Update(crc, [first]) == OneByte(crc, first) by {
        assert [first][..0] == [];
      }
    }
  }

  lemma {:induction false} AllOnes(p: Poly)
    requires |p| >= 32
    ensures Dividend(INITIAL, p) == Complement(p[..32]) + p[32..]
  {
    hide LowFirst;
    Pow2Of32();
    LowComplement(0, 32);
    LowPad(0, 0, 32);
    assert LowFirst(INITIAL, 32) == Complement(Nothing(32));
  }

  /** The register computes the CRC-32 of every block. */
  lemma {:induction false} CrcIsChecksum(data: bytes)
    ensures Crc(data) == Checksum(data)
  {
    hide LowFirst, Update, Message;
    var p, crc := Message(data) + Nothing(32), Update(INITIAL, data);
    AllOnes(p);
    UpdateDivides(INITIAL, data, Nothing(32));
    Pow2Of32();
    assert Dividend(crc, Nothing(32)) == LowFirst(crc, 32);
    LowComplement(crc, 32);
    NumberOfLow(Finish(crc), 32);
  }
}
