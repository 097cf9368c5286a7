/** The residue of the CRC-32: a block with its checksum behind it leaves the same register whatever the block
    (kernel/src/gpt_boot_patch.rs:17-33). The one register that is computed here is a machine word. */
module CrcResidue {
  import opened Bytes
  import opened Arithmetic
  import opened Crc32
  import opened CrcPolynomial

  // ----- words as polynomials

  predicate Low(v: bv32) {
    v & 1 == 1
  }

  function Half(v: bv32): bv32 {
    v >> 1
  }

  function Sixteenth(v: bv32): bv32 {
    v >> 4
  }

  function WordXor(v: bv32, w: bv32): bv32 {
    v ^ w
  }

  /** The k low bits of a 32-bit word, the least significant first. */
  function Bits(v: bv32, k: nat): (p: Poly)
    ensures |p| == k
  {
    if k == 0 then [] else [Low(v)] + Bits(Half(v), k - 1)
  }

  lemma {:induction false} XorHalves(v: bv32, w: bv32)
    ensures Half(WordXor(v, w)) == WordXor(Half(v), Half(w)) && Low(WordXor(v, w)) == (Low(v) != Low(w))
  {
  }

  lemma {:induction false} BitsXor(v: bv32, w: bv32, k: nat)
    ensures Bits(WordXor(v, w), k) == Add(Bits(v, k), Bits(w, k))
    decreases k
  {
    hide Low, Half, WordXor;
    if k > 0 {
      XorHalves(v, w);
      BitsXor(Half(v), Half(w), k - 1);
    }
  }

  lemma {:induction false} FourHalves(v: bv32)
    ensures Half(Half(Half(Half(v)))) == Sixteenth(v)
  {
  }

  lemma {:induction false} BitsStep(v: bv32, k: nat)
    ensures Bits(v, k + 1) == [Low(v)] + Bits(Half(v), k)
  {
    hide Low, Half;
  }

  lemma {:induction false} BitsNibble(v: bv32, k: nat)
    ensures Bits(v, k + 4) == [Low(v), Low(Half(v)), Low(Half(Half(v))), Low(Half(Half(Half(v))))] + Bits(Sixteenth(v), k)
  {
    hide Low, Half, Sixteenth, Bits;
    FourHalves(v);
    BitsStep(v, k + 3);
    BitsStep(Half(v), k + 2);
    BitsStep(Half(Half(v)), k + 1);
    BitsStep(Half(Half(Half(v))), k);
  }

  function After(v: bv32, nibbles: nat): bv32
    decreases nibbles
  {
    if nibbles == 0 then v else After(Sixteenth(v), nibbles - 1)
  }

  lemma {:induction false} BitsAfter(v: bv32, n: nat, k: nat)
    ensures Bits(v, 4 * n + k) == Bits(v, 4 * n) + Bits(After(v, n), k)
    decreases n
  {
    hide Low, Half, Sixteenth, Bits;
    if n == 0 {
      assert Bits(v, 0) == [];
    } else {
      BitsNibble(v, 4 * (n - 1) + k);
      BitsNibble(v, 4 * (n - 1));
      BitsAfter(Sixteenth(v), n - 1, k);
    }
  }

  lemma {:induction false} EightNibbles(v: bv32)
    ensures var w := Sixteenth(Sixteenth(Sixteenth(Sixteenth(v)))); Sixteenth(Sixteenth(Sixteenth(Sixteenth(w)))) == 0
  {
  }

  lemma {:induction false} NothingAfter(v: bv32)
    ensures After(v, 8) == 0
  {
    hide Sixteenth;
    EightNibbles(v);
    var w := Sixteenth(Sixteenth(v));
    var x := Sixteenth(Sixteenth(w));
    var y := Sixteenth(Sixteenth(x));
    assert After(v, 8) == After(w, 6) == After(x, 4) == After(y, 2);
  }

  lemma {:induction false} BitsHalf(v: bv32)
    ensures Bits(Half(v), 32) == Bits(v, 32)[1..] + [false]
  {
    hide Half, After;
    NothingAfter(v);
    BitsAfter(v, 8, 1);
    BitsStep(v, 32);
    assert Bits(0, 1) == [false] by { BitsOfZero(); }
    assert Bits(v, 33)[1..] == Bits(Half(v), 32);
    assert (Bits(v, 32) + [false])[1..] == Bits(v, 32)[1..] + [false];
  }

  lemma {:induction false} BitsOfZero()
    ensures Bits(0, 1) == [false]
  {
  }

  /** What a step of the register makes of a word. */
  function Stepped(v: bv32): bv32 {
    if Low(v) then WordXor(Half(v), 0xEDB8_8320) else Half(v)
  }

  function SteppedBy(v: bv32, n: nat): bv32
    decreases n
  {
    if n == 0 then v else SteppedBy(Stepped(v), n - 1)
  }

  lemma {:induction false} WordOfGenerator()
    ensures Bits(0xEDB8_8320, 32) == Generator()[1..]
  {
    hide Bits;
    BitsNibble(0xEDB8_8320, 28);
    BitsNibble(0xEDB_8832, 24);
    BitsNibble(0xED_B883, 20);
    BitsNibble(0xE_DB88, 16);
    BitsNibble(0xEDB8, 12);
    BitsNibble(0xEDB, 8);
    BitsNibble(0xED, 4);
    BitsNibble(0xE, 0);
  }

  lemma {:induction false} BitsReduce(v: bv32, n: nat)
    ensures Reduce(Bits(v, 32) + Nothing(n + 1)) == Bits(Stepped(v), 32) + Nothing(n)
  {
    hide Bits, Low, Half, WordXor;
    WordOfGenerator();
    BitsHalf(v);
    BitsStep(v, 31);
    BitsXor(Half(v), 0xEDB8_8320, 32);
    var p := Bits(v, 32) + Nothing(n + 1);
    assert p[1..33] == Bits(Half(v), 32);
    assert p[33..] == Nothing(n);
    assert Add(p[..33], Generator())[1..] == Add(p[1..33], Generator()[1..]);
  }

  lemma {:induction false} BitsRemainder(v: bv32, n: nat)
    ensures Remainder(Bits(v, 32) + Nothing(n)) == Bits(SteppedBy(v, n), 32)
    decreases n
  {
    hide Bits, Stepped, Reduce;
    if n == 0 {
      assert Bits(v, 32) + Nothing(0) == Bits(v, 32);
    } else {
      BitsReduce(v, n - 1);
      BitsRemainder(Stepped(v), n - 1);
    }
  }

  function SteppedEight(v: bv32): bv32 {
    Stepped(Stepped(Stepped(Stepped(Stepped(Stepped(Stepped(Stepped(v))))))))
  }

  lemma {:induction false} EightSteps(v: bv32, n: nat)
    ensures SteppedBy(v, n + 8) == SteppedBy(SteppedEight(v), n)
  {
    hide Stepped;
    assert SteppedBy(v, n + 8) == SteppedBy(Stepped(Stepped(v)), n + 6);
    assert SteppedBy(v, n + 8) == SteppedBy(Stepped(Stepped(Stepped(Stepped(v)))), n + 4);
    assert SteppedBy(v, n + 8) == SteppedBy(Stepped(Stepped(Stepped(Stepped(Stepped(Stepped(v)))))), n + 2);
  }

  lemma {:induction false} LastRegister()
    ensures SteppedEight(SteppedEight(SteppedEight(SteppedEight(0xFFFF_FFFF)))) == 0xDEBB_20E3
  {
  }

  lemma {:induction false} AllSteps()
    ensures SteppedBy(0xFFFF_FFFF, 32) == 0xDEBB_20E3
  {
    hide SteppedEight, SteppedBy;
    var v: bv32 := 0xFFFF_FFFF;
    EightSteps(v, 24);
    EightSteps(SteppedEight(v), 16);
    EightSteps(SteppedEight(SteppedEight(v)), 8);
    EightSteps(SteppedEight(SteppedEight(SteppedEight(v))), 0);
    LastRegister();
    NoSteps(0xDEBB_20E3);
  }

  lemma {:induction false} NoSteps(v: bv32)
    ensures SteppedBy(v, 0) == v
  {
  }

  lemma {:induction false} AllOnesWord()
    ensures forall i :: 0 <= i < 32 ==> Bits(0xFFFF_FFFF, 32)[i]
  {
    hide Bits;
    BitsNibble(0xFFFF_FFFF, 28);
    BitsNibble(0xFFF_FFFF, 24);
    BitsNibble(0xFF_FFFF, 20);
    BitsNibble(0xF_FFFF, 16);
    BitsNibble(0xFFFF, 12);
    BitsNibble(0xFFF, 8);
    BitsNibble(0xFF, 4);
    BitsNibble(0xF, 0);
  }

  lemma {:induction false} ResidueHigh()
    ensures Bits(0xDEBB, 16) == LowFirst(0xDEBB, 16)
  {
    hide Bits, LowFirst;
    BitsNibble(0xDEBB, 12);
    LowNibble(0xDEBB, 12);
    BitsNibble(0xDEB, 8);
    LowNibble(0xDEB, 8);
    BitsNibble(0xDE, 4);
    LowNibble(0xDE, 4);
    BitsNibble(0xD, 0);
    LowNibble(0xD, 0);
    assert Bits(0, 0) == LowFirst(0, 0) == [];
  }

  lemma {:induction false} ResidueWord()
    ensures Bits(0xDEBB_20E3, 32) == LowFirst(0xDEBB_20E3, 32)
  {
    hide Bits, LowFirst;
    ResidueHigh();
    BitsNibble(0xDEBB_20E3, 28);
    LowNibble(0xDEBB_20E3, 28);
    BitsNibble(0xDEB_B20E, 24);
    LowNibble(0xDEB_B20E, 24);
    BitsNibble(0xDE_BB20, 20);
    LowNibble(0xDE_BB20, 20);
    BitsNibble(0xD_EBB2, 16);
    LowNibble(0xD_EBB2, 16);
  }

  lemma {:induction false} LowParts(low: nat, high: nat, j: nat, k: nat)
    requires low < Pow2(j)
    ensures LowFirst(low + Pow2(j) * high, j + k) == LowFirst(low, j) + LowFirst(high, k)
    decreases j
  {
    if j > 0 {
      var n, h := low + Pow2(j) * high, Pow2(j - 1) * high;
      assert Pow2(j) * high == 2 * h;
      assert n / 2 == low / 2 + h && n % 2 == low % 2;
      LowParts(low / 2, high, j - 1, k);
    } else {
      assert LowFirst(0, 0) + LowFirst(high, k) == LowFirst(high, k);
    }
  }

  /** Little-endian bytes are a number's bits, the least significant first. */
  lemma {:induction false} MessageOfLE(n: nat, k: nat)
    ensures Message(LE(n, k)) == LowFirst(n, 8 * k)
    decreases k
  {
    if k > 0 {
      assert Pow2(8) == 0x100;
      MessageOfLE(n / 256, k - 1);
      LowParts(n % 256, n / 256, 8, 8 * (k - 1));
      assert LE(n, k)[1..] == LE(n / 256, k - 1);
    }
  }

  lemma {:induction false} MessageConcat(a: bytes, b: bytes)
    ensures Message(a + b) == Message(a) + Message(b)
    decreases a
  {
    hide LowFirst;
    if a == [] {
      assert a + b == b;
    } else {
      assert (a + b)[0] == a[0] && (a + b)[1..] == a[1..] + b;
      MessageConcat(a[1..], b);
      var first := LowFirst(a[0], 8);
      assert Message(a + b) == first + Message(a[1..] + b);
      assert first + (Message(a[1..]) + Message(b)) == first + Message(a[1..]) + Message(b);
    }
  }

  /** A block followed by its own checksum, the least significant byte first, always leaves this in the register. */
  lemma {:induction false} Residue(data: bytes)
    ensures Update(INITIAL, data + LE(Crc(data), 4)) == 0xDEBB_20E3
  {
    hide LowFirst, Update, Message, Bits, LE, SteppedBy;
    var own, crc, end := LE(Crc(data), 4), Update(INITIAL, data), Update(INITIAL, data + LE(Crc(data), 4));
    Pow2Of32();
    MessageOfLE(Crc(data), 4);
    LowComplement(crc, 32);
    var q := Message(own) + Nothing(32);
    UpdateDivides(INITIAL, data, q);
    AllOnesWord();
    assert Dividend(crc, q) == Bits(0xFFFF_FFFF, 32) + Nothing(32);
    BitsRemainder(0xFFFF_FFFF, 32);
    AllSteps();
    ResidueWord();
    MessageConcat(data, own);
    assert Message(data) + q == Message(data + own) + Nothing(32);
    UpdateDivides(INITIAL, data + own, Nothing(32));
    assert Dividend(end, Nothing(32)) == LowFirst(end, 32);
    NumberOfLow(end, 32);
    NumberOfLow(0xDEBB_20E3, 32);
  }
}
