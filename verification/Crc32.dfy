/** The streaming CRC-32 of the GPT patcher (kernel/src/gpt_boot_patch.rs:17-33). */
module Crc32 {
  import opened Bytes
  import opened Arithmetic

  type u32 = x: int | 0 <= x < 0x1_0000_0000

  const INITIAL: u32 := 0xFFFF_FFFF
  const POLYNOMIAL: u32 := 0xEDB8_8320

  // ----- exclusive or

  /** a ^ b, bit by bit. */
  function XorBits(a: nat, b: nat): nat
    decreases a + b
  {
    if a == 0 && b == 0 then 0 else 2 * XorBits(a / 2, b / 2) + if a % 2 != b % 2 then 1 else 0
  }

  lemma {:induction false} XorParts(a: nat, b: nat)
    ensures XorBits(a, b) % 2 == (if a % 2 != b % 2 then 1 else 0) && XorBits(a, b) / 2 == XorBits(a / 2, b / 2)
  {
  }

  lemma {:induction false} XorFits(a: nat, b: nat, k: nat)
    requires a < Pow2(k) && b < Pow2(k)
    ensures XorBits(a, b) < Pow2(k)
    decreases k
  {
    if k > 0 {
      XorFits(a / 2, b / 2, k - 1);
    }
  }

  lemma {:induction false} Pow2Of32()
    ensures Pow2(32) == 0x1_0000_0000
  {
    assert Pow2(8) == 0x100;
    assert Pow2(16) == 0x1_0000;
    assert Pow2(24) == 0x100_0000;
  }

  function Xor(a: u32, b: u32): u32 {
    Pow2Of32();
    XorFits(a, b, 32);
    XorBits(a, b)
  }

  // ----- the checksum

  /** One bit of the reflected polynomial division. */
  function Shift(crc: u32): u32 {
    if crc % 2 != 0 then Xor(crc / 2, POLYNOMIAL) else crc / 2
  }

  function Shifts(crc: u32, n: nat): u32 {
    if n == 0 then crc else Shift(Shifts(crc, n - 1))
  }

  function OneByte(crc: u32, b: byte): u32 {
    Shifts(Xor(crc, b), 8)
  }

  /** The register after the data, byte by byte. */
  function Update(crc: u32, data: bytes): u32
    decreases |data|
  {
    if data == [] then crc else OneByte(Update(crc, data[..|data| - 1]), data[|data| - 1])
  }

  /** All bits inverted. */
  function Finish(crc: u32): u32 {
    0xFFFF_FFFF - crc
  }

  /** The CRC-32 of a block. */
  function Crc(data: bytes): u32 {
    Finish(Update(INITIAL, data))
  }

  /** Streaming: the CRC of a concatenation can be computed part by part. */
  lemma {:induction false} UpdateConcat(crc: u32, a: bytes, b: bytes)
    ensures Update(crc, a + b) == Update(Update(crc, a), b)
    decreases |b|
  {
    hide OneByte;
    if b == [] {
      assert a + b == a;
    } else {
      assert (a + b)[..|a + b| - 1] == a + b[..|b| - 1];
      UpdateConcat(crc, a, b[..|b| - 1]);
    }
  }

  method Crc32Update(crc0: u32, data: bytes) returns (crc: u32)
    ensures crc == Update(crc0, data)
  {
    hide OneByte;
    crc := crc0;
    for i := 0 to |data|
      invariant crc == Update(crc0, data[..i])
    {
      assert data[..i + 1][..i] == data[..i];
      crc := ByteStep(crc, data[i]);
    }
    assert data[..|data|] == data;
  }

  /** The inner loop, over the bits of a byte. */
  method ByteStep(crc0: u32, b: byte) returns (crc: u32)
    ensures crc == OneByte(crc0, b)
  {
    hide Shift, XorBits;
    crc := Xor(crc0, b);
    ghost var mixed := crc;
    for k := 0 to 8
      invariant crc == Shifts(mixed, k)
    {
      crc := ShiftStep(crc);
    }
  }

  method ShiftStep(crc0: u32) returns (crc: u32)
    ensures crc == Shift(crc0)
  {
    crc := crc0;
    if crc % 2 != 0 {
      crc := Xor(crc / 2, POLYNOMIAL);
    } else {
      crc := crc / 2;
    }
  }
}
