/**
 * Machine-level values shared by the ISO/IEC 14443 Type A model: bytes,
 * 4-bit sample nibbles, 32-bit words, and the few bit operations the C code
 * performs on them.
 */
module Bits {

  /** An unsigned 8-bit value (the C code's uint8_t / byte_t). */
  type byte = x: int | 0 <= x < 256

  /** One 4-bit sample unit, as the FPGA delivers it to the decoders. */
  type nibble = x: int | 0 <= x < 16

  datatype Option<T> = None | Some(value: T)

  /** 2^32: the modulus of the C code's 32-bit words. */
  const Word32: int := 0x1_0000_0000

  /** The bit pattern of a 32-bit C integer, read as an unsigned number. */
  type word = x: int | 0 <= x < 0x1_0000_0000

  /** A 16-bit unsigned register (`uint16_t shiftReg`). */
  type u16 = x: int | 0 <= x < 0x1_0000

  /** `shiftReg >>= 1`. */
  function ShiftRight(x: u16): u16
  {
    x / 2
  }

  /** `parityBits <<= 1; parityBits ^= b` on a 32-bit int, for a bit b. */
  function ShiftInParity(p: word, b: int): word
    requires b == 0 || b == 1
  {
    (2 * p) % Word32 + b
  }

  /** `v & m` for a single-bit mask m below 16. */
  function Mask(v: nat, m: int): (r: int)
    requires m == 1 || m == 2 || m == 4 || m == 8
    ensures r == 0 || r == m
  {
    var b := if m == 8 then v / 8 % 2 else if m == 4 then v / 4 % 2 else if m == 2 then v / 2 % 2 else v % 2;
    if b == 1 then m else 0
  }

  /** The four bytes of a word, least significant first. */
  function LittleEndian(w: word): (b: seq<byte>)
    ensures |b| == 4
  {
    [w % 256, w / 0x100 % 256, w / 0x1_0000 % 256, w / 0x100_0000]
  }

  /** The word of four bytes, least significant first. */
  function FromLittleEndian(b0: byte, b1: byte, b2: byte, b3: byte): word
  {
    b0 + 0x100 * b1 + 0x1_0000 * b2 + 0x100_0000 * b3
  }

  lemma LittleEndianRoundTrip(w: word)
    ensures var b := LittleEndian(w); FromLittleEndian(b[0], b[1], b[2], b[3]) == w
  {
    var q1 := w / 0x100;
    var q2 := w / 0x1_0000;
    var q3 := w / 0x100_0000;
    assert q2 == q1 / 0x100 && q3 == q2 / 0x100;
    assert w == w % 256 + 0x100 * q1;
    assert q1 == q1 % 256 + 0x100 * q2;
    assert q2 == q2 % 256 + 0x100 * q3;
  }

  /** A bit position below 32 as a shift amount. */
  function Idx(i: nat): bv5
    requires i < 32
  {
    i as bv5
  }

  /** `(w >> k) & 1`, kept in bit-vector arithmetic. */
  function BitAt(w: bv32, k: bv5): bv32
  {
    (w >> k) & 1
  }

  /**
   * Bit i of a 32-bit word, as `(w >> i) & 1`; a shift by 32 or more
   * yields 0, as the ARM shifter does.
   */
  function WordBit(w: bv32, i: nat): (b: int)
    ensures b == 0 || b == 1
  {
    if i < 32 && BitAt(w, Idx(i)) == 1 then 1 else 0
  }

  lemma BitAtOr(a: bv32, b: bv32, k: bv5)
    ensures BitAt(a | b, k) == BitAt(a, k) | BitAt(b, k)
    ensures BitAt(a, k) == 0 || BitAt(a, k) == 1
  {
  }

  /** A bit of `a | b` is the sum of the bits of a and b where they do not overlap. */
  lemma WordBitOr(a: bv32, b: bv32, j: nat)
    requires WordBit(b, j) == 0 || WordBit(a, j) == 0
    ensures WordBit(a | b, j) == WordBit(a, j) + WordBit(b, j)
  {
    if j < 32 {
      BitAtOr(a, b, Idx(j));
      BitAtOr(b, a, Idx(j));
    }
  }

  lemma BitAtOne(k: bv5, j: bv5)
    ensures BitAt(1 << k, j) == if k == j then 1 else 0
  {
  }

  /** The word with only bit i set to p (nothing for i >= 32): `p << i`. */
  function BitWord(p: int, i: nat): bv32
    requires p == 0 || p == 1
  {
    if i < 32 && p == 1 then 1 << Idx(i) else 0
  }

  /** Distinct bit positions are distinct shift amounts. */
  lemma IdxInjective(i: nat, j: nat)
    requires i < 32 && j < 32
    ensures (Idx(i) == Idx(j)) == (i == j)
  {
    if Idx(i) == Idx(j) {
      assert Idx(i) as int == i && Idx(j) as int == j;
    }
  }

  lemma WordBitOfBitWord(p: int, i: nat, j: nat)
    requires p == 0 || p == 1
    ensures WordBit(BitWord(p, i), j) == if i == j && i < 32 then p else 0
  {
    if i < 32 && j < 32 && p == 1 {
      BitAtOne(Idx(i), Idx(j));
      IdxInjective(i, j);
    }
  }

  /** `a ^ b` on two bytes. */
  function Xor(a: byte, b: byte): byte
  {
    ((a as bv8) ^ (b as bv8)) as int
  }

  /** The low byte of a 32-bit word shifted right by k bits: `(w >> k) & 0xff`. */
  function ByteOf(w: bv32, k: nat): byte
    requires k <= 32
  {
    ((w >> k) & 0xff) as int
  }

  /** A byte as a 32-bit word. */
  function ToWord(b: byte): bv32
  {
    b as bv32
  }
}
