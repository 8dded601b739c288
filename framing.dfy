/**
 * Bit-level framing of ISO/IEC 14443-3 Type A standard frames: every byte
 * travels least-significant bit first followed by its parity bit, nine bits
 * per byte. Both the encoders (armsrc/iso14443a.c, `b & 1; b >>= 1` loops
 * and `(dwParity >> i) & 1`) and the decoders (the nine-bit `shiftReg`)
 * follow this layout.
 */
module Framing {
  import opened Bits

  // Tag to reader (Manchester coding with subcarrier), one byte per bit period.
  /** Sequence D: subcarrier during the first half of the bit period. */
  const SeqD: byte := 0xf0
  /** Sequence E: subcarrier during the second half. */
  const SeqE: byte := 0x0f
  /** Sequence F: no subcarrier. */
  const SeqF: byte := 0x00

  // Reader to tag (modified Miller coding), one byte per bit period.
  /** Sequence X: field drop after half a period. */
  const SeqX: byte := 0x0c
  /** Sequence Y: no drop. */
  const SeqY: byte := 0x00
  /** Sequence Z: field drop at the start of the period. */
  const SeqZ: byte := 0xc0

  /** The first k bits of x, least significant first, as `b & 1; b >>= 1` repeated k times. */
  function LsbBits(x: nat, k: nat): (bits: seq<int>)
    ensures |bits| == k
    ensures forall j :: 0 <= j < k ==> bits[j] == 0 || bits[j] == 1
  {
    if k == 0 then [] else [x % 2] + LsbBits(x / 2, k - 1)
  }

  /** The value of a bit sequence read least significant bit first. */
  function LsbValue(bits: seq<int>): int
  {
    if |bits| == 0 then 0 else bits[0] + 2 * LsbValue(bits[1..])
  }

  /** 2^k. */
  function Pow2(k: nat): nat
    ensures Pow2(k) > 0
  {
    if k == 0 then 1 else 2 * Pow2(k - 1)
  }

  /** Reading back the first k bits of x gives x when x has at most k bits. */
  lemma {:induction false} LsbRoundTrip(x: nat, k: nat)
    requires x < Pow2(k)
    ensures LsbValue(LsbBits(x, k)) == x
    decreases k
  {
    if k > 0 {
      LsbRoundTrip(x / 2, k - 1);
      var b := LsbBits(x, k);
      assert b[1..] == LsbBits(x / 2, k - 1);
    }
  }

  /** A byte is read back from its eight bits. */
  lemma ByteRoundTrip(b: byte)
    ensures LsbValue(LsbBits(b, 8)) == b
  {
    assert Pow2(8) == 256;
    LsbRoundTrip(b, 8);
  }

  /**
   * The bits of a standard frame from byte i on: for each byte its eight
   * data bits and then bit i of the parity word.
   */
  function FrameBits(cmd: seq<byte>, par: bv32, i: nat): (bits: seq<int>)
    requires i <= |cmd|
    ensures |bits| == 9 * (|cmd| - i)
    decreases |cmd| - i
  {
    if i == |cmd| then [] else LsbBits(cmd[i], 8) + [WordBit(par, i)] + FrameBits(cmd, par, i + 1)
  }

  /** All entries of FrameBits are bits. */
  lemma {:induction false} FrameBitsAreBits(cmd: seq<byte>, par: bv32, i: nat)
    requires i <= |cmd|
    ensures forall k :: 0 <= k < |FrameBits(cmd, par, i)| ==> FrameBits(cmd, par, i)[k] in {0, 1}
    decreases |cmd| - i
  {
    if i < |cmd| {
      FrameBitsAreBits(cmd, par, i + 1);
      var f := FrameBits(cmd, par, i);
      var t := LsbBits(cmd[i], 8) + [WordBit(par, i)];
      assert f == t + FrameBits(cmd, par, i + 1);
      forall k | 0 <= k < |f|
        ensures f[k] in {0, 1}
      {
        if k >= 9 {
          assert f[k] == FrameBits(cmd, par, i + 1)[k - 9];
        }
      }
    }
  }

  /** The bytes of a sequence of nine-bit groups (data bits, then parity). */
  function FrameBytes(bits: seq<int>): seq<int>
    decreases |bits|
  {
    if |bits| < 9 then [] else [LsbValue(bits[..8])] + FrameBytes(bits[9..])
  }

  /** The parity bits of a sequence of nine-bit groups, one per group. */
  function FrameParities(bits: seq<int>): seq<int>
    decreases |bits|
  {
    if |bits| < 9 then [] else [bits[8]] + FrameParities(bits[9..])
  }

  /** Regrouping the frame bits gives back the bytes and bits 0.. of the parity word. */
  lemma {:induction false} FrameRoundTrip(cmd: seq<byte>, par: bv32, i: nat)
    requires i <= |cmd|
    ensures FrameBytes(FrameBits(cmd, par, i)) == cmd[i..]
    ensures |FrameParities(FrameBits(cmd, par, i))| == |cmd| - i
    ensures forall k :: 0 <= k < |cmd| - i ==> FrameParities(FrameBits(cmd, par, i))[k] == WordBit(par, i + k)
    decreases |cmd| - i
  {
    if i < |cmd| {
      FrameRoundTrip(cmd, par, i + 1);
      var f := FrameBits(cmd, par, i);
      assert f[..8] == LsbBits(cmd[i], 8);
      assert f[8] == WordBit(par, i);
      assert f[9..] == FrameBits(cmd, par, i + 1);
      ByteRoundTrip(cmd[i]);
      assert cmd[i..] == [cmd[i]] + cmd[i + 1..];
    }
  }

  /** A byte below a ninth bit: the low byte and bit 8 of the nine-bit value. */
  lemma ByteAndBit8(lo: int, hi: int)
    requires 0 <= lo < 0x100 && (hi == 0 || hi == 1)
    ensures (lo + 0x100 * hi) % 0x100 == lo && (lo + 0x100 * hi) / 0x100 % 2 == hi
  {
  }

  /** 2^(a+b) = 2^a * 2^b. */
  lemma {:induction false} Pow2Add(a: nat, b: nat)
    ensures Pow2(a + b) == Pow2(a) * Pow2(b)
    decreases a
  {
    if a > 0 {
      Pow2Add(a - 1, b);
    }
  }

  /** A bit appended after the others counts 2^|bits|. */
  lemma {:induction false} LsbValueSnoc(bits: seq<int>, b: int)
    ensures LsbValue(bits + [b]) == LsbValue(bits) + Pow2(|bits|) * b
    decreases |bits|
  {
    if |bits| == 0 {
      assert LsbValue([b]) == b + 2 * LsbValue([]);
    } else {
      assert (bits + [b])[1..] == bits[1..] + [b];
      LsbValueSnoc(bits[1..], b);
    }
  }

  /** k bits read least significant first make a number below 2^k. */
  lemma {:induction false} LsbValueBound(bits: seq<int>)
    requires forall j :: 0 <= j < |bits| ==> bits[j] == 0 || bits[j] == 1
    ensures 0 <= LsbValue(bits) < Pow2(|bits|)
    decreases |bits|
  {
    if |bits| > 0 {
      LsbValueBound(bits[1..]);
    }
  }

  // ------------------------------------------------- received parities

  /** `ShiftInParity` applied to bit i of `par`, for i from `i` up to n. */
  function ParityShifted(p: word, par: bv32, i: nat, n: nat): word
    decreases n - i
  {
    if i >= n then p else ParityShifted(ShiftInParity(p, WordBit(par, i)), par, i + 1, n)
  }

  /** The parity bits 0..n-1 of `par` as a number, bit 0 the most significant. */
  function ArrivalValue(par: bv32, n: nat): nat
  {
    if n == 0 then 0 else 2 * ArrivalValue(par, n - 1) + WordBit(par, n - 1)
  }

  lemma ShiftInParityMod(a: nat, b: int)
    requires b == 0 || b == 1
    ensures ShiftInParity(a % Word32, b) == (2 * a + b) % Word32
  {
    var q := a / Word32;
    var r := a % Word32;
    assert a == Word32 * q + r;
    assert 2 * a + b == Word32 * (2 * q) + (2 * r + b);
    if 2 * r < Word32 {
      assert (2 * r) % Word32 == 2 * r;
    } else {
      assert (2 * r) % Word32 == 2 * r - Word32;
      assert 2 * r + b == Word32 + (2 * r - Word32 + b);
    }
  }

  /** Shifting the parities in keeps the first one received highest, to 32 bits. */
  lemma {:induction false} ParityShiftedValue(par: bv32, i: nat, n: nat)
    requires i <= n
    ensures ParityShifted(ArrivalValue(par, i) % Word32, par, i, n) == ArrivalValue(par, n) % Word32
    decreases n - i
  {
    if i < n {
      ShiftInParityMod(ArrivalValue(par, i), WordBit(par, i));
      ParityShiftedValue(par, i + 1, n);
    }
  }

  /** The parity word built from zero holds the first n parity bits, the first one highest. */
  lemma ParityFromStart(par: bv32, n: nat, p: word)
    requires p == ParityShifted(0, par, 0, n)
    ensures p == ArrivalValue(par, n) % Word32
  {
    ParityShiftedValue(par, 0, n);
  }
}
