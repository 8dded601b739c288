/**
 * The frame encoders of armsrc/iso14443a.c. They fill the global transmit
 * buffer `ToSend` one bit period at a time: a tag answer as Manchester
 * sequences D/E/F, a reader command as modified Miller sequences X/Y/Z.
 */
module Encoders {
  import opened Bits
  import opened Framing
  import Parity

  // ------------------------------------------------------------ tag side

  /** Data bit 1 is sent as sequence D, 0 as sequence E. */
  function TagSymbol(bit: int): byte
  {
    if bit == 1 then SeqD else SeqE
  }

  /** The Manchester sequences of a run of bits. */
  function TagCode(bits: seq<int>): (s: seq<byte>)
    ensures |s| == |bits|
    decreases |bits|
  {
    if |bits| == 0 then [] else [TagSymbol(bits[0])] + TagCode(bits[1..])
  }

  /** The five extra F sequences that flush the FPGA after a short answer. */
  const Flush: seq<byte> := [SeqF, SeqF, SeqF, SeqF, SeqF]

  /**
   * The buffer `CodeIso14443aAsTagPar` leaves: the correction bits, a start
   * bit D, eight data bits and one parity bit per byte, then the stop F.
   */
  function TagFrame(correction: seq<byte>, cmd: seq<byte>, par: bv32): seq<byte>
  {
    correction + [SeqD] + TagCode(FrameBits(cmd, par, 0)) + [SeqF]
  }

  /** The buffer `Code4bitAnswerAsTag` leaves: four data bits, no parity. */
  function FourBitFrame(correction: seq<byte>, cmd: byte): seq<byte>
  {
    correction + [SeqD] + TagCode(LsbBits(cmd, 4)) + [SeqF] + Flush
  }

  /** The buffer `CodeStrangeAnswerAsTag` leaves: the three bits 0, 0, 1. */
  function StrangeFrame(correction: seq<byte>): seq<byte>
  {
    correction + [SeqD] + TagCode([0, 0, 1]) + [SeqF] + Flush
  }

  // --------------------------------------------------------- reader side

  /**
   * Modified Miller coding of one bit: 1 is X; 0 is Y right after a 1 and
   * Z otherwise (`last` is 1 when the previous bit sent was a 1).
   */
  function MillerSymbol(bit: int, last: int): byte
  {
    if bit == 1 then SeqX else if last == 0 then SeqZ else SeqY
  }

  /** The Miller sequences of a run of bits, starting after a bit with `last`. */
  function MillerCode(bits: seq<int>, last: int): (s: seq<byte>)
    ensures |s| == |bits|
    decreases |bits|
  {
    if |bits| == 0 then []
    else [MillerSymbol(bits[0], last)] + MillerCode(bits[1..], if bits[0] == 1 then 1 else 0)
  }

  /** The value of `last` once the bits have been sent. */
  function LastAfter(bits: seq<int>, last: int): int
    decreases |bits|
  {
    if |bits| == 0 then last else LastAfter(bits[1..], if bits[0] == 1 then 1 else 0)
  }

  /** End of communication (a logic 0, then Y) and the three extra Y. */
  function EndOfCommunication(last: int): seq<byte>
  {
    [if last == 0 then SeqZ else SeqY, SeqY, SeqY, SeqY, SeqY]
  }

  /** The buffer `CodeIso14443aAsReaderPar` leaves: start Z, the frame bits, the end. */
  function ReaderFrame(cmd: seq<byte>, par: bv32): seq<byte>
  {
    var bits := FrameBits(cmd, par, 0);
    [SeqZ] + MillerCode(bits, 0) + EndOfCommunication(LastAfter(bits, 0))
  }

  /** The buffer `ShortFrameFromReader` leaves: seven data bits, no parity. */
  function ShortFrame(bt: byte): seq<byte>
  {
    var bits := LsbBits(bt, 7);
    [SeqZ] + MillerCode(bits, 0) + EndOfCommunication(LastAfter(bits, 0))
  }

  // ----------------------------------------------------------- the buffer

  /** The transmit buffer `ToSend[0..ToSendMax)`. */
  class ToSendBuffer {
    var symbols: seq<byte>

    constructor()
      ensures symbols == []
    {
      symbols := [];
    }

    /** `ToSendReset` followed by the eight `ToSendStuffBit` correction calls. */
    method ResetWithCorrection(correction: seq<byte>)
      modifies this
      ensures symbols == correction
    {
      symbols := correction;
    }

    /** `ToSendReset` alone. */
    method Reset()
      modifies this
      ensures symbols == []
    {
      symbols := [];
    }

    /** `ToSend[++ToSendMax] = s`. */
    method Send(s: byte)
      modifies this
      ensures symbols == old(symbols) + [s]
    {
      symbols := symbols + [s];
    }

    /** One tag bit: `SEC_D` for 1, `SEC_E` for 0. */
    method SendTagBit(bit: int)
      modifies this
      ensures symbols == old(symbols) + [TagSymbol(bit)]
    {
      if bit == 1 {
        Send(SeqD);
      } else {
        Send(SeqE);
      }
    }

    /** The data-bit loop of the tag encoders: the low n bits of b, least significant first. */
    method SendTagBits(b0: byte, n: nat)
      modifies this
      ensures symbols == old(symbols) + TagCode(LsbBits(b0, n))
    {
      ghost var target := symbols + TagCode(LsbBits(b0, n));
      var b := b0;
      var j := 0;
      while j < n
        invariant 0 <= j <= n
        invariant symbols + TagCode(LsbBits(b, n - j)) == target
      {
        TagCodeCons(b % 2, LsbBits(b / 2, n - j - 1));
        SendTagBit(b % 2);
        b := b / 2;
        j := j + 1;
      }
    }

    /** `CodeIso14443aAsTagPar`. */
    method CodeAsTagPar(correction: seq<byte>, cmd: seq<byte>, dwParity: bv32)
      modifies this
      ensures symbols == TagFrame(correction, cmd, dwParity)
    {
      ResetWithCorrection(correction);
      Send(SeqD);
      ghost var target := correction + [SeqD] + TagCode(FrameBits(cmd, dwParity, 0));
      var i := 0;
      while i < |cmd|
        invariant 0 <= i <= |cmd|
        invariant symbols + TagCode(FrameBits(cmd, dwParity, i)) == target
      {
        SendTagBits(cmd[i], 8);
        SendTagBit(WordBit(dwParity, i));
        TagCodeConcat(LsbBits(cmd[i], 8), [WordBit(dwParity, i)]);
        TagCodeConcat(LsbBits(cmd[i], 8) + [WordBit(dwParity, i)], FrameBits(cmd, dwParity, i + 1));
        i := i + 1;
      }
      Send(SeqF);
    }

    /** `CodeIso14443aAsTag`: the tag frame with the parity `GetParity` computes. */
    method CodeAsTag(correction: seq<byte>, cmd: seq<byte>)
      modifies this
      ensures symbols == TagFrame(correction, cmd, Parity.ParityWord(cmd))
    {
      var par := Parity.GetParity(cmd);
      CodeAsTagPar(correction, cmd, par);
    }

    /** `CodeStrangeAnswerAsTag`. */
    method CodeStrangeAnswerAsTag(correction: seq<byte>)
      modifies this
      ensures symbols == StrangeFrame(correction)
    {
      ResetWithCorrection(correction);
      Send(SeqD);
      Send(SeqE);
      Send(SeqE);
      Send(SeqD);
      Send(SeqF);
      var i := 0;
      while i < 5
        invariant 0 <= i <= 5
        invariant symbols == correction + [SeqD, SeqE, SeqE, SeqD, SeqF] + Flush[..i]
      {
        Send(SeqF);
        i := i + 1;
      }
      assert TagCode([0, 0, 1]) == [SeqE, SeqE, SeqD];
    }

    /** `Code4bitAnswerAsTag`. */
    method Code4bitAnswerAsTag(correction: seq<byte>, cmd: byte)
      modifies this
      ensures symbols == FourBitFrame(correction, cmd)
    {
      ResetWithCorrection(correction);
      Send(SeqD);
      SendTagBits(cmd, 4);
      ghost var target := correction + [SeqD] + TagCode(LsbBits(cmd, 4));
      Send(SeqF);
      var i := 0;
      while i < 5
        invariant 0 <= i <= 5
        invariant symbols == target + [SeqF] + Flush[..i]
      {
        Send(SeqF);
        i := i + 1;
      }
    }

    /** One Miller bit after a bit with `last`; returns the new `last`. */
    method SendMillerBit(bit: int, last: int) returns (last': int)
      modifies this
      ensures symbols == old(symbols) + [MillerSymbol(bit, last)]
      ensures last' == if bit == 1 then 1 else 0
    {
      last' := last;
      if bit == 1 {
        Send(SeqX);
        last' := 1;
      } else {
        if last == 0 {
          Send(SeqZ);
        } else {
          Send(SeqY);
          last' := 0;
        }
      }
    }

    /** The data-bit loop of the reader encoders: the low n bits of b, least significant first. */
    method SendMillerBits(b0: byte, n: nat, last0: int) returns (last: int)
      modifies this
      ensures symbols == old(symbols) + MillerCode(LsbBits(b0, n), last0)
      ensures last == LastAfter(LsbBits(b0, n), last0)
    {
      ghost var target := symbols + MillerCode(LsbBits(b0, n), last0);
      last := last0;
      var b := b0;
      var j := 0;
      while j < n
        invariant 0 <= j <= n
        invariant symbols + MillerCode(LsbBits(b, n - j), last) == target
        invariant LastAfter(LsbBits(b, n - j), last) == LastAfter(LsbBits(b0, n), last0)
      {
        MillerCodeCons(b % 2, LsbBits(b / 2, n - j - 1), last);
        last := SendMillerBit(b % 2, last);
        b := b / 2;
        j := j + 1;
      }
    }

    /** `ShortFrameFromReader`: a 7-bit command such as REQA or WUPA. */
    method ShortFrameFromReader(bt: byte)
      modifies this
      ensures symbols == ShortFrame(bt)
    {
      Reset();
      Send(SeqZ);
      var last := SendMillerBits(bt, 7, 0);
      SendEnd(last);
    }

    /** The end of communication: Z or Y for the final logic 0, then four Y. */
    method SendEnd(last: int)
      modifies this
      ensures symbols == old(symbols) + EndOfCommunication(last)
    {
      if last == 0 {
        Send(SeqZ);
      } else {
        Send(SeqY);
      }
      Send(SeqY);
      Send(SeqY);
      Send(SeqY);
      Send(SeqY);
    }

    /** One byte of a reader frame: its eight data bits, then its parity bit. */
    method SendReaderByte(c: byte, p: int, last0: int) returns (last: int)
      modifies this
      ensures symbols == old(symbols) + MillerCode(LsbBits(c, 8), last0) + [MillerSymbol(p, LastAfter(LsbBits(c, 8), last0))]
      ensures last == if p == 1 then 1 else 0
    {
      last := SendMillerBits(c, 8, last0);
      last := SendMillerBit(p, last);
    }

    /** `CodeIso14443aAsReaderPar`. */
    method CodeAsReaderPar(cmd: seq<byte>, dwParity: bv32)
      modifies this
      ensures symbols == ReaderFrame(cmd, dwParity)
    {
      Reset();
      Send(SeqZ);
      var last := 0;
      ghost var bits := FrameBits(cmd, dwParity, 0);
      ghost var target := [SeqZ] + MillerCode(bits, 0);
      var i := 0;
      while i < |cmd|
        invariant 0 <= i <= |cmd|
        invariant symbols + MillerCode(FrameBits(cmd, dwParity, i), last) == target
        invariant LastAfter(FrameBits(cmd, dwParity, i), last) == LastAfter(bits, 0)
      {
        ReaderByteSplit(cmd, dwParity, i, last);
        last := SendReaderByte(cmd[i], WordBit(dwParity, i), last);
        i := i + 1;
      }
      assert symbols == target && last == LastAfter(bits, 0);
      SendEnd(last);
    }
  }

  /** The Miller sequences of a frame from byte i on: byte i's data bits, its parity bit, the rest. */
  lemma ReaderByteSplit(cmd: seq<byte>, par: bv32, i: nat, l0: int)
    requires i < |cmd|
    ensures var l1 := LastAfter(LsbBits(cmd[i], 8), l0);
      var p := WordBit(par, i);
      var l2 := if p == 1 then 1 else 0;
      && MillerCode(FrameBits(cmd, par, i), l0) == MillerCode(LsbBits(cmd[i], 8), l0) + [MillerSymbol(p, l1)] + MillerCode(FrameBits(cmd, par, i + 1), l2)
      && LastAfter(FrameBits(cmd, par, i), l0) == LastAfter(FrameBits(cmd, par, i + 1), l2)
  {
    var byteBits := LsbBits(cmd[i], 8);
    var p := WordBit(par, i);
    var rest := FrameBits(cmd, par, i + 1);
    var l1 := LastAfter(byteBits, l0);
    assert FrameBits(cmd, par, i) == byteBits + ([p] + rest);
    MillerCodeConcat(byteBits, [p] + rest, l0);
    MillerCodeCons(p, rest, l1);
    assert LastAfter([p] + rest, l1) == LastAfter(rest, if p == 1 then 1 else 0) by {
      assert ([p] + rest)[1..] == rest;
    }
  }

  lemma TagCodeCons(x: int, r: seq<int>)
    ensures TagCode([x] + r) == [TagSymbol(x)] + TagCode(r)
  {
    assert ([x] + r)[1..] == r;
  }

  lemma {:induction false} TagCodeConcat(a: seq<int>, b: seq<int>)
    ensures TagCode(a + b) == TagCode(a) + TagCode(b)
    decreases |a|
  {
    if |a| > 0 {
      TagCodeConcat(a[1..], b);
      assert (a + b)[1..] == a[1..] + b;
    } else {
      assert a + b == b;
    }
  }

  lemma {:induction false} MillerCodeConcat(a: seq<int>, b: seq<int>, last: int)
    ensures MillerCode(a + b, last) == MillerCode(a, last) + MillerCode(b, LastAfter(a, last))
    ensures LastAfter(a + b, last) == LastAfter(b, LastAfter(a, last))
    decreases |a|
  {
    if |a| > 0 {
      MillerCodeConcat(a[1..], b, if a[0] == 1 then 1 else 0);
      assert (a + b)[1..] == a[1..] + b;
    } else {
      assert a + b == b;
    }
  }

  lemma MillerCodeCons(x: int, r: seq<int>, last: int)
    ensures MillerCode([x] + r, last) == [MillerSymbol(x, last)] + MillerCode(r, if x == 1 then 1 else 0)
    ensures LastAfter([x] + r, last) == LastAfter(r, if x == 1 then 1 else 0)
  {
    assert ([x] + r)[1..] == r;
  }

  // ------------------------------------------------------------ properties

  /** What a receiver reads from a Manchester sequence: D is 1, anything else 0. */
  function TagDecode(s: seq<byte>): (bits: seq<int>)
    ensures |bits| == |s|
  {
    seq(|s|, k requires 0 <= k < |s| => if s[k] == SeqD then 1 else 0)
  }

  /** What a receiver reads from a Miller sequence: X is 1, anything else 0. */
  function MillerDecode(s: seq<byte>): (bits: seq<int>)
    ensures |bits| == |s|
  {
    seq(|s|, k requires 0 <= k < |s| => if s[k] == SeqX then 1 else 0)
  }

  predicate AreBits(bits: seq<int>)
  {
    forall k :: 0 <= k < |bits| ==> bits[k] == 0 || bits[k] == 1
  }

  /** Manchester coding is undone by reading D as 1. */
  lemma {:induction false} TagDecodeCode(bits: seq<int>)
    requires AreBits(bits)
    ensures TagDecode(TagCode(bits)) == bits
    decreases |bits|
  {
    if |bits| > 0 {
      TagDecodeCode(bits[1..]);
      assert TagCode(bits) == [TagSymbol(bits[0])] + TagCode(bits[1..]);
    }
  }

  /** Miller coding is undone by reading X as 1, whatever came before. */
  lemma {:induction false} MillerDecodeCode(bits: seq<int>, last: int)
    requires AreBits(bits)
    ensures MillerDecode(MillerCode(bits, last)) == bits
    decreases |bits|
  {
    if |bits| > 0 {
      MillerDecodeCode(bits[1..], if bits[0] == 1 then 1 else 0);
      assert MillerCode(bits, last) == [MillerSymbol(bits[0], last)] + MillerCode(bits[1..], if bits[0] == 1 then 1 else 0);
    }
  }

  /**
   * Layout of a tag frame: the correction bits, start bit D, nine sequences
   * per byte that a receiver reads back as the byte and bit i of dwParity,
   * and the stop sequence F.
   */
  lemma TagFrameLayout(correction: seq<byte>, cmd: seq<byte>, par: bv32)
    ensures var f := TagFrame(correction, cmd, par);
      && |f| == |correction| + 9 * |cmd| + 2
      && f[..|correction|] == correction
      && f[|correction|] == SeqD
      && f[|f| - 1] == SeqF
      && FrameBytes(TagDecode(f[|correction| + 1..|f| - 1])) == cmd
      && |FrameParities(TagDecode(f[|correction| + 1..|f| - 1]))| == |cmd|
      && (forall i :: 0 <= i < |cmd| ==> FrameParities(TagDecode(f[|correction| + 1..|f| - 1]))[i] == WordBit(par, i))
  {
    var f := TagFrame(correction, cmd, par);
    var bits := FrameBits(cmd, par, 0);
    assert f[|correction| + 1..|f| - 1] == TagCode(bits);
    FrameBitsAreBits(cmd, par, 0);
    TagDecodeCode(bits);
    FrameRoundTrip(cmd, par, 0);
  }

  /**
   * Layout of a reader frame: start Z, nine sequences per byte read back as
   * the byte and bit i of dwParity, then five closing sequences; 9n + 6 in all.
   */
  lemma ReaderFrameLayout(cmd: seq<byte>, par: bv32)
    ensures var f := ReaderFrame(cmd, par);
      && |f| == 9 * |cmd| + 6
      && f[0] == SeqZ
      && FrameBytes(MillerDecode(f[1..9 * |cmd| + 1])) == cmd
      && |FrameParities(MillerDecode(f[1..9 * |cmd| + 1]))| == |cmd|
      && (forall i :: 0 <= i < |cmd| ==> FrameParities(MillerDecode(f[1..9 * |cmd| + 1]))[i] == WordBit(par, i))
      && f[|f| - 4..] == [SeqY, SeqY, SeqY, SeqY]
  {
    var f := ReaderFrame(cmd, par);
    var bits := FrameBits(cmd, par, 0);
    assert f[1..9 * |cmd| + 1] == MillerCode(bits, 0);
    FrameBitsAreBits(cmd, par, 0);
    MillerDecodeCode(bits, 0);
    FrameRoundTrip(cmd, par, 0);
  }

  /** A short frame has 13 sequences and carries the low seven bits of its byte. */
  lemma ShortFrameLayout(bt: byte)
    ensures var f := ShortFrame(bt);
      && |f| == 13
      && f[0] == SeqZ
      && LsbValue(MillerDecode(f[1..8])) == bt % 128
  {
    var f := ShortFrame(bt);
    assert f[1..8] == MillerCode(LsbBits(bt, 7), 0);
    MillerDecodeCode(LsbBits(bt, 7), 0);
    assert Pow2(7) == 128;
    LsbRoundTrip(bt % 128, 7);
    LsbBitsAddMultiple(bt % 128, bt / 128, 7);
  }

  /** Adding 2^k does not change the low k bits. */
  lemma {:induction false} LsbBitsAddPow2(y: nat, k: nat)
    ensures LsbBits(Pow2(k) + y, k) == LsbBits(y, k)
    decreases k
  {
    if k > 0 {
      var h := Pow2(k - 1);
      assert Pow2(k) + y == 2 * h + y;
      assert (2 * h + y) / 2 == h + y / 2;
      LsbBitsAddPow2(y / 2, k - 1);
    }
  }

  /** One multiple of p taken out of p * m + y. */
  lemma MultipleStep(p: int, m: int, y: int, z: int)
    requires p > 0 && m > 0 && y >= 0 && z == p * (m - 1) + y
    ensures p * m + y == p + z && z >= 0
  {
  }

  /** Adding a multiple of 2^k does not change the low k bits. */
  lemma {:induction false} LsbBitsAddMultiple(y: nat, m: nat, k: nat)
    ensures LsbBits(Pow2(k) * m + y, k) == LsbBits(y, k)
    decreases m
  {
    if m > 0 {
      var z := Pow2(k) * (m - 1) + y;
      MultipleStep(Pow2(k), m, y, z);
      LsbBitsAddPow2(z, k);
      LsbBitsAddMultiple(y, m - 1, k);
    }
  }

  /** A four-bit answer has 11 sequences after the correction and carries cmd mod 16. */
  lemma FourBitFrameLayout(correction: seq<byte>, cmd: byte)
    ensures var f := FourBitFrame(correction, cmd);
      && |f| == |correction| + 11
      && f[..|correction|] == correction
      && f[|correction|] == SeqD
      && LsbValue(TagDecode(f[|correction| + 1..|correction| + 5])) == cmd % 16
      && f[|correction| + 5..] == [SeqF] + Flush
  {
    var f := FourBitFrame(correction, cmd);
    assert f[|correction| + 1..|correction| + 5] == TagCode(LsbBits(cmd, 4));
    TagDecodeCode(LsbBits(cmd, 4));
    assert Pow2(4) == 16;
    LsbRoundTrip(cmd % 16, 4);
    LsbBitsAddMultiple(cmd % 16, cmd / 16, 4);
  }

  /**
   * The "strange" answer is the four-bit answer 0x4 with its last data bit
   * (a 0) left out: only three of the four bits are sent.
   */
  lemma StrangeIsTruncatedFourBit(correction: seq<byte>)
    ensures var f := FourBitFrame(correction, 4);
      StrangeFrame(correction) == f[..|correction| + 4] + f[|correction| + 5..]
    ensures LsbValue(TagDecode(StrangeFrame(correction)[|correction| + 1..|correction| + 4])) == 4
  {
    var c := |correction|;
    var f := FourBitFrame(correction, 4);
    assert LsbBits(4, 4) == [0, 0, 1, 0];
    assert TagCode([0, 0, 1, 0]) == [SeqE, SeqE, SeqD, SeqE];
    assert TagCode([0, 0, 1]) == [SeqE, SeqE, SeqD];
    assert StrangeFrame(correction)[c + 1..c + 4] == [SeqE, SeqE, SeqD];
    assert TagDecode([SeqE, SeqE, SeqD]) == [0, 0, 1];
  }

  /** No sequence Z directly follows a sequence X (ISO/IEC 14443-2 forbids it). */
  predicate NoZAfterX(s: seq<byte>)
  {
    forall k :: 0 <= k < |s| - 1 && s[k] == SeqX ==> s[k + 1] != SeqZ
  }

  /** In Miller coding a 1 (X) is never followed by a Z; a final X leaves `last` at 1. */
  lemma {:induction false} MillerNoZAfterX(bits: seq<int>, last: int)
    ensures NoZAfterX(MillerCode(bits, last))
    ensures |bits| > 0 && MillerCode(bits, last)[|bits| - 1] == SeqX ==> LastAfter(bits, last) == 1
    decreases |bits|
  {
    if |bits| > 0 {
      var l := if bits[0] == 1 then 1 else 0;
      MillerNoZAfterX(bits[1..], l);
      var s := MillerCode(bits, last);
      var t := MillerCode(bits[1..], l);
      assert s == [MillerSymbol(bits[0], last)] + t;
      forall k | 0 <= k < |s| - 1 && s[k] == SeqX
        ensures s[k + 1] != SeqZ
      {
        if k == 0 {
          assert t == [MillerSymbol(bits[1..][0], 1)] + MillerCode(bits[1..][1..], if bits[1..][0] == 1 then 1 else 0);
        } else {
          assert s[k] == t[k - 1] && s[k + 1] == t[k];
        }
      }
      if |bits| > 1 {
        assert s[|bits| - 1] == t[|bits| - 2];
      }
    }
  }

  /** A reader frame never has a Z right after an X, end of communication included. */
  lemma ReaderFrameNoZAfterX(cmd: seq<byte>, par: bv32)
    ensures NoZAfterX(ReaderFrame(cmd, par))
  {
    var bits := FrameBits(cmd, par, 0);
    assert ReaderFrame(cmd, par) == [SeqZ] + MillerCode(bits, 0) + EndOfCommunication(LastAfter(bits, 0));
    MillerNoZAfterX(bits, 0);
    FramedNoZAfterX(MillerCode(bits, 0), LastAfter(bits, 0));
  }

  /** The same for a short frame. */
  lemma ShortFrameNoZAfterX(bt: byte)
    ensures NoZAfterX(ShortFrame(bt))
  {
    var bits := LsbBits(bt, 7);
    assert ShortFrame(bt) == [SeqZ] + MillerCode(bits, 0) + EndOfCommunication(LastAfter(bits, 0));
    MillerNoZAfterX(bits, 0);
    FramedNoZAfterX(MillerCode(bits, 0), LastAfter(bits, 0));
  }

  lemma FramedNoZAfterX(s: seq<byte>, last: int)
    requires NoZAfterX(s)
    requires |s| > 0 && s[|s| - 1] == SeqX ==> last == 1
    ensures NoZAfterX([SeqZ] + s + EndOfCommunication(last))
  {
    var e := EndOfCommunication(last);
    var f := [SeqZ] + s + e;
    forall k | 0 <= k < |f| - 1 && f[k] == SeqX
      ensures f[k + 1] != SeqZ
    {
      if 1 <= k < |s| {
        assert f[k] == s[k - 1] && f[k + 1] == s[k];
      } else if k == |s| {
        assert f[k] == s[|s| - 1];
        assert f[k + 1] == e[0];
      }
    }
  }
}
