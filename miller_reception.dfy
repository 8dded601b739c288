/**
 * What the Miller decoder makes of the frames the reader-side encoders
 * build: one bit period of the decoder is two calls of `Half`, and a
 * period carrying sequence X, Y or Z is a period with a drop in the second
 * half, no drop, or a drop in the first half. Driven one sequence at a
 * time, the decoder gives back the bytes of a reader frame, its parity
 * bits in order of arrival, and reports the end of communication.
 */
module MillerReception {
  import opened Bits
  import opened Framing
  import opened Encoders
  import opened MillerDecoder

  /** The field level (up or not) in each half of a bit period. */
  function PeriodDrop(up1: bool, up2: bool): Drop
  {
    if !up1 then DropFirstHalf else if !up2 then DropSecondHalf else DropNone
  }

  /**
   * Two half periods make one period: its drop kind is decided by the two
   * levels, and a period with no field in either half is an error.
   */
  lemma HalfPeriods(u: Uart, up1: bool, up2: bool)
    requires u.posCnt == 0 && u.drop == DropNone
    ensures var h := Half(u, up1);
      && h.write.None? && !h.done && h.next.posCnt == 1
      && Half(h.next, up2) == PeriodEnd(u.(drop := PeriodDrop(up1, up2),
                                           state := if !up1 && !up2 then ErrorWait else u.state))
  {
  }

  /** The levels a Miller sequence gives: X drops the second half, Z the first, Y neither. */
  function Levels(sym: byte): (bool, bool)
  {
    if sym == SeqX then (true, false) else if sym == SeqZ then (false, true) else (true, true)
  }

  /** The drop kind of a period carrying the sequence. */
  function DropOfSymbol(sym: byte): (d: Drop)
    ensures d == PeriodDrop(Levels(sym).0, Levels(sym).1)
  {
    if sym == SeqX then DropSecondHalf else if sym == SeqZ then DropFirstHalf else DropNone
  }

  /** The decoder after sequences have been received, the bytes it stored, and whether it returned TRUE. */
  datatype Reception = Reception(last: Uart, written: seq<byte>, done: bool)

  /** One bit period carrying the sequence `sym`. */
  function Period(u: Uart, sym: byte): MillerStep
  {
    PeriodEnd(u.(drop := DropOfSymbol(sym)))
  }

  /**
   * Run a decoder step once per sequence, stopping when it returns TRUE or
   * falls back to waiting for a start of communication.
   */
  function Run(step: (Uart, byte) -> MillerStep, u: Uart, syms: seq<byte>): Reception
    decreases |syms|
  {
    if |syms| == 0 || u.state == Unsyncd then Reception(u, [], false)
    else
      var s := step(u, syms[0]);
      var w := if s.write.Some? then [s.write.value] else [];
      if s.done then Reception(s.next, w, true)
      else
        var rest := Run(step, s.next, syms[1..]);
        Reception(rest.last, w + rest.written, rest.done)
  }

  /** The Miller decoder run one bit period per sequence. */
  function RunSymbols(u: Uart, syms: seq<byte>): Reception
  {
    Run(Period, u, syms)
  }

  /** A step that neither finishes nor stores leaves the rest of the run to its successor. */
  lemma RunQuiet(step: (Uart, byte) -> MillerStep, u: Uart, x: byte, rest: seq<byte>)
    requires u.state != Unsyncd && !step(u, x).done
    ensures var s := step(u, x);
      var w := if s.write.Some? then [s.write.value] else [];
      Run(step, u, [x] + rest) == Then(Reception(s.next, w, false), Run(step, s.next, rest))
  {
    assert ([x] + rest)[0] == x;
    assert ([x] + rest)[1..] == rest;
  }

  /** Receiving a + b is receiving a, then b from where a left off. */
  lemma {:induction false} RunConcat(step: (Uart, byte) -> MillerStep, u: Uart, a: seq<byte>, b: seq<byte>)
    ensures Run(step, u, a).done ==> Run(step, u, a + b) == Run(step, u, a)
    ensures !Run(step, u, a).done ==> Run(step, u, a + b) == Then(Run(step, u, a), Run(step, Run(step, u, a).last, b))
    decreases |a|
  {
    if |a| == 0 {
      assert a + b == b;
    } else if u.state != Unsyncd {
      assert (a + b)[0] == a[0];
      assert (a + b)[1..] == a[1..] + b;
      var s := step(u, a[0]);
      if !s.done {
        var w := if s.write.Some? then [s.write.value] else [];
        var ra' := Run(step, s.next, a[1..]);
        assert Run(step, u, a) == Reception(ra'.last, w + ra'.written, ra'.done);
        RunConcat(step, s.next, a[1..], b);
        var r := Run(step, s.next, a[1..] + b);
        assert Run(step, u, a + b) == Reception(r.last, w + r.written, r.done);
        if !ra'.done {
          var rb := Run(step, ra'.last, b);
          assert w + (ra'.written + rb.written) == (w + ra'.written) + rb.written;
        }
      }
    }
  }

  /** A reception followed by a later one. */
  function Then(r1: Reception, r2: Reception): Reception
  {
    Reception(r2.last, r1.written + r2.written, r2.done)
  }

  /** The decoder's shift of one received bit into the nine-bit register. */
  function Push(x: u16, b: int): u16
  {
    if b == 1 then SetBit8(ShiftRight(x)) else ShiftRight(x)
  }

  /** The register after the bits have been pushed, the last one last. */
  function Reg(s: u16, bits: seq<int>): u16
    decreases |bits|
  {
    if |bits| == 0 then s else Push(Reg(s, bits[..|bits| - 1]), bits[|bits| - 1])
  }

  lemma PushSmall(x: u16, b: int)
    requires x < 0x200 && (b == 0 || b == 1)
    ensures Push(x, b) == x / 2 + 0x100 * b && Push(x, b) < 0x200
  {
  }

  lemma RegSnoc(s: u16, bits: seq<int>, b: int)
    ensures Reg(s, bits + [b]) == Push(Reg(s, bits), b)
  {
    assert (bits + [b])[..|bits|] == bits;
  }

  lemma RegStep(s: u16, bits: seq<int>, k: nat)
    requires k < |bits|
    ensures Reg(s, bits[..k + 1]) == Push(Reg(s, bits[..k]), bits[k])
  {
    assert bits[..k + 1][..k] == bits[..k];
  }

  /** The value of eight bits, least significant first, written out. */
  lemma LsbValueEight(c: seq<int>)
    requires |c| == 8
    ensures LsbValue(c) == c[0] + 2 * c[1] + 4 * c[2] + 8 * c[3] + 16 * c[4] + 32 * c[5] + 64 * c[6] + 128 * c[7]
  {
    var c1 := c[1..];
    var c2 := c1[1..];
    var c3 := c2[1..];
    var c4 := c3[1..];
    var c5 := c4[1..];
    var c6 := c5[1..];
    var c7 := c6[1..];
    var c8 := c7[1..];
    assert LsbValue(c8) == 0;
    assert LsbValue(c7) == c[7];
    assert LsbValue(c6) == c[6] + 2 * c[7];
    assert LsbValue(c5) == c[5] + 2 * c[6] + 4 * c[7];
    assert LsbValue(c4) == c[4] + 2 * c[5] + 4 * c[6] + 8 * c[7];
    assert LsbValue(c3) == c[3] + 2 * c[4] + 4 * c[5] + 8 * c[6] + 16 * c[7];
    assert LsbValue(c2) == c[2] + 2 * c[3] + 4 * c[4] + 8 * c[5] + 16 * c[6] + 32 * c[7];
    assert LsbValue(c1) == c[1] + 2 * c[2] + 4 * c[3] + 8 * c[4] + 16 * c[5] + 32 * c[6] + 64 * c[7];
  }

  lemma FourPushes(s: int, b0: int, b1: int, b2: int, b3: int, x1: int, x2: int, x3: int, x4: int)
    requires 0 <= s < 0x200
    requires x1 == s / 2 + 256 * b0 && x2 == x1 / 2 + 256 * b1 && x3 == x2 / 2 + 256 * b2 && x4 == x3 / 2 + 256 * b3
    ensures x4 == s / 16 + 32 * b0 + 64 * b1 + 128 * b2 + 256 * b3
  {
  }

  lemma FivePushes(s: int, b0: int, b1: int, b2: int, b3: int, b4: int, x1: int, x2: int, x3: int, x4: int, x5: int)
    requires 0 <= s
    requires x1 == s / 2 + 256 * b0 && x2 == x1 / 2 + 256 * b1 && x3 == x2 / 2 + 256 * b2
    requires x4 == x3 / 2 + 256 * b3 && x5 == x4 / 2 + 256 * b4
    ensures x5 == s / 32 + 16 * b0 + 32 * b1 + 64 * b2 + 128 * b3 + 256 * b4
  {
  }


  /** One more push into a register below 2^9, as arithmetic. */
  lemma RegPush(s: u16, b: seq<int>, k: nat)
    requires k < |b| && Reg(s, b[..k]) < 0x200 && (b[k] == 0 || b[k] == 1)
    ensures Reg(s, b[..k + 1]) == Reg(s, b[..k]) / 2 + 0x100 * b[k] < 0x200
  {
    RegStep(s, b, k);
    PushSmall(Reg(s, b[..k]), b[k]);
  }

  /** The first four pushes of a byte into a register below 2^9. */
  lemma RegFirstFour(s: u16, b: seq<int>)
    requires s < 0x200 && |b| == 9 && AreBits(b)
    ensures Reg(s, b[..4]) == s / 16 + 32 * b[0] + 64 * b[1] + 128 * b[2] + 256 * b[3]
  {
    assert b[..0] == [];
    RegPush(s, b, 0);
    RegPush(s, b, 1);
    RegPush(s, b, 2);
    RegPush(s, b, 3);
    FourPushes(s, b[0], b[1], b[2], b[3], Reg(s, b[..1]), Reg(s, b[..2]), Reg(s, b[..3]), Reg(s, b[..4]));
  }

  /** The last five pushes of a byte and its parity bit. */
  lemma RegLastFive(s: u16, b: seq<int>)
    requires |b| == 9 && AreBits(b) && Reg(s, b[..4]) < 0x200
    ensures Reg(s, b) == Reg(s, b[..4]) / 32 + 16 * b[4] + 32 * b[5] + 64 * b[6] + 128 * b[7] + 256 * b[8]
  {
    RegPush(s, b, 4);
    RegPush(s, b, 5);
    RegPush(s, b, 6);
    RegPush(s, b, 7);
    RegPush(s, b, 8);
    assert b[..9] == b;
    FivePushes(Reg(s, b[..4]), b[4], b[5], b[6], b[7], b[8],
               Reg(s, b[..5]), Reg(s, b[..6]), Reg(s, b[..7]), Reg(s, b[..8]), Reg(s, b[..9]));
  }

  /** Nine pushes into a register below 2^9: the register is the nine bits, least significant first. */
  lemma RegNineValue(s: u16, b: seq<int>)
    requires s < 0x200 && |b| == 9 && AreBits(b)
    ensures Reg(s, b) == b[0] + 2 * b[1] + 4 * b[2] + 8 * b[3] + 16 * b[4] + 32 * b[5] + 64 * b[6] + 128 * b[7] + 256 * b[8]
  {
    RegFirstFour(s, b);
    RegLastFive(s, b);
    var x4 := s / 16 + 32 * b[0] + 64 * b[1] + 128 * b[2] + 256 * b[3];
    assert x4 / 32 == b[0] + 2 * b[1] + 4 * b[2] + 8 * b[3];
  }

  /**
   * Nine pushes replace the register: its low byte holds the first eight
   * bits, least significant first, and bit 8 the ninth.
   */
  lemma RegNine(s: u16, bits: seq<int>)
    requires s < 0x200 && |bits| == 9 && AreBits(bits)
    ensures Reg(s, bits) % 0x100 == LsbValue(bits[..8])
    ensures Reg(s, bits) / 0x100 % 2 == bits[8]
    ensures Reg(s, bits) < 0x200
  {
    var b := bits;
    RegNineValue(s, b);
    var lo := b[0] + 2 * b[1] + 4 * b[2] + 8 * b[3] + 16 * b[4] + 32 * b[5] + 64 * b[6] + 128 * b[7];
    assert 0 <= lo < 0x100;
    ByteAndBit8(lo, b[8]);
    LsbValueEight(b[..8]);
  }

  /** Between bit periods inside a frame, after a bit `last`: X after a 1, Y or Z after a 0. */
  predicate Ready(u: Uart, last: int)
  {
    && u.drop == DropNone
    && (last == 1 ==> u.state == MillerX)
    && (last == 0 ==> (u.state == MillerY || u.state == MillerZ))
    && (last == 0 || last == 1)
  }

  /**
   * One data bit sent as its Miller sequence: it is pushed into the
   * register, and the ninth bit of a byte stores the byte and its parity.
   * States Y and Z behave alike here.
   */
  lemma DataBit(u: Uart, last: int, b: int)
    requires Ready(u, last) && (b == 0 || b == 1) && 0 <= u.bitCnt < 9
    ensures var s := Period(u, MillerSymbol(b, last));
      var x := Push(u.shiftReg, b);
      && !s.done && Ready(s.next, b) && s.next.posCnt == u.posCnt && s.next.shiftReg == x
      && (u.bitCnt < 8 ==> s.write.None? && s.next.bitCnt == u.bitCnt + 1
                           && s.next.byteCnt == u.byteCnt && s.next.parityBits == u.parityBits)
      && (u.bitCnt == 8 ==> s.write == Some(x % 0x100) && s.next.bitCnt == 0 && s.next.byteCnt == u.byteCnt + 1
                            && s.next.parityBits == ShiftInParity(u.parityBits, x / 0x100 % 2))
  {
  }

  /**
   * What a run over the Miller code of `todo` leaves, `done` bits of the
   * byte being in already: the register holds all the bits, and the byte
   * is stored (its parity shifted in) once nine bits are in.
   */
  predicate ByteSoFar(u: Uart, last: int, s0: u16, done: seq<int>, todo: seq<int>, r: Reception)
  {
    var x := Reg(s0, done + todo);
    && !r.done && Ready(r.last, LastAfter(todo, last)) && r.last.shiftReg == x && r.last.posCnt == u.posCnt
    && (|done| + |todo| < 9 ==> r.written == [] && r.last.bitCnt == |done| + |todo|
                                && r.last.byteCnt == u.byteCnt && r.last.parityBits == u.parityBits)
    && (|done| + |todo| == 9 ==> r.written == [x % 0x100] && r.last.bitCnt == 0 && r.last.byteCnt == u.byteCnt + 1
                                 && r.last.parityBits == ShiftInParity(u.parityBits, x / 0x100 % 2))
  }

  /** The ninth bit of a byte, its parity, stores the byte. */
  lemma NinthBit(u: Uart, last: int, s0: u16, done: seq<int>, b: int)
    requires Ready(u, last) && |done| == 8 && (b == 0 || b == 1)
    requires u.bitCnt == 8 && u.shiftReg == Reg(s0, done)
    ensures ByteSoFar(u, last, s0, done, [b], RunSymbols(u, MillerCode([b], last)))
  {
    MillerCodeCons(b, [], last);
    DataBit(u, last, b);
    RunQuiet(Period, u, MillerSymbol(b, last), MillerCode([], b));
    RegSnoc(s0, done, b);
  }

  /**
   * The rest of a byte: from `done` bits of it received, the `todo` bits
   * push into the register; the byte is stored once nine bits are in.
   */
  lemma {:induction false} BitsInByte(u: Uart, last: int, s0: u16, done: seq<int>, todo: seq<int>)
    requires Ready(u, last) && |done| < 9 && |done| + |todo| <= 9 && AreBits(todo)
    requires u.bitCnt == |done| && u.shiftReg == Reg(s0, done)
    ensures ByteSoFar(u, last, s0, done, todo, RunSymbols(u, MillerCode(todo, last)))
    decreases |todo|
  {
    if |todo| == 0 {
      assert done + todo == done;
    } else if |done| == 8 {
      assert todo == [todo[0]];
      NinthBit(u, last, s0, done, todo[0]);
    } else {
      var b := todo[0];
      assert AreBits(todo[1..]);
      MillerCodeCons(b, todo[1..], last);
      assert [b] + todo[1..] == todo;
      DataBit(u, last, b);
      var s := Period(u, MillerSymbol(b, last));
      RunQuiet(Period, u, MillerSymbol(b, last), MillerCode(todo[1..], b));
      RegSnoc(s0, done, b);
      assert done + todo == (done + [b]) + todo[1..];
      BitsInByte(s.next, b, s0, done + [b], todo[1..]);
    }
  }

  lemma {:induction false} LastAfterIsBit(bits: seq<int>, last: int)
    requires last == 0 || last == 1
    ensures LastAfter(bits, last) == 0 || LastAfter(bits, last) == 1
    decreases |bits|
  {
    if |bits| > 0 {
      LastAfterIsBit(bits[1..], if bits[0] == 1 then 1 else 0);
    }
  }

  /** One byte and its parity bit, received whole. */
  lemma ByteReceived(u: Uart, last: int, c: byte, p: int)
    requires Ready(u, last) && u.bitCnt == 0 && u.shiftReg < 0x200 && (p == 0 || p == 1)
    ensures var bits := LsbBits(c, 8) + [p];
      var r := RunSymbols(u, MillerCode(bits, last));
      && !r.done && r.written == [c] && Ready(r.last, LastAfter(bits, last))
      && r.last.bitCnt == 0 && r.last.shiftReg < 0x200 && r.last.byteCnt == u.byteCnt + 1
      && r.last.parityBits == ShiftInParity(u.parityBits, p)
  {
    var bits := LsbBits(c, 8) + [p];
    assert AreBits(bits);
    assert [] + bits == bits;
    BitsInByte(u, last, u.shiftReg, [], bits);
    RegNine(u.shiftReg, bits);
    assert bits[..8] == LsbBits(c, 8);
    ByteRoundTrip(c);
  }

  /** A frame from byte i on: byte i, then the rest from where it left off. */
  lemma FrameSplit(u: Uart, last: int, cmd: seq<byte>, par: bv32, i: nat)
    requires i < |cmd|
    requires !RunSymbols(u, MillerCode(LsbBits(cmd[i], 8) + [WordBit(par, i)], last)).done
    ensures var byteBits := LsbBits(cmd[i], 8) + [WordBit(par, i)];
      var l1 := LastAfter(byteBits, last);
      var r1 := RunSymbols(u, MillerCode(byteBits, last));
      && RunSymbols(u, MillerCode(FrameBits(cmd, par, i), last)) == Then(r1, RunSymbols(r1.last, MillerCode(FrameBits(cmd, par, i + 1), l1)))
      && LastAfter(FrameBits(cmd, par, i), last) == LastAfter(FrameBits(cmd, par, i + 1), l1)
  {
    var byteBits := LsbBits(cmd[i], 8) + [WordBit(par, i)];
    var rest := FrameBits(cmd, par, i + 1);
    assert FrameBits(cmd, par, i) == byteBits + rest;
    MillerCodeConcat(byteBits, rest, last);
    RunConcat(Period, u, MillerCode(byteBits, last), MillerCode(rest, LastAfter(byteBits, last)));
  }

  /** The bytes of a frame from byte i on: each is stored in turn with its parity bit shifted in. */
  lemma {:induction false} FrameReceived(u: Uart, last: int, cmd: seq<byte>, par: bv32, i: nat)
    requires i <= |cmd| && Ready(u, last) && u.bitCnt == 0 && u.shiftReg < 0x200
    ensures var r := RunSymbols(u, MillerCode(FrameBits(cmd, par, i), last));
      && !r.done && r.written == cmd[i..] && Ready(r.last, LastAfter(FrameBits(cmd, par, i), last))
      && r.last.bitCnt == 0 && r.last.shiftReg < 0x200 && r.last.byteCnt == u.byteCnt + (|cmd| - i)
      && r.last.parityBits == ParityShifted(u.parityBits, par, i, |cmd|)
    decreases |cmd| - i
  {
    var bits := FrameBits(cmd, par, i);
    if i == |cmd| {
      assert bits == [];
    } else {
      var byteBits := LsbBits(cmd[i], 8) + [WordBit(par, i)];
      var rest := FrameBits(cmd, par, i + 1);
      var l1 := LastAfter(byteBits, last);
      var r1 := RunSymbols(u, MillerCode(byteBits, last));
      ByteReceived(u, last, cmd[i], WordBit(par, i));
      FrameSplit(u, last, cmd, par, i);
      FrameReceived(r1.last, l1, cmd, par, i + 1);
      assert cmd[i..] == [cmd[i]] + cmd[i + 1..];
    }
  }

  /**
   * End of communication (a logic 0, then Y): the decoder returns TRUE
   * exactly when at least one byte has been stored, and stores nothing more.
   */
  lemma EndReceived(u: Uart, last: int)
    requires Ready(u, last) && u.bitCnt == 0
    ensures var r := RunSymbols(u, EndOfCommunication(last));
      && r.written == [] && (r.done <==> u.byteCnt > 0)
      && r.last.byteCnt == u.byteCnt && r.last.parityBits == u.parityBits
  {
    var e := EndOfCommunication(last);
    assert e[0] == MillerSymbol(0, last);
    DataBit(u, last, 0);
    var s := PeriodEnd(u.(drop := DropOfSymbol(e[0])));
    var e1 := e[1..];
    var s2 := PeriodEnd(s.next.(drop := DropOfSymbol(e1[0])));
    assert s2.write.None? && s2.next.state == Unsyncd && (s2.done <==> u.byteCnt > 0);
    assert s2.next.byteCnt == u.byteCnt && s2.next.parityBits == u.parityBits;
    assert RunSymbols(s2.next, e1[1..]) == Reception(s2.next, [], false);
    assert RunSymbols(s.next, e1) == Reception(s2.next, [], s2.done);
  }

  /** The start of communication (a Z) moves the decoder into a frame, register cleared. */
  lemma StartReceived(u: Uart)
    requires u.state == StartOfCommunication && u.bitCnt == 0
    ensures var r := RunSymbols(u, [SeqZ]);
      && !r.done && r.written == [] && Ready(r.last, 0) && r.last.bitCnt == 0 && r.last.shiftReg == 0
      && r.last.byteCnt == u.byteCnt && r.last.parityBits == u.parityBits
  {
    var s := PeriodEnd(u.(drop := DropOfSymbol(SeqZ)));
    assert s.next.state == MillerZ && !s.done && s.write.None?;
    assert RunSymbols(s.next, [SeqZ][1..]) == Reception(s.next, [], false);
  }

  /** The start Z and the frame bits of a reader frame. */
  lemma FrameBodyReceived(u: Uart, cmd: seq<byte>, par: bv32)
    requires u.state == StartOfCommunication && u.bitCnt == 0 && u.byteCnt == 0 && u.parityBits == 0
    ensures var bits := FrameBits(cmd, par, 0);
      var r := RunSymbols(u, [SeqZ] + MillerCode(bits, 0));
      && !r.done && r.written == cmd && Ready(r.last, LastAfter(bits, 0)) && r.last.bitCnt == 0
      && r.last.byteCnt == |cmd| && r.last.parityBits == ParityShifted(0, par, 0, |cmd|)
  {
    var bits := FrameBits(cmd, par, 0);
    StartReceived(u);
    var r0 := RunSymbols(u, [SeqZ]);
    RunConcat(Period, u, [SeqZ], MillerCode(bits, 0));
    FrameReceived(r0.last, 0, cmd, par, 0);
    var r1 := RunSymbols(r0.last, MillerCode(bits, 0));
    assert RunSymbols(u, [SeqZ] + MillerCode(bits, 0)) == Then(r0, r1);
    assert cmd[0..] == cmd;
    assert r1.written == cmd;
    assert [] + cmd == cmd;
  }

  /**
   * A reader frame of n bytes, received from the start of communication:
   * the decoder stores the n bytes in order, shifts in their parity bits
   * one by one, and returns TRUE at the end iff n > 0.
   */
  lemma ReaderFrameReceived(u: Uart, cmd: seq<byte>, par: bv32)
    requires u.state == StartOfCommunication && u.bitCnt == 0 && u.byteCnt == 0 && u.parityBits == 0
    ensures var r := RunSymbols(u, ReaderFrame(cmd, par));
      && (r.done <==> |cmd| > 0)
      && r.written == cmd
      && r.last.byteCnt == |cmd|
      && r.last.parityBits == ParityShifted(0, par, 0, |cmd|)
  {
    var bits := FrameBits(cmd, par, 0);
    var head := [SeqZ] + MillerCode(bits, 0);
    var end := EndOfCommunication(LastAfter(bits, 0));
    assert ReaderFrame(cmd, par) == head + end;
    FrameBodyReceived(u, cmd, par);
    var r1 := RunSymbols(u, head);
    LastAfterIsBit(bits, 0);
    RunConcat(Period, u, head, end);
    EndReceived(r1.last, LastAfter(bits, 0));
    assert r1.written + [] == r1.written;
  }

  /** A trailing 0 does not change a value read least significant bit first. */
  lemma {:induction false} LsbValueTrailingZero(bits: seq<int>)
    ensures LsbValue(bits + [0]) == LsbValue(bits)
    decreases |bits|
  {
    if |bits| == 0 {
      assert LsbValue([0]) == 0 + 2 * LsbValue([]);
    } else {
      assert (bits + [0])[1..] == bits[1..] + [0];
      LsbValueTrailingZero(bits[1..]);
    }
  }

  /** A short frame is its seven bits and the logic 0 that opens its end, then four Y. */
  lemma ShortFrameSplit(bt: byte)
    ensures var b8 := LsbBits(bt, 7) + [0];
      && ShortFrame(bt) == [SeqZ] + MillerCode(b8, 0) + [SeqY, SeqY, SeqY, SeqY]
      && LastAfter(b8, 0) == 0
  {
    var bits := LsbBits(bt, 7);
    var l := LastAfter(bits, 0);
    LastAfterIsBit(bits, 0);
    MillerCodeConcat(bits, [0], 0);
    assert MillerCode([0], l) == [MillerSymbol(0, l)];
    assert LastAfter([0], l) == 0;
  }

  /**
   * Seven data bits and a logic 0 after the start: eight bits in the
   * register, nothing stored yet.
   */
  lemma ShortBodyReceived(u: Uart, bt: byte)
    requires u.state == StartOfCommunication && u.bitCnt == 0
    ensures var b8 := LsbBits(bt, 7) + [0];
      var r := RunSymbols(u, [SeqZ] + MillerCode(b8, 0));
      && !r.done && r.written == [] && Ready(r.last, 0) && r.last.bitCnt == 8 && r.last.shiftReg == Reg(0, b8)
      && r.last.byteCnt == u.byteCnt && r.last.parityBits == u.parityBits
  {
    var b8 := LsbBits(bt, 7) + [0];
    ShortFrameSplit(bt);
    StartReceived(u);
    var r0 := RunSymbols(u, [SeqZ]);
    RunConcat(Period, u, [SeqZ], MillerCode(b8, 0));
    assert AreBits(b8);
    assert [] + b8 == b8;
    BitsInByte(r0.last, 0, 0, [], b8);
  }

  /**
   * A Y after a logic 0 is the end of communication; with eight bits in
   * the register it makes a ninth, and the byte is stored and reported.
   */
  lemma ShortEndReceived(u: Uart)
    requires Ready(u, 0) && u.bitCnt == 8
    ensures var r := RunSymbols(u, [SeqY, SeqY, SeqY, SeqY]);
      var x := Push(u.shiftReg, 0);
      && r.done && r.written == [x % 0x100] && r.last.byteCnt == u.byteCnt + 1
      && r.last.parityBits == ShiftInParity(u.parityBits, x / 0x100 % 2)
  {
    var s := Period(u, SeqY);
    assert s.done && s.write == Some(Push(u.shiftReg, 0) % 0x100);
  }

  /**
   * A short frame (REQA, WUPA): the decoder stores one byte, the seven
   * bits of the command with bit 7 clear, shifts in a 0 as its parity,
   * and returns TRUE.
   */
  lemma ShortFrameReceived(u: Uart, bt: byte)
    requires u.state == StartOfCommunication && u.bitCnt == 0
    ensures var r := RunSymbols(u, ShortFrame(bt));
      && r.done && r.written == [bt % 128] && r.last.byteCnt == u.byteCnt + 1
      && r.last.parityBits == ShiftInParity(u.parityBits, 0)
  {
    var bits := LsbBits(bt, 7);
    var b8 := bits + [0];
    var head := [SeqZ] + MillerCode(b8, 0);
    ShortFrameSplit(bt);
    ShortBodyReceived(u, bt);
    var r1 := RunSymbols(u, head);
    RunConcat(Period, u, head, [SeqY, SeqY, SeqY, SeqY]);
    ShortEndReceived(r1.last);
    ShortByte(bt);
  }

  /** The ninth push of a short frame's register leaves the command's seven bits and a 0 above them. */
  lemma ShortByte(bt: byte)
    ensures var x := Push(Reg(0, LsbBits(bt, 7) + [0]), 0);
      x % 0x100 == bt % 128 && x / 0x100 % 2 == 0
  {
    var bits := LsbBits(bt, 7);
    var b8 := bits + [0];
    RegSnoc(0, b8, 0);
    assert AreBits(b8 + [0]);
    RegNine(0, b8 + [0]);
    assert (b8 + [0])[..8] == b8;
    LsbValueTrailingZero(bits);
    assert Pow2(7) == 128;
    LsbRoundTrip(bt % 128, 7);
    LsbBitsAddMultiple(bt % 128, bt / 128, 7);
  }

  /**
   * The parity bits of a received reader frame, as `parityBits` holds
   * them: bit i of `dwParity` arrives i-th, the first one ends up highest.
   */
  lemma ReaderFrameParity(u: Uart, cmd: seq<byte>, par: bv32)
    requires u.state == StartOfCommunication && u.bitCnt == 0 && u.byteCnt == 0 && u.parityBits == 0
    ensures RunSymbols(u, ReaderFrame(cmd, par)).last.parityBits == ArrivalValue(par, |cmd|) % Word32
  {
    ReaderFrameReceived(u, cmd, par);
    ParityFromStart(par, |cmd|, RunSymbols(u, ReaderFrame(cmd, par)).last.parityBits);
  }

  // --------------------------------------------------------- half periods

  /** The decoder driven one call of `Half` at a time (`true`: field up), stopping like `Run`. */
  function RunHalves(u: Uart, ups: seq<bool>): Reception
    decreases |ups|
  {
    if |ups| == 0 || u.state == Unsyncd then Reception(u, [], false)
    else
      var s := Half(u, ups[0]);
      var w := if s.write.Some? then [s.write.value] else [];
      if s.done then Reception(s.next, w, true)
      else
        var rest := RunHalves(s.next, ups[1..]);
        Reception(rest.last, w + rest.written, rest.done)
  }

  /** The field levels of the two halves of each sequence, in order. */
  function LevelsOf(syms: seq<byte>): (ups: seq<bool>)
    ensures |ups| == 2 * |syms|
  {
    if |syms| == 0 then [] else [Levels(syms[0]).0, Levels(syms[0]).1] + LevelsOf(syms[1..])
  }

  /**
   * Driving the decoder two half periods per sequence, from the start of a
   * period, is the same as driving it one period per sequence.
   */
  lemma {:induction false} HalvesMatchPeriods(u: Uart, syms: seq<byte>)
    requires u.posCnt == 0 && u.drop == DropNone
    ensures RunHalves(u, LevelsOf(syms)) == RunSymbols(u, syms)
    decreases |syms|
  {
    if |syms| > 0 && u.state != Unsyncd {
      var x := syms[0];
      var up1 := Levels(x).0;
      var up2 := Levels(x).1;
      var ups := LevelsOf(syms);
      assert ups[0] == up1 && ups[1..] == [up2] + LevelsOf(syms[1..]);
      HalfPeriods(u, up1, up2);
      var h := Half(u, up1);
      var s := Half(h.next, up2);
      assert s == Period(u, x);
      assert ([up2] + LevelsOf(syms[1..]))[1..] == LevelsOf(syms[1..]);
      if !s.done {
        HalvesMatchPeriods(s.next, syms[1..]);
      }
    }
  }

  /**
   * Right after the sync on the drop that opens a frame's start Z (still in
   * that Z's first half, or in the unit before it), the decoder driven one
   * half period at a time meets the frame as `RunSymbols` does.
   */
  lemma SyncedFrameByHalves(u: Uart, cmd: seq<byte>, par: bv32)
    requires u.state == StartOfCommunication && u.drop == DropFirstHalf && (u.posCnt == 0 || u.posCnt == 1)
    ensures var first := if u.posCnt == 1 then [true] else [false, true];
      RunHalves(u, first + LevelsOf(ReaderFrame(cmd, par)[1..]))
        == RunSymbols(u.(posCnt := 0, drop := DropNone), ReaderFrame(cmd, par))
  {
    var f := ReaderFrame(cmd, par);
    var rest := f[1..];
    var v := u.(posCnt := 0, drop := DropNone);
    assert f == [SeqZ] + rest;
    var s := Period(v, SeqZ);
    assert !s.done && s.next.posCnt == 0 && s.next.drop == DropNone;
    HalvesMatchPeriods(s.next, rest);
    RunQuiet(Period, v, SeqZ, rest);
    if u.posCnt == 1 {
      assert Half(u, true) == s;
      assert ([true] + LevelsOf(rest))[1..] == LevelsOf(rest);
    } else {
      var h := Half(u, false);
      assert h.next == u.(posCnt := 1) && !h.done && h.write.None?;
      assert Half(h.next, true) == s;
      assert ([false, true] + LevelsOf(rest))[1..] == [true] + LevelsOf(rest);
      assert ([true] + LevelsOf(rest))[1..] == LevelsOf(rest);
    }
  }

  /**
   * A reader frame of n bytes from the sync on, one half period at a time:
   * the decoder stores the n bytes in order, shifts in their parity bits,
   * and returns TRUE at the end iff n > 0.
   */
  lemma ReaderFrameAfterSync(u: Uart, bit: nat, cmd: seq<byte>, par: bv32)
    requires 1 <= bit <= 15
    ensures var v := SyncOn(u, bit);
      var first := if v.posCnt == 1 then [true] else [false, true];
      var r := RunHalves(v, first + LevelsOf(ReaderFrame(cmd, par)[1..]));
      && (r.done <==> |cmd| > 0)
      && r.written == cmd
      && r.last.parityBits == ArrivalValue(par, |cmd|) % Word32
  {
    var v := SyncOn(u, bit);
    SyncOnChoosesSyncBit(u, bit);
    SyncedFrameByHalves(v, cmd, par);
    var w := v.(posCnt := 0, drop := DropNone);
    ReaderFrameReceived(w, cmd, par);
    ReaderFrameParity(w, cmd, par);
  }

  // ------------------------------------------------------ malformed input

  /**
   * From ERROR_WAIT the decoder stores nothing and reports no frame; it
   * waits until the first period without a drop (a Y) and then falls back
   * to waiting for a sync, six field-up units counted.
   */
  lemma {:induction false} ErrorWaitRun(u: Uart, syms: seq<byte>)
    requires u.state == ErrorWait && u.bitCnt != 9
    ensures var r := RunSymbols(u, syms);
      && !r.done && r.written == [] && r.last.byteCnt == u.byteCnt
      && ((exists i :: 0 <= i < |syms| && DropOfSymbol(syms[i]) == DropNone) ==> r.last.state == Unsyncd && r.last.highCnt == 6)
      && ((forall i :: 0 <= i < |syms| ==> DropOfSymbol(syms[i]) != DropNone) ==> r.last.state == ErrorWait)
    decreases |syms|
  {
    if |syms| > 0 {
      var s := Period(u, syms[0]);
      ErrorWaitLeaves(u.(drop := DropOfSymbol(syms[0])));
      assert !s.done && s.write.None?;
      if DropOfSymbol(syms[0]) == DropNone {
        assert s.next.state == Unsyncd && s.next.highCnt == 6;
        assert RunSymbols(s.next, syms[1..]) == Reception(s.next, [], false);
      } else {
        assert s.next == u.(drop := DropNone);
        ErrorWaitRun(s.next, syms[1..]);
        if exists i :: 0 <= i < |syms| && DropOfSymbol(syms[i]) == DropNone {
          var i :| 0 <= i < |syms| && DropOfSymbol(syms[i]) == DropNone;
          assert i > 0 && syms[1..][i - 1] == syms[i];
        }
        if forall i :: 0 <= i < |syms| ==> DropOfSymbol(syms[i]) != DropNone {
          assert forall i :: 0 <= i < |syms[1..]| ==> DropOfSymbol(syms[1..][i]) != DropNone by {
            forall i | 0 <= i < |syms[1..]| ensures DropOfSymbol(syms[1..][i]) != DropNone {
              assert syms[1..][i] == syms[i + 1];
            }
          }
        }
      }
    }
  }

  /**
   * A Z right after an X, which no reader frame contains: the decoder
   * counts no bit for it, stores nothing from there on and reports no
   * frame; it is back to waiting for a sync after the first Y.
   */
  lemma ZAfterXRun(u: Uart, rest: seq<byte>)
    requires u.state == MillerX && u.bitCnt != 9
    ensures var r := RunSymbols(u, [SeqZ] + rest);
      && !r.done && r.written == [] && r.last.byteCnt == u.byteCnt
      && ((exists i :: 0 <= i < |rest| && DropOfSymbol(rest[i]) == DropNone) ==> r.last.state == Unsyncd && r.last.highCnt == 6)
  {
    var s := Period(u, SeqZ);
    ZAfterXRejected(u.(drop := DropFirstHalf));
    assert s.next.state == ErrorWait && s.next.bitCnt == u.bitCnt && !s.done && s.write.None?;
    RunQuiet(Period, u, SeqZ, rest);
    ErrorWaitRun(s.next, rest);
  }

  /** No field in both halves of a period inside a frame: ERROR_WAIT, nothing stored, the bit count kept. */
  lemma BothHalvesStep(u: Uart, ups: seq<bool>)
    requires u.state != Unsyncd && u.posCnt == 0 && u.drop == DropNone && u.bitCnt != 9
    ensures var s := Half(Half(u, false).next, false);
      && s.next.state == ErrorWait && s.next.posCnt == 0 && s.next.drop == DropNone
      && s.next.bitCnt == u.bitCnt && s.next.byteCnt == u.byteCnt
      && RunHalves(u, [false, false] + ups) == RunHalves(s.next, ups)
  {
    var h := Half(u, false);
    assert h.next == u.(posCnt := 1, drop := DropFirstHalf) && !h.done && h.write.None?;
    BothHalvesDropped(h.next);
    var s := Half(h.next, false);
    assert s.write.None?;
    assert ([false, false] + ups)[1..] == [false] + ups;
    assert ([false] + ups)[1..] == ups;
  }

  /**
   * A period with no field in both halves, inside a frame: the decoder
   * stores nothing from there on and reports no frame; it is back to
   * waiting for a sync after the first period without a drop.
   */
  lemma BothHalvesRun(u: Uart, syms: seq<byte>)
    requires u.state != Unsyncd && u.posCnt == 0 && u.drop == DropNone && u.bitCnt != 9
    ensures var r := RunHalves(u, [false, false] + LevelsOf(syms));
      && !r.done && r.written == [] && r.last.byteCnt == u.byteCnt
      && ((exists i :: 0 <= i < |syms| && DropOfSymbol(syms[i]) == DropNone) ==> r.last.state == Unsyncd && r.last.highCnt == 6)
  {
    BothHalvesStep(u, LevelsOf(syms));
    var s := Half(Half(u, false).next, false);
    HalvesMatchPeriods(s.next, syms);
    ErrorWaitRun(s.next, syms);
  }
}
