/**
 * What the Manchester demodulator makes of the tag encoders' output,
 * half bit period by half bit period: a D is modulated in its first
 * half, an E in its second, an F in neither. The decoder synchronises in
 * the first half of the start bit D (on samples, which this model does
 * not follow); from there each frame the tag encoders produce is decoded
 * back into the bytes and parity bits it was built from.
 */
module ManchesterReception {
  import opened Bits
  import opened Framing
  import opened Encoders
  import opened ManchesterDecoder

  /** Whether the subcarrier is on in the first and in the second half of a period carrying `sym`. */
  function TagLevels(sym: byte): (bool, bool)
  {
    (sym / 0x10 != 0, sym % 0x10 != 0)
  }

  /** The half periods of a run of sequences, as the decoder sees them. */
  function Halves(syms: seq<byte>): (ms: seq<bool>)
    ensures |ms| == 2 * |syms|
    decreases |syms|
  {
    if |syms| == 0 then [] else [TagLevels(syms[0]).0, TagLevels(syms[0]).1] + Halves(syms[1..])
  }

  lemma {:induction false} HalvesConcat(a: seq<byte>, b: seq<byte>)
    ensures Halves(a + b) == Halves(a) + Halves(b)
    decreases |a|
  {
    if |a| == 0 {
      assert a + b == b;
    } else {
      assert (a + b)[1..] == a[1..] + b;
      HalvesConcat(a[1..], b);
    }
  }

  lemma HalvesCons(x: byte, r: seq<byte>)
    ensures Halves([x] + r) == [TagLevels(x).0, TagLevels(x).1] + Halves(r)
  {
    assert ([x] + r)[1..] == r;
  }

  /** The bytes the decoder stores, the return value, and where it stopped. */
  datatype Answer = Answer(last: Demod, stored: seq<byte>, done: bool)

  /** What a call stored: a write that advanced `len` (the markers do not). */
  function Stored(d: Demod, s: DemodStep): seq<byte>
  {
    if s.write.Some? && s.next.len == d.len + 1 then [s.write.value] else []
  }

  /**
   * Run a decoder step once per half period, stopping when it returns TRUE
   * or falls back to waiting for a start of communication.
   */
  function Run(step: (Demod, bool) -> DemodStep, d: Demod, ms: seq<bool>): Answer
    decreases |ms|
  {
    if |ms| == 0 || d.state == DemodUnsyncd then Answer(d, [], false)
    else
      var s := step(d, ms[0]);
      if s.done then Answer(s.next, Stored(d, s), true)
      else
        var rest := Run(step, s.next, ms[1..]);
        Answer(rest.last, Stored(d, s) + rest.stored, rest.done)
  }

  /** The Manchester decoder run once per half period. */
  function Receive(d: Demod, ms: seq<bool>): Answer
  {
    Run(HalfPeriod, d, ms)
  }

  /** An answer followed by a later one. */
  function Then(r1: Answer, r2: Answer): Answer
  {
    Answer(r2.last, r1.stored + r2.stored, r2.done)
  }

  /** An answer after a stretch that stored nothing is that answer. */
  lemma QuietThen(d: Demod, r: Answer)
    ensures Then(Answer(d, [], false), r) == r
  {
    assert [] + r.stored == r.stored;
  }

  /** A step that does not finish leaves the rest of the run to its successor. */
  lemma RunQuiet(step: (Demod, bool) -> DemodStep, d: Demod, m: bool, rest: seq<bool>)
    requires d.state != DemodUnsyncd && !step(d, m).done
    ensures Run(step, d, [m] + rest) == Then(Answer(step(d, m).next, Stored(d, step(d, m)), false), Run(step, step(d, m).next, rest))
  {
    assert ([m] + rest)[0] == m;
    assert ([m] + rest)[1..] == rest;
  }

  /** Receiving a + b is receiving a, then b from where a left off. */
  lemma {:induction false} RunConcat(step: (Demod, bool) -> DemodStep, d: Demod, a: seq<bool>, b: seq<bool>)
    ensures Run(step, d, a).done ==> Run(step, d, a + b) == Run(step, d, a)
    ensures !Run(step, d, a).done ==> Run(step, d, a + b) == Then(Run(step, d, a), Run(step, Run(step, d, a).last, b))
    decreases |a|
  {
    if |a| == 0 {
      assert a + b == b;
    } else if d.state != DemodUnsyncd {
      assert (a + b)[0] == a[0];
      assert (a + b)[1..] == a[1..] + b;
      var s := step(d, a[0]);
      if !s.done {
        var w := Stored(d, s);
        var ra' := Run(step, s.next, a[1..]);
        assert Run(step, d, a) == Answer(ra'.last, w + ra'.stored, ra'.done);
        RunConcat(step, s.next, a[1..], b);
        var r := Run(step, s.next, a[1..] + b);
        assert Run(step, d, a + b) == Answer(r.last, w + r.stored, r.done);
        if !ra'.done {
          var rb := Run(step, ra'.last, b);
          assert w + (ra'.stored + rb.stored) == (w + ra'.stored) + rb.stored;
        }
      }
    }
  }

  // ------------------------------------------------------- the register

  /** The decoder's shift of one received bit into the nine-bit register. */
  function TagPush(x: u16, b: int): u16
  {
    if b == 1 then ToggleBit8(ShiftRight(x)) else ShiftRight(x)
  }

  /** The register after the bits have been pushed into a cleared one, the last one last. */
  function TagReg(bits: seq<int>): u16
    decreases |bits|
  {
    if |bits| == 0 then 0 else TagPush(TagReg(bits[..|bits| - 1]), bits[|bits| - 1])
  }

  /** A push into a register below 2^9, as arithmetic. */
  lemma TagPushSmall(x: u16, b: int)
    requires x < 0x200 && (b == 0 || b == 1)
    ensures TagPush(x, b) == x / 2 + 0x100 * b
  {
  }

  /** The arithmetic of one push: v * 2q halves to v * q, and the new bit adds 2^k q = 256. */
  lemma PushArith(t: int, v: int, pk: int, p9: int, q: int, b: int, l: int)
    requires t == v * p9 && p9 == 2 * q && 0 <= v < pk && pk * q == 256 && (b == 0 || b == 1) && l == v + pk * b
    ensures t < 0x200
    ensures t / 2 + 0x100 * b == l * q
  {
  }

  /** 2^k, 2^(8-k) and 2^(9-k) for k of 0..8, as literals. */
  lemma Pow2Triple(k: nat)
    requires k <= 8
    ensures Pow2(k) * Pow2(8 - k) == 256 && Pow2(9 - k) == 2 * Pow2(8 - k)
  {
    if k == 0 {
      assert Pow2(0) == 1 && Pow2(8) == 256;
    } else if k == 1 {
      assert Pow2(1) == 2 && Pow2(7) == 128;
    } else if k == 2 {
      assert Pow2(2) == 4 && Pow2(6) == 64;
    } else if k == 3 {
      assert Pow2(3) == 8 && Pow2(5) == 32;
    } else if k == 4 {
      assert Pow2(4) == 16 && Pow2(4) == 16;
    } else if k == 5 {
      assert Pow2(5) == 32 && Pow2(3) == 8;
    } else if k == 6 {
      assert Pow2(6) == 64 && Pow2(2) == 4;
    } else if k == 7 {
      assert Pow2(7) == 128 && Pow2(1) == 2;
    } else {
      assert Pow2(8) == 256 && Pow2(0) == 1;
    }
  }

  /** The value of bits scaled to the top of nine bits, one bit more. */
  lemma ScaledValueStep(p: seq<int>, b: int, t: int)
    requires |p| < 9 && AreBits(p) && (b == 0 || b == 1)
    requires t == LsbValue(p) * Pow2(9 - |p|)
    ensures t < 0x200 && t / 2 + 0x100 * b == LsbValue(p + [b]) * Pow2(8 - |p|)
  {
    var n := |p|;
    LsbValueBound(p);
    LsbValueSnoc(p, b);
    Pow2Triple(n);
    PushArith(t, LsbValue(p), Pow2(n), Pow2(9 - n), Pow2(8 - n), b, LsbValue(p + [b]));
  }

  /** One more push keeps the register at the bits' value times 2^(9-k). */
  lemma TagRegStep(p: seq<int>, b: int)
    requires |p| < 9 && AreBits(p) && (b == 0 || b == 1)
    requires TagReg(p) == LsbValue(p) * Pow2(9 - |p|)
    ensures TagReg(p + [b]) == LsbValue(p + [b]) * Pow2(8 - |p|)
  {
    ScaledValueStep(p, b, TagReg(p));
    TagRegSnoc(p, b);
    TagPushSmall(TagReg(p), b);
  }

  /**
   * k <= 9 bits pushed into the cleared register sit in its top k of nine
   * bits, the first one lowest: the register is their value times 2^(9-k).
   */
  lemma {:induction false} TagRegValue(bits: seq<int>)
    requires |bits| <= 9 && AreBits(bits)
    ensures TagReg(bits) == LsbValue(bits) * Pow2(9 - |bits|)
    decreases |bits|
  {
    var n := |bits|;
    if n > 0 {
      var p := bits[..n - 1];
      assert p + [bits[n - 1]] == bits;
      assert AreBits(p);
      TagRegValue(p);
      TagRegStep(p, bits[n - 1]);
    }
  }

  lemma TagRegSnoc(bits: seq<int>, b: int)
    ensures TagReg(bits + [b]) == TagPush(TagReg(bits), b)
  {
    assert (bits + [b])[..|bits|] == bits;
  }

  // -------------------------------------------------- periods and bytes

  /** Between bit periods inside a frame. */
  predicate InFrame(d: Demod)
  {
    d.posCount == 0 && (d.state == ManchesterD || d.state == ManchesterE)
  }

  /**
   * One data bit as D (1) or E (0): the first half stores nothing, the
   * second pushes the bit, and the ninth bit of a byte stores the byte and
   * its parity.
   */
  lemma TagDataBit(d: Demod, b: int)
    requires InFrame(d) && (b == 0 || b == 1)
    ensures var s1 := HalfPeriod(d, b == 1);
      var s2 := HalfPeriod(s1.next, b == 0);
      var x := TagPush(d.shiftReg, b);
      && !s1.done && Stored(d, s1) == [] && s1.next.state == d.state
      && !s2.done && InFrame(s2.next)
      && (d.bitCount < 8 ==> Stored(s1.next, s2) == [] && s2.next.bitCount == d.bitCount + 1 && s2.next.shiftReg == x
                             && s2.next.len == d.len && s2.next.parityBits == d.parityBits)
      && (d.bitCount == 8 ==> Stored(s1.next, s2) == [x % 0x100] && s2.next.bitCount == 0 && s2.next.shiftReg == 0
                              && s2.next.len == d.len + 1 && s2.next.parityBits == ShiftInParity(d.parityBits, x / 0x100 % 2))
  {
  }

  /** A data bit's two half periods, as a run. */
  lemma TagBitRun(d: Demod, b: int, rest: seq<bool>)
    requires InFrame(d) && (b == 0 || b == 1)
    ensures var s1 := HalfPeriod(d, b == 1);
      var s2 := HalfPeriod(s1.next, b == 0);
      Receive(d, Halves(TagCode([b])) + rest) == Then(Answer(s2.next, Stored(s1.next, s2), false), Receive(s2.next, rest))
  {
    TagDataBit(d, b);
    var s1 := HalfPeriod(d, b == 1);
    var s2 := HalfPeriod(s1.next, b == 0);
    assert TagCode([b]) == [TagSymbol(b)];
    assert Halves([TagSymbol(b)]) == [b == 1, b == 0];
    assert Halves(TagCode([b])) + rest == [b == 1] + ([b == 0] + rest);
    RunQuiet(HalfPeriod, d, b == 1, [b == 0] + rest);
    RunQuiet(HalfPeriod, s1.next, b == 0, rest);
    assert Stored(d, s1) + Stored(s1.next, s2) == Stored(s1.next, s2);
  }

  /**
   * The rest of a byte: from `done` bits of it received, the `todo` bits
   * push into the register; the byte is stored once nine bits are in.
   */
  lemma {:induction false} TagBits(d: Demod, done: seq<int>, todo: seq<int>)
    requires InFrame(d) && |done| < 9 && |done| + |todo| <= 9 && AreBits(todo)
    requires d.bitCount == |done| && d.shiftReg == TagReg(done)
    ensures var r := Receive(d, Halves(TagCode(todo)));
      var x := TagReg(done + todo);
      && !r.done && InFrame(r.last)
      && (|done| + |todo| < 9 ==> r.stored == [] && r.last.bitCount == |done| + |todo| && r.last.shiftReg == x
                                  && r.last.len == d.len && r.last.parityBits == d.parityBits)
      && (|done| + |todo| == 9 ==> r.stored == [x % 0x100] && r.last.bitCount == 0 && r.last.shiftReg == 0
                                   && r.last.len == d.len + 1 && r.last.parityBits == ShiftInParity(d.parityBits, x / 0x100 % 2))
    decreases |todo|
  {
    if |todo| == 0 {
      assert done + todo == done;
    } else if |done| == 8 {
      assert todo == [todo[0]];
      TagLastBit(d, done, todo[0]);
    } else {
      var b := todo[0];
      TagBitHead(d, done, todo);
      var s2 := HalfPeriod(HalfPeriod(d, b == 1).next, b == 0);
      assert AreBits(todo[1..]);
      assert done + todo == (done + [b]) + todo[1..];
      TagBits(s2.next, done + [b], todo[1..]);
    }
  }

  /** One bit of a byte before its ninth: pushed into the register, nothing stored, the rest of the run after it. */
  lemma TagBitHead(d: Demod, done: seq<int>, todo: seq<int>)
    requires InFrame(d) && |done| < 8 && |todo| > 0 && AreBits(todo)
    requires d.bitCount == |done| && d.shiftReg == TagReg(done)
    ensures var b := todo[0];
      var s2 := HalfPeriod(HalfPeriod(d, b == 1).next, b == 0);
      && Receive(d, Halves(TagCode(todo))) == Receive(s2.next, Halves(TagCode(todo[1..])))
      && InFrame(s2.next) && s2.next.bitCount == |done| + 1 && s2.next.shiftReg == TagReg(done + [b])
      && s2.next.len == d.len && s2.next.parityBits == d.parityBits
  {
    var b := todo[0];
    assert todo == [b] + todo[1..];
    TagCodeConcat([b], todo[1..]);
    HalvesConcat(TagCode([b]), TagCode(todo[1..]));
    TagDataBit(d, b);
    TagBitRun(d, b, Halves(TagCode(todo[1..])));
    var s1 := HalfPeriod(d, b == 1);
    var s2 := HalfPeriod(s1.next, b == 0);
    QuietThen(s2.next, Receive(s2.next, Halves(TagCode(todo[1..]))));
    TagRegSnoc(done, b);
  }

  /** The ninth bit of a byte stores the byte and its parity. */
  lemma TagLastBit(d: Demod, done: seq<int>, b: int)
    requires InFrame(d) && |done| == 8 && (b == 0 || b == 1)
    requires d.bitCount == 8 && d.shiftReg == TagReg(done)
    ensures var r := Receive(d, Halves(TagCode([b])));
      var x := TagReg(done + [b]);
      && !r.done && InFrame(r.last) && r.stored == [x % 0x100] && r.last.bitCount == 0 && r.last.shiftReg == 0
      && r.last.len == d.len + 1 && r.last.parityBits == ShiftInParity(d.parityBits, x / 0x100 % 2)
  {
    TagDataBit(d, b);
    TagBitRun(d, b, []);
    assert Halves(TagCode([b])) + [] == Halves(TagCode([b]));
    TagRegSnoc(done, b);
  }

  /** Nine pushed bits: the register's low byte is the byte, bit 8 its parity. */
  lemma FullByteValue(c: byte, p: int)
    requires p == 0 || p == 1
    ensures var x := TagReg(LsbBits(c, 8) + [p]);
      x % 0x100 == c && x / 0x100 % 2 == p
  {
    var bits := LsbBits(c, 8) + [p];
    assert TagReg(bits) == LsbValue(bits) by {
      assert AreBits(bits);
      TagRegValue(bits);
      assert Pow2(9 - |bits|) == 1;
    }
    assert LsbValue(bits) == c + 0x100 * p by {
      LsbValueSnoc(LsbBits(c, 8), p);
      assert Pow2(8) == 256;
      LsbRoundTrip(c, 8);
    }
    ByteAndBit8(c, p);
  }

  /** One byte and its parity bit, received whole into the cleared register. */
  lemma TagByteReceived(d: Demod, c: byte, p: int)
    requires InFrame(d) && d.bitCount == 0 && d.shiftReg == 0 && (p == 0 || p == 1)
    ensures var r := Receive(d, Halves(TagCode(LsbBits(c, 8) + [p])));
      && !r.done && InFrame(r.last) && r.stored == [c] && r.last.bitCount == 0 && r.last.shiftReg == 0
      && r.last.len == d.len + 1 && r.last.parityBits == ShiftInParity(d.parityBits, p)
  {
    var bits := LsbBits(c, 8) + [p];
    assert AreBits(bits);
    assert [] + bits == bits;
    TagBits(d, [], bits);
    FullByteValue(c, p);
  }

  /** The bytes of a frame from byte i on, each stored in turn with its parity bit shifted in. */
  lemma {:induction false} TagBytesReceived(d: Demod, cmd: seq<byte>, par: bv32, i: nat)
    requires i <= |cmd| && InFrame(d) && d.bitCount == 0 && d.shiftReg == 0
    ensures var r := Receive(d, Halves(TagCode(FrameBits(cmd, par, i))));
      && !r.done && InFrame(r.last) && r.stored == cmd[i..] && r.last.bitCount == 0
      && r.last.len == d.len + (|cmd| - i) && r.last.parityBits == ParityShifted(d.parityBits, par, i, |cmd|)
    decreases |cmd| - i
  {
    var bits := FrameBits(cmd, par, i);
    if i == |cmd| {
      assert bits == [];
    } else {
      var byteBits := LsbBits(cmd[i], 8) + [WordBit(par, i)];
      var rest := FrameBits(cmd, par, i + 1);
      assert bits == byteBits + rest;
      TagCodeConcat(byteBits, rest);
      HalvesConcat(TagCode(byteBits), TagCode(rest));
      RunConcat(HalfPeriod, d, Halves(TagCode(byteBits)), Halves(TagCode(rest)));
      TagByteReceived(d, cmd[i], WordBit(par, i));
      var r1 := Receive(d, Halves(TagCode(byteBits)));
      TagBytesReceived(r1.last, cmd, par, i + 1);
      assert cmd[i..] == [cmd[i]] + cmd[i + 1..];
    }
  }

  /** A period F inside a frame: nothing is stored and the decoder moves to state F. */
  lemma SilentRun(d: Demod, rest: seq<bool>)
    requires InFrame(d)
    ensures var e := d.(samples := d.samples + 8, posCount := 0, sub := SubNone, state := ManchesterF);
      Receive(d, [false, false] + rest) == Then(Answer(e, [], false), Receive(e, rest))
  {
    var s1 := HalfPeriod(d, false);
    assert s1.next == d.(samples := d.samples + 4, posCount := 1, sub := SubNone);
    var s2 := HalfPeriod(s1.next, false);
    assert [false, false] + rest == [false] + ([false] + rest);
    RunQuiet(HalfPeriod, d, false, [false] + rest);
    RunQuiet(HalfPeriod, s1.next, false, rest);
  }

  /** The period after an F, as a run: the decoder's frame end. */
  lemma EndRun(e: Demod)
    requires e.state == ManchesterF && e.posCount == 0 && e.sub == SubNone
    ensures var f := FrameEnd(e.(samples := e.samples + 8));
      Receive(e, [false, false]) == Answer(f.next, Stored(e, f), f.done)
  {
    var s3 := HalfPeriod(e, false);
    assert s3.next == e.(samples := e.samples + 4, posCount := 1);
    var s4 := HalfPeriod(s3.next, false);
    assert s4 == FrameEnd(e.(samples := e.samples + 8));
    RunQuiet(HalfPeriod, e, false, [false]);
    assert [false] == [false] + [];
    assert Receive(s3.next, [false]) == Answer(s4.next, Stored(s3.next, s4), s4.done);
  }

  /**
   * An F and the period after it end the answer: the decoder returns TRUE
   * exactly when something was received, storing the bits of an
   * incomplete byte (shifted down to the bottom) with a 0 as parity.
   */
  lemma TagEndReceived(d: Demod)
    requires InFrame(d)
    ensures var r := Receive(d, Halves([SeqF, SeqF]));
      && (r.done <==> d.len > 0 || d.bitCount > 0)
      && (d.bitCount > 0 ==> r.stored == [(d.shiftReg / Pow2(9 - d.bitCount)) % 0x100] && r.last.len == d.len + 1
                             && r.last.parityBits == ShiftInParity(d.parityBits, 0))
      && (d.bitCount == 0 ==> r.stored == [] && r.last.len == d.len && r.last.parityBits == d.parityBits)
      && r.last.state == (if r.done then DemodUnsyncd else DemodErrorWait) && r.last.posCount == 0
  {
    HalvesCons(SeqF, [SeqF]);
    HalvesCons(SeqF, []);
    assert Halves([SeqF, SeqF]) == [false, false] + [false, false];
    SilentRun(d, [false, false]);
    var e := d.(samples := d.samples + 8, posCount := 0, sub := SubNone, state := ManchesterF);
    EndRun(e);
  }

  // ------------------------------------------------------------ answers

  /** The state the decoder is in right after it synchronised on a start bit. */
  predicate Synced(d: Demod)
  {
    && d.state == DemodStartOfCommunication && d.posCount == 1 && d.sub == SubFirstHalf
    && d.bitCount == 0 && d.shiftReg == 0 && d.parityBits == 0 && d.len == 0
  }

  /** Synchronising on a unit with a modulated sample above bit 0 leaves the decoder `Synced`. */
  lemma SyncedAfterSync(d: Demod, bit: nibble)
    requires bit >= 2
    ensures Synced(Unsynced(d, bit).next)
  {
    SearchSyncFindsSetBit(bit);
  }

  /** The second, unmodulated half of the start bit D: the decoder is inside the frame. */
  lemma StartBitReceived(d: Demod)
    requires Synced(d)
    ensures var s := HalfPeriod(d, TagLevels(SeqD).1);
      && !s.done && Stored(d, s) == [] && InFrame(s.next) && s.next.bitCount == 0 && s.next.shiftReg == 0
      && s.next.len == 0 && s.next.parityBits == 0
  {
  }

  /**
   * The half periods of an answer after the first half of its start bit
   * (the half the decoder synchronises in), and one silent period after it.
   */
  function AfterSync(frameFromStart: seq<byte>): seq<bool>
  {
    var ms := Halves(frameFromStart + [SeqF]);
    if |ms| == 0 then [] else ms[1..]
  }

  /** An answer's start bit, then the rest of its sequences. */
  lemma AfterSyncSplit(rest: seq<byte>)
    ensures AfterSync([SeqD] + rest) == [TagLevels(SeqD).1] + Halves(rest + [SeqF])
  {
    assert [SeqD] + rest + [SeqF] == [SeqD] + (rest + [SeqF]);
    HalvesCons(SeqD, rest + [SeqF]);
  }

  /** The start bit's second half, as a run. */
  lemma StartRun(d: Demod, rest: seq<bool>)
    requires Synced(d)
    ensures var s := HalfPeriod(d, TagLevels(SeqD).1);
      Receive(d, [TagLevels(SeqD).1] + rest) == Then(Answer(s.next, [], false), Receive(s.next, rest))
  {
    StartBitReceived(d);
    RunQuiet(HalfPeriod, d, TagLevels(SeqD).1, rest);
  }

  /** A stored frame's body, then its end. */
  lemma TagFrameBodyAndEnd(d: Demod, cmd: seq<byte>, par: bv32)
    requires InFrame(d) && d.bitCount == 0 && d.shiftReg == 0 && d.len == 0 && d.parityBits == 0
    ensures var r := Receive(d, Halves(TagCode(FrameBits(cmd, par, 0)) + [SeqF, SeqF]));
      && (r.done <==> |cmd| > 0) && r.stored == cmd && r.last.len == |cmd|
      && r.last.parityBits == ParityShifted(0, par, 0, |cmd|)
  {
    var body := TagCode(FrameBits(cmd, par, 0));
    HalvesConcat(body, [SeqF, SeqF]);
    RunConcat(HalfPeriod, d, Halves(body), Halves([SeqF, SeqF]));
    TagBytesReceived(d, cmd, par, 0);
    var r1 := Receive(d, Halves(body));
    TagEndReceived(r1.last);
    assert cmd[0..] == cmd;
    assert r1.stored + [] == r1.stored;
  }

  /**
   * A tag answer of n bytes (`CodeIso14443aAsTagPar`): the decoder stores
   * the n bytes in order, shifts in their parity bits one by one, and
   * returns TRUE at the end iff n > 0.
   */
  lemma TagFrameReceived(d: Demod, correction: seq<byte>, cmd: seq<byte>, par: bv32)
    requires Synced(d)
    ensures var r := Receive(d, AfterSync(TagFrame(correction, cmd, par)[|correction|..]));
      && (r.done <==> |cmd| > 0)
      && r.stored == cmd
      && r.last.len == |cmd|
      && r.last.parityBits == ParityShifted(0, par, 0, |cmd|)
  {
    var body := TagCode(FrameBits(cmd, par, 0));
    var f := TagFrame(correction, cmd, par);
    assert f[|correction|..] == [SeqD] + (body + [SeqF]);
    AfterSyncSplit(body + [SeqF]);
    assert body + [SeqF] + [SeqF] == body + [SeqF, SeqF];
    StartRun(d, Halves(body + [SeqF, SeqF]));
    var s := HalfPeriod(d, TagLevels(SeqD).1);
    StartBitReceived(d);
    TagFrameBodyAndEnd(s.next, cmd, par);
    assert [] + Receive(s.next, Halves(body + [SeqF, SeqF])).stored == cmd;
  }

  /** The parity bits of a received tag answer: bit i of `dwParity` arrives i-th, the first ends up highest. */
  lemma TagFrameParity(d: Demod, correction: seq<byte>, cmd: seq<byte>, par: bv32)
    requires Synced(d)
    ensures Receive(d, AfterSync(TagFrame(correction, cmd, par)[|correction|..])).last.parityBits == ArrivalValue(par, |cmd|) % Word32
  {
    TagFrameReceived(d, correction, cmd, par);
    ParityFromStart(par, |cmd|, Receive(d, AfterSync(TagFrame(correction, cmd, par)[|correction|..])).last.parityBits);
  }

  /** A positive factor is at most the product. */
  lemma FactorBelow(a: int, b: int)
    requires a > 0 && b > 0
    ensures a <= a * b
  {
  }

  /** A multiple of q divided by q. */
  lemma DivExact(v: int, q: int)
    requires 0 <= v && q > 0
    ensures (v * q) / q == v
  {
    var x := v * q;
    var w := x / q;
    var r := x % q;
    assert q * w + r == q * v;
    assert q * (w - v) == -r;
    if w > v {
      FactorBelow(q, w - v);
    } else if w < v {
      FactorBelow(q, v - w);
    }
  }

  /** k of 1..8 pushed bits, shifted down by 9 - k: their value. */
  lemma PartialValue(bits: seq<int>)
    requires 1 <= |bits| <= 8 && AreBits(bits)
    ensures (TagReg(bits) / Pow2(9 - |bits|)) % 0x100 == LsbValue(bits)
  {
    var k := |bits|;
    var v := LsbValue(bits);
    TagRegValue(bits);
    assert 0 <= v < 256 by {
      LsbValueBound(bits);
      Pow2Triple(k);
      FactorBelow(Pow2(k), Pow2(8 - k));
    }
    ScaledDown(TagReg(bits), v, Pow2(9 - k));
  }

  /** A byte value scaled up by q, divided by q again, is the byte. */
  lemma ScaledDown(t: int, v: int, q: int)
    requires t == v * q && q > 0 && 0 <= v < 256
    ensures (t / q) % 0x100 == v
  {
    DivExact(v, q);
  }

  /**
   * An answer of 1..8 bits with no parity: the decoder stores their value
   * as one byte, shifts in a 0 as its parity, and returns TRUE.
   */
  lemma PartialByteReceived(d: Demod, bits: seq<int>, tail: seq<byte>)
    requires InFrame(d) && d.bitCount == 0 && d.shiftReg == 0 && 1 <= |bits| <= 8 && AreBits(bits)
    ensures var r := Receive(d, Halves(TagCode(bits) + [SeqF, SeqF] + tail));
      && r.done && r.stored == [LsbValue(bits)] && r.last.len == d.len + 1
      && r.last.parityBits == ShiftInParity(d.parityBits, 0)
  {
    var body := TagCode(bits);
    HalvesConcat(body + [SeqF, SeqF], tail);
    PartialBodyEnd(d, bits);
    RunConcat(HalfPeriod, d, Halves(body + [SeqF, SeqF]), Halves(tail));
  }

  /** The bits of a partial answer and its end, F and the period after it. */
  lemma PartialBodyEnd(d: Demod, bits: seq<int>)
    requires InFrame(d) && d.bitCount == 0 && d.shiftReg == 0 && 1 <= |bits| <= 8 && AreBits(bits)
    ensures var r := Receive(d, Halves(TagCode(bits) + [SeqF, SeqF]));
      && r.done && r.stored == [LsbValue(bits)] && r.last.len == d.len + 1
      && r.last.parityBits == ShiftInParity(d.parityBits, 0)
  {
    var body := TagCode(bits);
    HalvesConcat(body, [SeqF, SeqF]);
    assert [] + bits == bits;
    TagBits(d, [], bits);
    var r1 := Receive(d, Halves(body));
    assert r1 == Answer(r1.last, [], false);
    EndAfterBits(r1.last, bits);
    RunConcat(HalfPeriod, d, Halves(body), Halves([SeqF, SeqF]));
    QuietThen(r1.last, Receive(r1.last, Halves([SeqF, SeqF])));
  }

  /** F and the period after it, once 1..8 bits are in the register: one byte of their value. */
  lemma EndAfterBits(d: Demod, bits: seq<int>)
    requires InFrame(d) && 1 <= |bits| <= 8 && AreBits(bits)
    requires d.bitCount == |bits| && d.shiftReg == TagReg(bits)
    ensures var r := Receive(d, Halves([SeqF, SeqF]));
      && r.done && r.stored == [LsbValue(bits)] && r.last.len == d.len + 1
      && r.last.parityBits == ShiftInParity(d.parityBits, 0)
  {
    TagEndReceived(d);
    PartialValue(bits);
  }

  /** The silent sequences after a partial answer, regrouped as its end and five more. */
  lemma FlushShape(body: seq<byte>)
    ensures [SeqD] + body + [SeqF] + Flush == [SeqD] + (body + [SeqF] + Flush)
    ensures body + [SeqF] + Flush + [SeqF] == body + [SeqF, SeqF] + [SeqF, SeqF, SeqF, SeqF, SeqF]
  {
    var t := [SeqF] + Flush + [SeqF];
    assert t == [SeqF, SeqF] + [SeqF, SeqF, SeqF, SeqF, SeqF];
    assert body + [SeqF] + Flush + [SeqF] == body + t;
  }

  /** A partial answer after its start bit, regrouped: the bits, the end of the answer and five silent periods. */
  lemma PartialAnswerRun(d: Demod, bits: seq<int>)
    requires Synced(d)
    ensures var s := HalfPeriod(d, TagLevels(SeqD).1);
      Receive(d, AfterSync([SeqD] + TagCode(bits) + [SeqF] + Flush))
        == Then(Answer(s.next, [], false), Receive(s.next, Halves(TagCode(bits) + [SeqF, SeqF] + [SeqF, SeqF, SeqF, SeqF, SeqF])))
  {
    var body := TagCode(bits);
    FlushShape(body);
    AfterSyncSplit(body + [SeqF] + Flush);
    StartRun(d, Halves(body + [SeqF, SeqF] + [SeqF, SeqF, SeqF, SeqF, SeqF]));
  }

  /** After the start bit's second half, the bits, F and the flush give one byte of their value. */
  lemma PartialAfterStart(d: Demod, bits: seq<int>)
    requires Synced(d) && 1 <= |bits| <= 8 && AreBits(bits)
    ensures var s := HalfPeriod(d, TagLevels(SeqD).1);
      var r := Receive(s.next, Halves(TagCode(bits) + [SeqF, SeqF] + [SeqF, SeqF, SeqF, SeqF, SeqF]));
      && r.done && r.stored == [LsbValue(bits)] && r.last.len == 1 && r.last.parityBits == 0
  {
    var s := HalfPeriod(d, TagLevels(SeqD).1);
    StartBitReceived(d);
    PartialByteReceived(s.next, bits, [SeqF, SeqF, SeqF, SeqF, SeqF]);
    assert ShiftInParity(0, 0) == 0 by {
      assert 2 * 0 == 0;
      assert 0 % Word32 == 0;
    }
  }

  /** The partial-byte answers, after their start bit: the bits, then F and the flush. */
  lemma PartialAnswerReceived(d: Demod, bits: seq<int>)
    requires Synced(d) && 1 <= |bits| <= 8 && AreBits(bits)
    ensures var r := Receive(d, AfterSync([SeqD] + TagCode(bits) + [SeqF] + Flush));
      && r.done && r.stored == [LsbValue(bits)] && r.last.len == 1 && r.last.parityBits == 0
  {
    PartialAnswerRun(d, bits);
    PartialAfterStart(d, bits);
    var s := HalfPeriod(d, TagLevels(SeqD).1);
    QuietThen(s.next, Receive(s.next, Halves(TagCode(bits) + [SeqF, SeqF] + [SeqF, SeqF, SeqF, SeqF, SeqF])));
  }

  /** `Code4bitAnswerAsTag` (ACK, NAK): the decoder stores the low four bits of the answer. */
  lemma FourBitReceived(d: Demod, correction: seq<byte>, cmd: byte)
    requires Synced(d)
    ensures var r := Receive(d, AfterSync(FourBitFrame(correction, cmd)[|correction|..]));
      && r.done && r.stored == [cmd % 16] && r.last.len == 1 && r.last.parityBits == 0
  {
    var bits := LsbBits(cmd, 4);
    assert FourBitFrame(correction, cmd)[|correction|..] == [SeqD] + TagCode(bits) + [SeqF] + Flush;
    PartialAnswerReceived(d, bits);
    assert Pow2(4) == 16;
    LsbRoundTrip(cmd % 16, 4);
    LsbBitsAddMultiple(cmd % 16, cmd / 16, 4);
  }

  /** `CodeStrangeAnswerAsTag`: the decoder stores 0x04. */
  lemma StrangeReceived(d: Demod, correction: seq<byte>)
    requires Synced(d)
    ensures var r := Receive(d, AfterSync(StrangeFrame(correction)[|correction|..]));
      && r.done && r.stored == [0x04] && r.last.len == 1 && r.last.parityBits == 0
  {
    assert StrangeFrame(correction)[|correction|..] == [SeqD] + TagCode([0, 0, 1]) + [SeqF] + Flush;
    PartialAnswerReceived(d, [0, 0, 1]);
    assert LsbValue([0, 0, 1]) == 4 by {
      assert [0, 0, 1][1..] == [0, 1];
      assert [0, 1][1..] == [1];
      assert [1][1..] == [];
    }
  }

  // ------------------------------------------------------ malformed input

  /** From ERROR_WAIT at the start of a period, one period takes the decoder back to waiting for a sync, storing nothing. */
  lemma ErrorWaitRun(d: Demod, m1: bool, m2: bool, rest: seq<bool>)
    requires d.state == DemodErrorWait && d.posCount == 0
    ensures var r := Receive(d, [m1, m2] + rest);
      && !r.done && r.stored == [] && r.last.state == DemodUnsyncd && r.last.len == d.len
  {
    var s1 := HalfPeriod(d, m1);
    assert s1.next.state == DemodErrorWait && s1.next.posCount == 1 && s1.write.None? && !s1.done;
    ErrorWaitOnePeriod(s1.next, m2);
    var s2 := HalfPeriod(s1.next, m2);
    assert [m1, m2] + rest == [m1] + ([m2] + rest);
    RunQuiet(HalfPeriod, d, m1, [m2] + rest);
    RunQuiet(HalfPeriod, s1.next, m2, rest);
    assert Receive(s2.next, rest) == Answer(s2.next, [], false);
  }

  /**
   * A period modulated in both halves inside an answer: nothing more is
   * stored, no frame is reported, and the decoder waits for a new sync.
   */
  lemma BothHalvesRun(d: Demod, rest: seq<bool>)
    requires d.state != DemodUnsyncd && d.posCount == 0
    ensures var r := Receive(d, [true, true] + rest);
      && !r.done && r.stored == [] && r.last.state == DemodUnsyncd && r.last.len == d.len
  {
    var s1 := HalfPeriod(d, true);
    assert s1.next.posCount == 1 && s1.next.sub == SubFirstHalf && s1.write.None? && !s1.done;
    BothHalvesModulated(s1.next);
    var s2 := HalfPeriod(s1.next, true);
    assert [true, true] + rest == [true] + ([true] + rest);
    RunQuiet(HalfPeriod, d, true, [true] + rest);
    RunQuiet(HalfPeriod, s1.next, true, rest);
    assert Receive(s2.next, rest) == Answer(s2.next, [], false);
  }

  /**
   * An answer with nothing in it, an F straight after the start bit: no
   * frame is reported, nothing is stored, and after ERROR_WAIT's period the
   * decoder waits for a new sync.
   */
  lemma EmptyAnswerRejected(d: Demod, m1: bool, m2: bool)
    requires InFrame(d) && d.len == 0 && d.bitCount == 0
    ensures var r := Receive(d, Halves([SeqF, SeqF]) + [m1, m2]);
      && !r.done && r.stored == [] && r.last.state == DemodUnsyncd && r.last.len == 0
  {
    TagEndReceived(d);
    var r1 := Receive(d, Halves([SeqF, SeqF]));
    RunConcat(HalfPeriod, d, Halves([SeqF, SeqF]), [m1, m2]);
    ErrorWaitRun(r1.last, m1, m2, []);
    assert [m1, m2] + [] == [m1, m2];
  }
}
