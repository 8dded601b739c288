/**
 * The demodulator that receives tag answers (armsrc/iso14443a.c, the
 * `Demod` struct and `ManchesterDecoding`). It is called once per 4-bit
 * sample unit of the subcarrier detector, one unit behind: it keeps the
 * unit it was last given in `buffer` and classifies the previous one.
 * Each half bit period is modulated or not; a period modulated in its
 * first half is a D (logic 1), in its second half an E (logic 0), and an
 * unmodulated F ends the frame. Bits go into a nine-bit register that
 * yields one byte plus parity every nine bits; a frame may end inside a
 * byte, whose bits are then stored on their own.
 *
 * Besides the bytes it stores, the C code writes marker values
 * (0xfa, 0xaa, 0xab, 0xad, 0xdd) at `output[len]` without advancing
 * `len`; they are modelled as stores at the same place.
 */
module ManchesterDecoder {
  import opened Bits
  import opened Framing

  datatype DemodState = DemodUnsyncd | DemodStartOfCommunication | ManchesterD | ManchesterE | ManchesterF | DemodErrorWait

  /** Which half of the current bit period carried the subcarrier. */
  datatype Sub = SubNone | SubFirstHalf | SubSecondHalf

  /** The values `syncBit` takes: zero before any sync, else one bit of a sample unit. */
  type SyncMask = x: int | x == 0 || x == 1 || x == 2 || x == 4 || x == 8

  /**
   * `bitCount` as it stands between calls: the C code resets it in the
   * call that brings it to nine.
   */
  type BitCount = x: int | 0 <= x < 9

  /** The fields of `Demod` that `ManchesterDecoding` reads or writes. */
  datatype Demod = Demod(
    state: DemodState,
    bitCount: BitCount,
    posCount: int,
    syncBit: SyncMask,
    parityBits: word,
    shiftReg: u16,
    buffer: nibble,
    buff: int,
    samples: int,
    len: int,
    sub: Sub)

  /** The effect of one call: the new fields, the value written at `output[len]` if any, the return value. */
  datatype DemodStep = DemodStep(next: Demod, write: Option<byte>, done: bool)

  /** Marker written on every call while unsynchronised. */
  const MarkUnsyncd: byte := 0xfa
  /** Marker for a period modulated in both halves. */
  const MarkBothHalves: byte := 0xaa
  /** Marker for a start bit that is not a D. */
  const MarkNoStart: byte := 0xab
  /** Marker for a frame that ends before any bit. */
  const MarkEmpty: byte := 0xad
  /** Marker for a state the switch does not expect. */
  const MarkBadState: byte := 0xdd

  /** `shiftReg ^ 0x100` on a 16-bit register. */
  function ToggleBit8(x: u16): u16
  {
    if x / 0x100 % 2 == 1 then x - 0x100 else x + 0x100
  }

  /**
   * The sync search on the unit `bit` (set bits are modulated samples).
   * Bit 3 is tried first; each lower set bit replaces the choice, but when
   * one was already chosen the unit is shifted left first, so that the
   * bits below it no longer count. Bit 0 counts only after another.
   */
  function SearchSync(bit: nibble): SyncMask
  {
    var s0 := Mask(bit, 8);
    var b1 := if Mask(bit, 4) != 0 && s0 != 0 then 16 * bit else bit;
    var s1 := if Mask(bit, 4) != 0 then 4 else s0;
    var b2 := if Mask(b1, 2) != 0 && s1 != 0 then 4 * b1 else b1;
    var s2 := if Mask(b1, 2) != 0 then 2 else s1;
    if Mask(b2, 1) != 0 && s2 != 0 then 1 else s2
  }

  /** The `samples` the `switch (Demod.syncBit)` assigns after a sync. */
  function SyncSamples(s: SyncMask): int
  {
    if s == 8 then 3 else if s == 4 then 2 else if s == 2 then 1 else 0
  }

  /** The unsynchronised branch, on the previous unit `bit`. */
  function Unsynced(d: Demod, bit: nibble): DemodStep
  {
    var s := SearchSync(bit);
    var d1 := d.(syncBit := s, posCount := 1);
    var next :=
      if s == 0 then d1
      else d1.(len := 0, state := DemodStartOfCommunication, sub := SubFirstHalf, bitCount := 0,
               shiftReg := 0, parityBits := 0, samples := SyncSamples(s));
    DemodStep(next, Some(MarkUnsyncd), false)
  }

  /**
   * `((bit << 1) ^ ((buffer & 0x08) >> 3)) & syncBit`: the sample one
   * position below the sync bit, where the one below bit 0 is bit 3 of
   * the next unit `v`.
   */
  predicate Modulated(bit: nibble, v: nibble, syncBit: SyncMask)
  {
    var x := 2 * bit + v / 8 % 2;
    syncBit != 0 && Mask(x, syncBit) != 0
  }

  /**
   * A D or E period in the switch, followed by the `bitCount >= 9`
   * check, which only these periods can reach: the bit is shifted in and
   * the ninth one stores the byte and shifts its parity into `parityBits`.
   */
  function DataPeriod(d: Demod): DemodStep
  {
    if d.sub == SubNone then DemodStep(d.(state := ManchesterF), None, false)
    else
      var x := if d.sub == SubFirstHalf then ToggleBit8(ShiftRight(d.shiftReg)) else ShiftRight(d.shiftReg);
      var st := if d.sub == SubFirstHalf then ManchesterD else ManchesterE;
      if d.bitCount + 1 < 9 then DemodStep(d.(bitCount := d.bitCount + 1, shiftReg := x, state := st), None, false)
      else
        DemodStep(d.(state := st, len := d.len + 1, parityBits := ShiftInParity(d.parityBits, x / 0x100 % 2),
                     bitCount := 0, shiftReg := 0), Some(x % 0x100), false)
  }

  /**
   * The period after an F: the frame ends if anything was received, and
   * the bits of an incomplete byte are stored with a 0 as their parity.
   */
  function FrameEnd(d: Demod): DemodStep
  {
    if d.len > 0 || d.bitCount > 0 then
      if d.bitCount > 0 then
        var x := d.shiftReg / Pow2(9 - d.bitCount);
        DemodStep(d.(shiftReg := x, len := d.len + 1, parityBits := ShiftInParity(d.parityBits, 0), state := DemodUnsyncd),
                  Some(x % 0x100), true)
      else DemodStep(d.(state := DemodUnsyncd), None, true)
    else DemodStep(d.(state := DemodErrorWait), Some(MarkEmpty), false)
  }

  /** The `switch (Demod.state)` at the end of a bit period. */
  function Switch(d: Demod): DemodStep
  {
    match d.state
    case DemodStartOfCommunication =>
      if d.sub == SubFirstHalf then DemodStep(d.(state := ManchesterD), None, false)
      else DemodStep(d.(state := DemodErrorWait), Some(MarkNoStart), false)
    case ManchesterD => DataPeriod(d)
    case ManchesterE => DataPeriod(d)
    case ManchesterF => FrameEnd(d)
    case DemodErrorWait => DemodStep(d.(state := DemodUnsyncd), None, false)
    case DemodUnsyncd => DemodStep(d.(state := DemodUnsyncd), Some(MarkBadState), false)
  }

  /** The second half of a period: modulation in both halves is an error. */
  function SecondHalf(d: Demod, modulated: bool): (Demod, Option<byte>)
  {
    if modulated && d.sub == SubFirstHalf then
      if d.state != DemodErrorWait then (d.(state := DemodErrorWait), Some(MarkBothHalves)) else (d, None)
    else if modulated then (d.(sub := SubSecondHalf), None)
    else (d, None)
  }

  /** The synchronised branch: one half bit period, modulated or not. */
  function HalfPeriod(d: Demod, modulated: bool): DemodStep
  {
    var d1 := d.(samples := d.samples + 4);
    if d1.posCount == 0 then
      DemodStep(d1.(posCount := 1, sub := if modulated then SubFirstHalf else SubNone), None, false)
    else
      var (d2, mark) := SecondHalf(d1.(posCount := 0), modulated);
      var s := Switch(d2);
      DemodStep(s.next, if s.write.Some? then s.write else mark, s.done)
  }

  /** `ManchesterDecoding(v)`: one 4-bit sample unit. */
  function ManchesterNext(d: Demod, v: nibble): (r: DemodStep)
    ensures r.write.Some? && r.next.len != d.len ==> r.next.len == d.len + 1 || r.next.len == 0
  {
    if d.buff == 0 then DemodStep(d.(buff := 1, buffer := v), None, false)
    else
      var bit := d.buffer;
      var d1 := d.(buffer := v);
      if d1.state == DemodUnsyncd then Unsynced(d1, bit)
      else HalfPeriod(d1, Modulated(bit, v, d1.syncBit))
  }

  // ---------------------------------------------------------- properties

  /**
   * The sync search finds a modulated sample exactly when the unit has a
   * set bit above bit 0, and the sample it picks is one of the set bits.
   */
  lemma SearchSyncFindsSetBit(bit: nibble)
    ensures (SearchSync(bit) == 0) <==> bit < 2
    ensures SearchSync(bit) != 0 ==> Mask(bit, SearchSync(bit)) != 0
  {
    var s0 := Mask(bit, 8);
    var s1 := if Mask(bit, 4) != 0 then 4 else s0;
    if bit >= 2 {
      assert Mask(bit, 8) != 0 || Mask(bit, 4) != 0 || Mask(bit, 2) != 0;
    }
  }

  /**
   * The counter after a sync: the number of samples of the sync unit that
   * lie after the sync bit.
   */
  lemma SyncSamplesBelow(s: SyncMask)
    requires s != 0
    ensures SyncSamples(s) == (if s == 8 then 3 else if s == 4 then 2 else if s == 2 then 1 else 0)
    ensures Pow2(SyncSamples(s)) == s
  {
  }

  /**
   * Modulation in both halves of a period: the decoder gives the frame up
   * through ERROR_WAIT, which the switch leaves in the same call, so it is
   * back to waiting for a sync; nothing is stored, only the 0xaa marker is
   * written at `len` (not when it was already in ERROR_WAIT).
   */
  lemma BothHalvesModulated(d: Demod)
    requires d.state != DemodUnsyncd && d.posCount == 1 && d.sub == SubFirstHalf
    ensures var s := HalfPeriod(d, true);
      && s.next.state == DemodUnsyncd && !s.done
      && s.next.len == d.len && s.next.bitCount == d.bitCount && s.next.parityBits == d.parityBits
      && s.write == (if d.state == DemodErrorWait then None else Some(MarkBothHalves))
  {
  }

  /** A start bit that is not a D: ERROR_WAIT, with the 0xab marker and nothing stored. */
  lemma StartNotD(d: Demod, modulated: bool)
    requires d.state == DemodStartOfCommunication && d.posCount == 1 && d.sub != SubFirstHalf
    ensures var s := HalfPeriod(d, modulated);
      && s.next.state == DemodErrorWait && s.write == Some(MarkNoStart) && !s.done && s.next.len == d.len
  {
  }

  /**
   * The period after an F ends the frame exactly when something was
   * received; an F with nothing before it is an error: ERROR_WAIT, the
   * 0xad marker, and no frame.
   */
  lemma FrameEndOutcome(d: Demod)
    ensures var s := FrameEnd(d);
      && (s.done <==> d.len > 0 || d.bitCount > 0)
      && (s.done ==> s.next.state == DemodUnsyncd)
      && (!s.done ==> s.next.state == DemodErrorWait && s.write == Some(MarkEmpty) && s.next.len == d.len)
  {
  }

  /** ERROR_WAIT lasts one period: whatever it carries, the decoder then waits for a sync, storing nothing. */
  lemma ErrorWaitOnePeriod(d: Demod, modulated: bool)
    requires d.state == DemodErrorWait && d.posCount == 1
    ensures var s := HalfPeriod(d, modulated);
      && s.next.state == DemodUnsyncd && s.write.None? && !s.done && s.next.len == d.len
  {
  }

  /** The call with effect r took the fields to `after`, returned `done` and wrote r's value at `len`. */
  predicate Performed(r: DemodStep, before: Demod, after: Demod, done: bool, out0: seq<byte>, out1: seq<byte>)
  {
    && after == r.next
    && done == r.done
    && (r.write.None? ==> out1 == out0)
    && (r.write.Some? ==> 0 <= before.len < |out0| && out1 == out0[before.len := r.write.value])
  }

  /** The global `Demod` struct together with the buffer it stores bytes into. */
  class DemodDecoder {
    var state: DemodState
    var bitCount: BitCount
    var posCount: int
    var syncBit: SyncMask
    var parityBits: word
    var shiftReg: u16
    var buffer: nibble
    var buff: int
    var samples: int
    var len: int
    var sub: Sub
    /** `Demod.output`. */
    const output: array<byte>

    function Snapshot(): Demod
      reads this
    {
      Demod(state, bitCount, posCount, syncBit, parityBits, shiftReg, buffer, buff, samples, len, sub)
    }

    /** The reset the callers perform before listening (the struct is otherwise zero). */
    constructor(output: array<byte>)
      ensures this.output == output
      ensures Snapshot() == Demod(DemodUnsyncd, 0, 0, 0, 0, 0, 0, 0, 0, 0, SubNone)
    {
      this.output := output;
      state := DemodUnsyncd;
      bitCount := 0;
      posCount := 0;
      syncBit := 0;
      parityBits := 0;
      shiftReg := 0;
      buffer := 0;
      buff := 0;
      samples := 0;
      len := 0;
      sub := SubNone;
    }

    /**
     * `ManchesterDecoding`. The source never checks `len` against the
     * buffer, so every write must fall inside it.
     */
    method ManchesterDecoding(v: nibble) returns (done: bool)
      requires ManchesterNext(Snapshot(), v).write.Some? ==> 0 <= len < output.Length
      modifies this, output
      ensures Performed(ManchesterNext(old(Snapshot()), v), old(Snapshot()), Snapshot(), done, old(output[..]), output[..])
    {
      if buff == 0 {
        buff := 1;
        buffer := v;
        return false;
      }
      var bit := buffer;
      buffer := v;
      if state == DemodUnsyncd {
        Synchronise(bit);
        return false;
      }
      var modulation := Modulated(bit, buffer, syncBit);
      done := Half(modulation);
    }

    /** The unsynchronised branch: look for the sync bit in the previous unit. */
    method Synchronise(bit: nibble)
      requires 0 <= len < output.Length
      modifies this, output
      ensures Performed(Unsynced(old(Snapshot()), bit), old(Snapshot()), Snapshot(), false, old(output[..]), output[..])
    {
      output[len] := MarkUnsyncd;
      posCount := 1;
      FindSync(bit);
      if syncBit != 0 {
        len := 0;
        state := DemodStartOfCommunication;
        sub := SubFirstHalf;
        bitCount := 0;
        shiftReg := 0;
        parityBits := 0;
        samples := SyncSamples(syncBit);
      }
    }

    /** The `if (bit & ...)` chain that picks the sync bit. */
    method FindSync(bit: nibble)
      modifies this
      ensures Snapshot() == old(Snapshot()).(syncBit := SearchSync(bit))
    {
      syncBit := 0;
      if Mask(bit, 8) != 0 {
        syncBit := 8;
      }
      var b: nat := bit;
      if Mask(b, 4) != 0 {
        if syncBit != 0 {
          b := 16 * b;
        }
        syncBit := 4;
      }
      if Mask(b, 2) != 0 {
        if syncBit != 0 {
          b := 4 * b;
        }
        syncBit := 2;
      }
      if Mask(b, 1) != 0 && syncBit != 0 {
        syncBit := 1;
      }
    }

    /** The synchronised branch: one half bit period. */
    method Half(modulation: bool) returns (done: bool)
      requires HalfPeriod(Snapshot(), modulation).write.Some? ==> 0 <= len < output.Length
      modifies this, output
      ensures Performed(HalfPeriod(old(Snapshot()), modulation), old(Snapshot()), Snapshot(), done, old(output[..]), output[..])
    {
      samples := samples + 4;
      if posCount == 0 {
        posCount := 1;
        if modulation {
          sub := SubFirstHalf;
        } else {
          sub := SubNone;
        }
        return false;
      }
      posCount := 0;
      if modulation && sub == SubFirstHalf {
        if state != DemodErrorWait {
          state := DemodErrorWait;
          output[len] := MarkBothHalves;
        }
      } else if modulation {
        sub := SubSecondHalf;
      }
      done := EndPeriod();
    }

    /** The `switch (Demod.state)` and the byte store after it. */
    method EndPeriod() returns (done: bool)
      requires Switch(Snapshot()).write.Some? ==> 0 <= len < output.Length
      modifies this, output
      ensures Performed(Switch(old(Snapshot())), old(Snapshot()), Snapshot(), done, old(output[..]), output[..])
    {
      done := false;
      match state {
        case DemodStartOfCommunication =>
          if sub == SubFirstHalf {
            state := ManchesterD;
          } else {
            output[len] := MarkNoStart;
            state := DemodErrorWait;
          }
        case ManchesterD =>
          Data();
        case ManchesterE =>
          Data();
        case ManchesterF =>
          done := End();
        case DemodErrorWait =>
          state := DemodUnsyncd;
        case DemodUnsyncd =>
          output[len] := MarkBadState;
          state := DemodUnsyncd;
      }
    }

    /** A D or E period: shift the bit in; the ninth stores the byte. */
    method Data()
      requires DataPeriod(Snapshot()).write.Some? ==> 0 <= len < output.Length
      modifies this, output
      ensures Performed(DataPeriod(old(Snapshot())), old(Snapshot()), Snapshot(), false, old(output[..]), output[..])
    {
      if sub == SubNone {
        state := ManchesterF;
        return;
      }
      var count := bitCount + 1;
      if sub == SubFirstHalf {
        shiftReg := ToggleBit8(ShiftRight(shiftReg));
        state := ManchesterD;
      } else {
        shiftReg := ShiftRight(shiftReg);
        state := ManchesterE;
      }
      if count < 9 {
        bitCount := count;
        return;
      }
      output[len] := shiftReg % 0x100;
      len := len + 1;
      parityBits := ShiftInParity(parityBits, shiftReg / 0x100 % 2);
      bitCount := 0;
      shiftReg := 0;
    }

    /** The period after an F: end of the answer. */
    method End() returns (done: bool)
      requires FrameEnd(Snapshot()).write.Some? ==> 0 <= len < output.Length
      modifies this, output
      ensures Performed(FrameEnd(old(Snapshot())), old(Snapshot()), Snapshot(), done, old(output[..]), output[..])
    {
      if len > 0 || bitCount > 0 {
        if bitCount > 0 {
          shiftReg := shiftReg / Pow2(9 - bitCount);
          output[len] := shiftReg % 0x100;
          len := len + 1;
          parityBits := ShiftInParity(parityBits, 0);
        }
        state := DemodUnsyncd;
        return true;
      }
      output[len] := MarkEmpty;
      state := DemodErrorWait;
      return false;
    }
  }
}
