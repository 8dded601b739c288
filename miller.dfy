/**
 * The software UART that receives reader commands (armsrc/iso14443a.c,
 * the `Uart` struct and `MillerDecoding`). It is called once per 4-bit
 * sample unit, measures each half bit period at the chosen sync bit,
 * classifies the period as X (drop in the second half), Y (no drop) or Z
 * (drop in the first half), and shifts the decoded bits into a nine-bit
 * register that yields one byte plus parity every nine bits.
 *
 * The C ints `bitBuffer` and `parityBits` are kept as their 32-bit
 * patterns (`word`); a shift left followed by `^` of a value that fits in
 * the bits the shift cleared is written as a multiplication plus an
 * addition.
 */
module MillerDecoder {
  import opened Bits

  datatype MillerState = Unsyncd | StartOfCommunication | MillerX | MillerY | MillerZ | ErrorWait

  datatype Drop = DropNone | DropFirstHalf | DropSecondHalf

  /** The fields of `Uart` that `MillerDecoding` reads or writes. */
  datatype Uart = Uart(
    state: MillerState,
    shiftReg: u16,
    bitCnt: int,
    byteCnt: int,
    posCnt: int,
    syncBit: int,
    parityBits: word,
    samples: int,
    highCnt: int,
    bitBuffer: word,
    drop: Drop)

  /** The effect of one call: the new fields, the byte stored at `output[byteCnt]` if any, the return value. */
  datatype MillerStep = MillerStep(next: Uart, write: Option<byte>, done: bool)

  /** `shiftReg |= 0x100`. */
  function SetBit8(x: u16): u16
  {
    if x / 0x100 % 2 == 1 then x else x + 0x100
  }

  /** `bitBuffer = (bitBuffer << 4) ^ bit` on a 32-bit int. */
  function ShiftInUnit(x: word, bit: nibble): word
  {
    (16 * x) % Word32 + bit
  }

  /** The masks the sync search can leave in `syncBit`. */
  predicate IsSyncBit(s: int)
  {
    s == 0x10 || s == 0x20 || s == 0x40 || s == 0x80
  }

  /**
   * `((bitBuffer << 1) & syncBit) == syncBit`: the field is up in the
   * sample one position below the sync bit. Written out for the values
   * `syncBit` takes (zero before any sync, else one of `IsSyncBit`).
   */
  predicate FieldUp(u: Uart)
  {
    var x := u.bitBuffer;
    if u.syncBit == 0x80 then x / 0x40 % 2 == 1
    else if u.syncBit == 0x40 then x / 0x20 % 2 == 1
    else if u.syncBit == 0x20 then x / 0x10 % 2 == 1
    else if u.syncBit == 0x10 then x / 0x8 % 2 == 1
    else u.syncBit == 0
  }

  /** `MillerDecoding(bit)`: one 4-bit sample unit. */
  function MillerNext(u: Uart, bit: nibble): MillerStep
  {
    if u.bitBuffer == 0 then
      MillerStep(u.(bitBuffer := 0xFF0 + bit), None, false)
    else
      Sampled(u.(bitBuffer := ShiftInUnit(u.bitBuffer, bit)))
  }

  /** What happens once the new unit is in `bitBuffer`. */
  function Sampled(u: Uart): MillerStep
  {
    if u.state != Unsyncd then Half(u, FieldUp(u))
    else MillerStep(Unsynced(u), None, false)
  }

  /**
   * One half bit period, measured with the field up or not: the first
   * half only notes a drop; the second half completes the period.
   */
  function Half(u: Uart, up: bool): MillerStep
  {
    var posCnt := u.posCnt + 1;
    if posCnt == 1 then
      MillerStep(u.(posCnt := 1, drop := if !up then DropFirstHalf else u.drop), None, false)
    else
      var drop := if !up && u.drop == DropNone then DropSecondHalf else u.drop;
      var state := if !up && u.drop != DropNone then ErrorWait else u.state;
      PeriodEnd(u.(posCnt := 0, drop := drop, state := state))
  }

  /** The state switch at the end of a bit period, with the kind of drop seen in it; also returns EOC. */
  function Transition(u: Uart): (Uart, bool)
  {
    match u.state
    case StartOfCommunication =>
      (u.(shiftReg := 0, state := if u.drop == DropSecondHalf then ErrorWait else MillerZ), false)
    case MillerZ =>
      var v := u.(bitCnt := u.bitCnt + 1, shiftReg := ShiftRight(u.shiftReg));
      if u.drop == DropNone then (v.(state := Unsyncd), true)
      else if u.drop == DropSecondHalf then (v.(shiftReg := SetBit8(v.shiftReg), state := MillerX), false)
      else (v, false)
    case MillerX =>
      var v := u.(shiftReg := ShiftRight(u.shiftReg));
      if u.drop == DropNone then (v.(state := MillerY, bitCnt := v.bitCnt + 1), false)
      else if u.drop == DropFirstHalf then (v.(state := ErrorWait), false)
      else (v.(shiftReg := SetBit8(v.shiftReg), bitCnt := v.bitCnt + 1), false)
    case MillerY =>
      var v := u.(bitCnt := u.bitCnt + 1, shiftReg := ShiftRight(u.shiftReg));
      if u.drop == DropNone then (v.(state := Unsyncd), true)
      else if u.drop == DropFirstHalf then (v.(state := MillerZ), false)
      else (v.(shiftReg := SetBit8(v.shiftReg), state := MillerX), false)
    case ErrorWait =>
      if u.drop == DropNone then (u.(highCnt := 6, state := Unsyncd), false) else (u, false)
    case Unsyncd =>
      (u.(state := Unsyncd, highCnt := 0), false)
  }

  /**
   * The end of a bit period: the switch, then a stored byte after nine
   * bits, and the return value at the end of communication.
   */
  function PeriodEnd(u: Uart): MillerStep
  {
    var (v, eoc) := Transition(u);
    var w := v.(drop := DropNone);
    if w.bitCnt == 2 && eoc && w.byteCnt > 0 then
      MillerStep(w, None, true)
    else if w.bitCnt == 9 then
      var w2 := w.(byteCnt := w.byteCnt + 1, parityBits := ShiftInParity(w.parityBits, w.shiftReg / 0x100 % 2));
      if eoc then MillerStep(w2, Some(w.shiftReg % 0x100), true)
      else MillerStep(w2.(bitCnt := 0), Some(w.shiftReg % 0x100), false)
    else
      MillerStep(w, None, false)
  }

  /**
   * While unsynchronised: count sample units with the field up (to 8), and
   * after eight of them, synchronise on the first unit with a drop.
   */
  function Unsynced(u: Uart): Uart
  {
    var bit := 15 - u.bitBuffer / 0x10 % 0x10;
    if bit != 0 then
      if u.highCnt == 8 then SyncOn(u, bit) else u.(highCnt := 0)
    else if u.highCnt < 8 then u.(highCnt := u.highCnt + 1)
    else u
  }

  /** The sync search's working values: the mask chosen so far, `samples`, the shifted unit, `posCnt`. */
  datatype SyncChoice = SyncChoice(syncBit: int, samples: int, bit: nat, posCnt: int)

  /** Bit 3 of the unit first. */
  function ChooseStart(bit: nat): SyncChoice
  {
    SyncChoice(Mask(bit, 8), 3, bit, 1)
  }

  /** Then bit 2, which wins over bit 3. */
  function ChooseHigh(c: SyncChoice): SyncChoice
  {
    if c.syncBit == 0 then c.(syncBit := Mask(c.bit, 4), samples := 2)
    else if Mask(c.bit, 4) != 0 then c.(syncBit := Mask(c.bit, 4), samples := 2, bit := 4 * c.bit)
    else c
  }

  /** Then bit 1. */
  function ChooseMiddle(c: SyncChoice): SyncChoice
  {
    if c.syncBit == 0 then c.(syncBit := Mask(c.bit, 2), samples := 1)
    else if Mask(c.bit, 2) != 0 then c.(syncBit := Mask(c.bit, 2), samples := 1, bit := 2 * c.bit)
    else c
  }

  /** Then bit 0, where a drop that began in the previous unit (`low`) moves the sync to bit 3 of that unit. */
  function ChooseLow(c: SyncChoice, low: bool): SyncChoice
  {
    if c.syncBit == 0 then
      if Mask(c.bit, 1) != 0 && low then SyncChoice(8, 3, c.bit, 0)
      else c.(syncBit := Mask(c.bit, 1), samples := 0)
    else if Mask(c.bit, 1) != 0 then c.(syncBit := Mask(c.bit, 1), samples := 0)
    else c
  }

  /** The outcome of the sync search on the unit `bit`. */
  function SearchedSync(bit: nat, low: bool): SyncChoice
  {
    ChooseLow(ChooseMiddle(ChooseHigh(ChooseStart(bit))), low)
  }

  /**
   * Choose the sync bit within the unit `bit` (set bits are dropped
   * samples) and start a frame.
   */
  function SyncOn(u: Uart, bit: nat): Uart
  {
    var c := SearchedSync(bit, Mask(u.bitBuffer, 8) != 0);
    u.(posCnt := c.posCnt, syncBit := 16 * c.syncBit, samples := c.samples, state := StartOfCommunication,
       drop := DropFirstHalf, bitCnt := 0, byteCnt := 0, parityBits := 0)
  }

  /**
   * Synchronising on a unit with at least one dropped sample (bit in
   * 1..15) always leaves one of the four sync masks, so `FieldUp` later
   * tests a real sample position, and a counter value of 0..3.
   */
  lemma SyncOnChoosesSyncBit(u: Uart, bit: nat)
    requires 1 <= bit <= 15
    ensures var v := SyncOn(u, bit);
      && IsSyncBit(v.syncBit) && 0 <= v.samples <= 3 && (v.posCnt == 0 || v.posCnt == 1)
      && v.state == StartOfCommunication && v.bitCnt == 0 && v.byteCnt == 0 && v.parityBits == 0
  {
    var c0 := ChooseStart(bit);
    var c1 := ChooseHigh(c0);
    var c2 := ChooseMiddle(c1);
    if c2.syncBit == 0 {
      assert c2.bit == bit && Mask(bit, 8) == 0 && Mask(bit, 4) == 0 && Mask(bit, 2) == 0;
      assert bit % 2 == 1;
    }
  }

  // ---------------------------------------------------------- errors

  /**
   * No field in both halves of a period never happens in Miller coding:
   * the decoder goes to ERROR_WAIT, stays there through this period's
   * switch, and returns FALSE. A byte is stored only when nine bits were
   * already counted before the period.
   */
  lemma BothHalvesDropped(u: Uart)
    requires u.state != Unsyncd && u.posCnt == 1 && u.drop != DropNone
    ensures var s := Half(u, false);
      && s.next.state == ErrorWait && !s.done && s.next.posCnt == 0 && s.next.drop == DropNone
      && (s.write.Some? <==> u.bitCnt == 9)
      && s.next.byteCnt == (if u.bitCnt == 9 then u.byteCnt + 1 else u.byteCnt)
  {
  }

  /** The start of communication must be a Z: a drop in its second half (an X) is an error. */
  lemma StartMustBeZ(u: Uart)
    requires u.state == StartOfCommunication
    ensures var t := Transition(u);
      && !t.1 && t.0.shiftReg == 0 && t.0.bitCnt == u.bitCnt
      && (t.0.state == ErrorWait <==> u.drop == DropSecondHalf)
      && (t.0.state != ErrorWait ==> t.0.state == MillerZ)
  {
  }

  /** Z never follows X: a drop in the first half after an X is an error, and no bit is counted for it. */
  lemma ZAfterXRejected(u: Uart)
    requires u.state == MillerX
    ensures var t := Transition(u);
      && !t.1
      && (t.0.state == ErrorWait <==> u.drop == DropFirstHalf)
      && t.0.bitCnt == (if u.drop == DropFirstHalf then u.bitCnt else u.bitCnt + 1)
  {
  }

  /**
   * ERROR_WAIT is left only after a period without a drop, for UNSYNCD
   * with six field-up units counted, so a new sync needs two more.
   */
  lemma ErrorWaitLeaves(u: Uart)
    requires u.state == ErrorWait
    ensures var t := Transition(u);
      && !t.1
      && (t.0.state == Unsyncd <==> u.drop == DropNone)
      && (u.drop == DropNone ==> t.0 == u.(state := Unsyncd, highCnt := 6))
      && (u.drop != DropNone ==> t.0 == u)
  {
  }

  /**
   * While unsynchronised the decoder counts units with the field up, to at
   * most 8; it synchronises only on a unit with a drop after eight such
   * units, and any other drop starts the count again.
   */
  lemma SyncNeedsEightHighUnits(u: Uart)
    requires u.state == Unsyncd && 0 <= u.highCnt <= 8
    ensures var v := Unsynced(u);
      var dropped := u.bitBuffer / 0x10 % 0x10 != 15;
      && (v.state == StartOfCommunication <==> dropped && u.highCnt == 8)
      && (v.state != StartOfCommunication ==> v.state == Unsyncd)
      && 0 <= v.highCnt <= 8
      && (!dropped ==> v.highCnt == if u.highCnt < 8 then u.highCnt + 1 else 8)
      && (dropped && u.highCnt < 8 ==> v.highCnt == 0)
  {
  }

  // -------------------------------------------------------------- the UART

  /** The call with effect r took the fields to `after`, returned `done` and stored r's byte at `byteCnt`. */
  predicate Performed(r: MillerStep, before: Uart, after: Uart, done: bool, out0: seq<byte>, out1: seq<byte>)
  {
    && after == r.next
    && done == r.done
    && (r.write.None? ==> out1 == out0)
    && (r.write.Some? ==> 0 <= before.byteCnt < |out0| && out1 == out0[before.byteCnt := r.write.value])
  }

  /** The global `Uart` struct together with the buffer it stores bytes into. */
  class UartDecoder {
    var state: MillerState
    var shiftReg: u16
    var bitCnt: int
    var byteCnt: int
    var posCnt: int
    var syncBit: int
    var parityBits: word
    var samples: int
    var highCnt: int
    var bitBuffer: word
    var drop: Drop
    /** `Uart.output`. */
    const output: array<byte>

    function Snapshot(): Uart
      reads this
    {
      Uart(state, shiftReg, bitCnt, byteCnt, posCnt, syncBit, parityBits, samples, highCnt, bitBuffer, drop)
    }

    /** The reset the callers perform before listening: unsynchronised, buffer empty. */
    constructor(output: array<byte>)
      ensures this.output == output
      ensures Snapshot() == Uart(Unsyncd, 0, 0, 0, 0, 0, 0, 0, 0, 0, DropNone)
    {
      this.output := output;
      state := Unsyncd;
      shiftReg := 0;
      bitCnt := 0;
      byteCnt := 0;
      posCnt := 0;
      syncBit := 0;
      parityBits := 0;
      samples := 0;
      highCnt := 0;
      bitBuffer := 0;
      drop := DropNone;
    }

    /**
     * `MillerDecoding`. The source never checks `byteCnt` against the
     * buffer, so a store must fall inside it.
     */
    method MillerDecoding(bit: nibble) returns (done: bool)
      requires MillerNext(Snapshot(), bit).write.Some? ==> 0 <= byteCnt < output.Length
      modifies this, output
      ensures Performed(MillerNext(old(Snapshot()), bit), old(Snapshot()), Snapshot(), done, old(output[..]), output[..])
    {
      if bitBuffer == 0 {
        bitBuffer := 0xFF0 + bit;
        return false;
      }
      bitBuffer := ShiftInUnit(bitBuffer, bit);
      if state != Unsyncd {
        var up := FieldUp(Snapshot());
        done := HalfPeriod(up);
      } else {
        WaitForSync();
        done := false;
      }
    }

    /** The synchronised branch: one half bit period, with the field up or not. */
    method HalfPeriod(up: bool) returns (done: bool)
      requires Half(Snapshot(), up).write.Some? ==> 0 <= byteCnt < output.Length
      modifies this, output
      ensures Performed(Half(old(Snapshot()), up), old(Snapshot()), Snapshot(), done, old(output[..]), output[..])
    {
      posCnt := posCnt + 1;
      if posCnt == 1 {
        if !up {
          drop := DropFirstHalf;
        }
        return false;
      }
      if !up && drop == DropNone {
        drop := DropSecondHalf;
      } else if !up {
        state := ErrorWait;
      }
      posCnt := 0;
      done := EndPeriod();
    }

    /** The end of a bit period: the switch, then the byte and end-of-communication checks. */
    method EndPeriod() returns (done: bool)
      requires PeriodEnd(Snapshot()).write.Some? ==> 0 <= byteCnt < output.Length
      modifies this, output
      ensures Performed(PeriodEnd(old(Snapshot())), old(Snapshot()), Snapshot(), done, old(output[..]), output[..])
    {
      var eoc := Switch();
      drop := DropNone;
      if bitCnt == 2 && eoc && byteCnt > 0 {
        return true;
      }
      if bitCnt == 9 {
        output[byteCnt] := shiftReg % 0x100;
        byteCnt := byteCnt + 1;
        parityBits := ShiftInParity(parityBits, shiftReg / 0x100 % 2);
        if eoc {
          return true;
        }
        bitCnt := 0;
      }
      return false;
    }

    /** The `switch (Uart.state)` at the end of a bit period; returns EOC. */
    method Switch() returns (eoc: bool)
      modifies this
      ensures (Snapshot(), eoc) == Transition(old(Snapshot()))
    {
      eoc := false;
      match state {
        case StartOfCommunication =>
          shiftReg := 0;
          if drop == DropSecondHalf {
            state := ErrorWait;
          } else {
            state := MillerZ;
          }
        case MillerZ =>
          bitCnt := bitCnt + 1;
          shiftReg := ShiftRight(shiftReg);
          if drop == DropNone {
            state := Unsyncd;
            eoc := true;
          }
          if drop == DropSecondHalf {
            shiftReg := SetBit8(shiftReg);
            state := MillerX;
          }
        case MillerX =>
          shiftReg := ShiftRight(shiftReg);
          if drop == DropNone {
            state := MillerY;
            bitCnt := bitCnt + 1;
          }
          if drop == DropFirstHalf {
            state := ErrorWait;
          }
          if drop == DropSecondHalf {
            shiftReg := SetBit8(shiftReg);
            bitCnt := bitCnt + 1;
          }
        case MillerY =>
          bitCnt := bitCnt + 1;
          shiftReg := ShiftRight(shiftReg);
          if drop == DropNone {
            state := Unsyncd;
            eoc := true;
          }
          if drop == DropFirstHalf {
            state := MillerZ;
          }
          if drop == DropSecondHalf {
            shiftReg := SetBit8(shiftReg);
            state := MillerX;
          }
        case ErrorWait =>
          if drop == DropNone {
            highCnt := 6;
            state := Unsyncd;
          }
        case Unsyncd =>
          state := Unsyncd;
          highCnt := 0;
      }
    }

    /** The unsynchronised branch. */
    method WaitForSync()
      modifies this
      ensures Snapshot() == Unsynced(old(Snapshot()))
    {
      var bit := 15 - bitBuffer / 0x10 % 0x10;
      if bit != 0 {
        if highCnt == 8 {
          Synchronise(bit);
        } else {
          highCnt := 0;
        }
      } else {
        if highCnt < 8 {
          highCnt := highCnt + 1;
        }
      }
    }

    /** The working values of the sync search, as held in the fields. */
    function Choice(bit: nat): SyncChoice
      reads this
    {
      SyncChoice(syncBit, samples, bit, posCnt)
    }

    /** The sync search on a unit with a drop, and the start of a frame. */
    method Synchronise(bit0: nat)
      modifies this
      ensures Snapshot() == SyncOn(old(Snapshot()), bit0)
    {
      SearchSyncBit(bit0);
      syncBit := 16 * syncBit;
      state := StartOfCommunication;
      drop := DropFirstHalf;
      bitCnt := 0;
      byteCnt := 0;
      parityBits := 0;
    }

    /** The sync search proper: which sample of the unit the decoder will measure at. */
    method SearchSyncBit(bit0: nat)
      modifies this
      ensures var c := SearchedSync(bit0, Mask(bitBuffer, 8) != 0);
        Snapshot() == old(Snapshot()).(syncBit := c.syncBit, samples := c.samples, posCnt := c.posCnt)
    {
      var bit := bit0;
      posCnt := 1;
      syncBit := Mask(bit, 8);
      samples := 3;
      assert Choice(bit) == ChooseStart(bit0);
      bit := TryBit2(bit);
      assert Choice(bit) == ChooseHigh(ChooseStart(bit0));
      bit := TryBit1(bit);
      ghost var c := ChooseMiddle(ChooseHigh(ChooseStart(bit0)));
      assert Choice(bit) == c;
      TryBit0(bit);
    }

    /** The second sample tried: bit 2 of the unit, taken when nothing is chosen yet or when it is set too. */
    method TryBit2(bit0: nat) returns (bit: nat)
      modifies this
      ensures var c := ChooseHigh(old(Choice(bit0)));
        Snapshot() == old(Snapshot()).(syncBit := c.syncBit, samples := c.samples) && bit == c.bit
    {
      bit := bit0;
      if syncBit == 0 {
        syncBit := Mask(bit, 4);
        samples := 2;
      } else if Mask(bit, 4) != 0 {
        syncBit := Mask(bit, 4);
        samples := 2;
        bit := 4 * bit;
      }
    }

    /** The third sample tried: bit 1 of the unit. */
    method TryBit1(bit0: nat) returns (bit: nat)
      modifies this
      ensures var c := ChooseMiddle(old(Choice(bit0)));
        Snapshot() == old(Snapshot()).(syncBit := c.syncBit, samples := c.samples) && bit == c.bit
    {
      bit := bit0;
      if syncBit == 0 {
        syncBit := Mask(bit, 2);
        samples := 1;
      } else if Mask(bit, 2) != 0 {
        syncBit := Mask(bit, 2);
        samples := 1;
        bit := 2 * bit;
      }
    }

    /** The last sample tried: bit 0; chosen with bit 3 of the buffer set, the sync moves to bit 3 and the first half period is expected in the next unit. */
    method TryBit0(bit: nat)
      modifies this
      ensures var c := ChooseLow(old(Choice(bit)), Mask(bitBuffer, 8) != 0);
        Snapshot() == old(Snapshot()).(syncBit := c.syncBit, samples := c.samples, posCnt := c.posCnt)
    {
      if syncBit == 0 {
        syncBit := Mask(bit, 1);
        samples := 0;
        if syncBit != 0 && Mask(bitBuffer, 8) != 0 {
          syncBit := 8;
          posCnt := 0;
          samples := 3;
        }
      } else if Mask(bit, 1) != 0 {
        syncBit := Mask(bit, 1);
        samples := 0;
      }
    }
  }
}
