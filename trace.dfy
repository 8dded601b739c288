/**
 * The frame trace of armsrc/iso14443a.c: `LogTrace` appends one record per
 * frame to the trace arena at the start of the big buffer. A record is the
 * running sample counter (little endian, bit 31 set for frames from the
 * tag), the parity word (little endian), one length byte and the frame.
 */
module Trace {
  import opened Bits

  /** The record `LogTrace` appends. */
  function Record(rsamples: word, parity: word, data: seq<byte>, fromReader: bool): (r: seq<byte>)
    ensures |r| == 9 + |data|
  {
    var s := LittleEndian(rsamples);
    var top := if fromReader then s[3] else SetTop(s[3]);
    s[..3] + [top] + LittleEndian(parity) + [|data| % 256] + data
  }

  /** `b | 0x80`. */
  function SetTop(b: byte): byte
  {
    if b >= 0x80 then b else b + 0x80
  }

  /** A record as a trace reader sees it: the stamp with its flag bit, the parity word, the frame. */
  datatype Entry = Entry(stamp: word, parity: word, data: seq<byte>)

  /** The first record of a trace and the rest, if the trace holds a whole record. */
  function ParseRecord(t: seq<byte>): Option<(Entry, seq<byte>)>
  {
    if |t| < 9 || |t| < 9 + t[8] as int then None
    else
      var n := t[8] as int;
      Some((Entry(FromLittleEndian(t[0], t[1], t[2], t[3]),
                  FromLittleEndian(t[4], t[5], t[6], t[7]),
                  t[9..9 + n]),
            t[9 + n..]))
  }

  /** A whole trace read record by record. */
  function ParseLog(t: seq<byte>): Option<seq<Entry>>
    decreases |t|
  {
    if |t| == 0 then Some([])
    else match ParseRecord(t)
      case None => None
      case Some((e, rest)) =>
        match ParseLog(rest)
        case None => None
        case Some(es) => Some([e] + es)
  }

  /** The entry a record reads back as: frames from the tag carry bit 31 in the stamp. */
  function EntryOf(rsamples: word, parity: word, data: seq<byte>, fromReader: bool): Entry
  {
    Entry(if fromReader || rsamples >= 0x8000_0000 then rsamples else rsamples + 0x8000_0000, parity, data)
  }

  /** The stamp of a record: the counter, with bit 31 forced on for a tag frame. */
  lemma StampRoundTrip(rsamples: word, fromReader: bool)
    ensures var s := LittleEndian(rsamples);
      var top := if fromReader then s[3] else SetTop(s[3]);
      FromLittleEndian(s[0], s[1], s[2], top) == EntryOf(rsamples, 0, [], fromReader).stamp
  {
    LittleEndianRoundTrip(rsamples);
  }

  /** Where the fields of a record sit. */
  lemma RecordFields(rsamples: word, parity: word, data: seq<byte>, fromReader: bool, rest: seq<byte>)
    ensures var r := Record(rsamples, parity, data, fromReader) + rest;
      var s := LittleEndian(rsamples);
      var q := LittleEndian(parity);
      && r[0] == s[0] && r[1] == s[1] && r[2] == s[2]
      && r[3] == (if fromReader then s[3] else SetTop(s[3]))
      && r[4] == q[0] && r[5] == q[1] && r[6] == q[2] && r[7] == q[3]
      && r[8] == |data| % 256
      && r[9..9 + |data|] == data
      && r[9 + |data|..] == rest
  {
  }

  /** A record of a frame shorter than 256 bytes reads back as its entry. */
  lemma RecordRoundTrip(rsamples: word, parity: word, data: seq<byte>, fromReader: bool, rest: seq<byte>)
    requires |data| < 256
    ensures ParseRecord(Record(rsamples, parity, data, fromReader) + rest)
         == Some((EntryOf(rsamples, parity, data, fromReader), rest))
  {
    RecordFields(rsamples, parity, data, fromReader, rest);
    StampRoundTrip(rsamples, fromReader);
    LittleEndianRoundTrip(parity);
  }

  /**
   * The direction of a frame can be told from the stamp's bit 31 only while
   * the counter is below 2^31; above it a reader frame reads as a tag frame.
   */
  lemma DirectionFlag(rsamples: word, parity: word, data: seq<byte>, fromReader: bool)
    ensures (EntryOf(rsamples, parity, data, fromReader).stamp >= 0x8000_0000)
         == (!fromReader || rsamples >= 0x8000_0000)
    ensures EntryOf(rsamples, parity, data, fromReader).stamp % 0x8000_0000 == rsamples % 0x8000_0000
  {
  }

  /** A frame of 256 bytes or more is logged with a length byte that does not match it. */
  lemma LongFrameLengthByte(rsamples: word, parity: word, data: seq<byte>, fromReader: bool)
    requires |data| >= 256
    ensures Record(rsamples, parity, data, fromReader)[8] != |data|
  {
  }

  /** Bytes after a whole first record do not change how that record reads. */
  lemma ParseRecordExtend(t: seq<byte>, r: seq<byte>)
    requires ParseRecord(t).Some?
    ensures ParseRecord(t + r) == Some((ParseRecord(t).value.0, ParseRecord(t).value.1 + r))
  {
    var n := 9 + t[8] as int;
    assert (t + r)[..9] == t[..9];
    assert (t + r)[9..n] == t[9..n];
    assert (t + r)[n..] == t[n..] + r;
  }

  /** Appending a readable record to a readable trace adds its entry at the end. */
  lemma {:induction false} ParseLogAppend(t: seq<byte>, es: seq<Entry>, rsamples: word, parity: word, data: seq<byte>, fromReader: bool)
    requires ParseLog(t) == Some(es)
    requires |data| < 256
    ensures ParseLog(t + Record(rsamples, parity, data, fromReader))
         == Some(es + [EntryOf(rsamples, parity, data, fromReader)])
    decreases |t|
  {
    var r := Record(rsamples, parity, data, fromReader);
    var e := EntryOf(rsamples, parity, data, fromReader);
    if |t| == 0 {
      assert t + r == r + [];
      RecordRoundTrip(rsamples, parity, data, fromReader, []);
      assert r + [] == r;
      assert ParseRecord(r) == Some((e, []));
      assert es == [];
      assert ParseLog(r) == Some([e] + []);
      assert t + r == r;
      assert es + [e] == [e] + [];
    } else {
      var first := ParseRecord(t).value.0;
      var rest := ParseRecord(t).value.1;
      var es' := ParseLog(rest).value;
      assert es == [first] + es';
      ParseLogAppend(rest, es', rsamples, parity, data, fromReader);
      ParseRecordExtend(t, r);
      assert es + [e] == [first] + (es' + [e]);
    }
  }

  /** The trace arena `trace[0..traceLen)` and the running sample counter. */
  class FrameTrace {
    /** The arena in the big buffer that the records are written to. */
    const arena: array<byte>
    /** `TRACE_LENGTH`: no record is begun at or past this offset. */
    const capacity: int
    var traceLen: int
    var rsamples: word

    /** The recorded bytes. */
    function Log(): seq<byte>
      reads this, arena
      requires Valid()
    {
      arena[..traceLen]
    }

    predicate Valid()
      reads this
    {
      0 <= traceLen <= arena.Length
    }

    constructor(arena: array<byte>, capacity: int)
      ensures Valid() && this.arena == arena && this.capacity == capacity
      ensures traceLen == 0 && rsamples == 0
    {
      this.arena := arena;
      this.capacity := capacity;
      traceLen := 0;
      rsamples := 0;
    }

    /** `iso14a_clear_tracelen`. */
    method ClearTraceLen()
      modifies this
      ensures Valid() && traceLen == 0 && rsamples == old(rsamples)
    {
      traceLen := 0;
    }

    /**
     * `LogTrace`: refuses when the trace is full; otherwise adds iSamples to
     * the counter (wrapping at 32 bits) and appends the record of the frame.
     * The source does not check that the record fits in the arena, so that
     * is required of the caller.
     */
    method LogTrace(btBytes: seq<byte>, iSamples: word, dwParity: word, bReader: bool) returns (ok: bool)
      requires Valid()
      requires traceLen < capacity ==> traceLen + 9 + |btBytes| <= arena.Length
      modifies this, arena
      ensures Valid()
      ensures ok == (old(traceLen) < capacity)
      ensures !ok ==> traceLen == old(traceLen) && rsamples == old(rsamples) && arena[..] == old(arena[..])
      ensures ok ==> rsamples == (old(rsamples) + iSamples) % Word32
      ensures ok ==> arena[..] == old(arena[..traceLen]) + Record(rsamples, dwParity, btBytes, bReader)
                                    + old(arena[traceLen + 9 + |btBytes|..])
      ensures ok ==> Log() == old(Log()) + Record(rsamples, dwParity, btBytes, bReader)
    {
      if traceLen >= capacity {
        return false;
      }
      ghost var a0 := arena[..];
      ghost var s := traceLen;
      rsamples := (rsamples + iSamples) % Word32;
      PutStamp(bReader);
      var rest := LittleEndian(dwParity) + [|btBytes| % 256];
      ghost var head := Record(rsamples, 0, [], bReader)[..4];
      ghost var a1 := arena[..];
      Put(rest);
      ghost var a2 := arena[..];
      Put(btBytes);
      assert Record(rsamples, dwParity, btBytes, bReader) == head + rest + btBytes;
      Splice3(a0, s, head, rest, btBytes, a1, a2, arena[..]);
      return true;
    }

    /**
     * The four counter bytes, least significant first; for a tag frame the
     * last of them then gets `|= 0x80`.
     */
    method PutStamp(bReader: bool)
      requires Valid()
      requires traceLen + 4 <= arena.Length
      modifies this, arena
      ensures Valid()
      ensures traceLen == old(traceLen) + 4
      ensures rsamples == old(rsamples)
      ensures arena[..] == old(arena[..traceLen]) + Record(rsamples, 0, [], bReader)[..4] + old(arena[traceLen + 4..])
    {
      var stamp := LittleEndian(rsamples);
      Put(stamp);
      if !bReader {
        arena[traceLen - 1] := SetTop(arena[traceLen - 1]);
      }
    }

    /** `trace[traceLen++] = b` for each b in turn (and `memcpy` for the frame). */
    method Put(bytes: seq<byte>)
      requires Valid()
      requires traceLen + |bytes| <= arena.Length
      modifies this, arena
      ensures Valid()
      ensures traceLen == old(traceLen) + |bytes|
      ensures rsamples == old(rsamples)
      ensures arena[..] == old(arena[..traceLen]) + bytes + old(arena[traceLen + |bytes|..])
    {
      forall k | 0 <= k < |bytes| {
        arena[traceLen + k] := bytes[k];
      }
      traceLen := traceLen + |bytes|;
    }
  }

  /** Three writes in a row at the end of the trace make one splice. */
  lemma Splice3(a0: seq<byte>, s: nat, x: seq<byte>, y: seq<byte>, z: seq<byte>,
                a1: seq<byte>, a2: seq<byte>, a3: seq<byte>)
    requires s + |x| + |y| + |z| <= |a0|
    requires a1 == a0[..s] + x + a0[s + |x|..]
    requires a2 == a1[..s + |x|] + y + a1[s + |x| + |y|..]
    requires a3 == a2[..s + |x| + |y|] + z + a2[s + |x| + |y| + |z|..]
    ensures a3 == a0[..s] + (x + y + z) + a0[s + |x| + |y| + |z|..]
    ensures a3[..s + |x| + |y| + |z|] == a0[..s] + (x + y + z)
  {
    assert a1[..s + |x|] == a0[..s] + x;
    assert a1[s + |x| + |y|..] == a0[s + |x| + |y|..];
    assert a2[..s + |x| + |y|] == a0[..s] + x + y;
    assert a2[s + |x| + |y| + |z|..] == a0[s + |x| + |y| + |z|..];
  }
}
