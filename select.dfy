/**
 * The reader's anticollision and select procedure (`iso14443a_select_card`,
 * section 6.5.3 of ISO/IEC 14443-3): wake the card up with WUPA, then per
 * cascade level send SELECT_ALL, copy four UID bytes out of the answer,
 * send SELECT with the first five answered bytes and a CRC, and read the
 * SAK; the levels go on while bit 2 (0x04) of the SAK says the UID is
 * incomplete. The radio is abstracted: the tag's answers come as a
 * sequence, one per frame the reader sends, an empty answer (or none)
 * meaning that nothing was received; the CRC is a parameter.
 */
module Select {
  import opened Bits

  /** A frame the reader sends: a short 7-bit frame, or a standard frame with parity. */
  datatype Request = Short(cmd: byte) | Standard(bytes: seq<byte>)

  /** WUPA, the wake-up command. */
  const Wupa: byte := 0x52
  /** Second byte of SELECT_ALL: two bytes sent, no UID bits. */
  const SelectAllNvb: byte := 0x20
  /** Second byte of SELECT: seven bytes sent, the whole UID fragment. */
  const SelectNvb: byte := 0x70
  /** The cascade tag that stands in front of a UID fragment when more levels follow. */
  const CascadeTag: byte := 0x88
  /** RATS with FSDI 8 and CID 0, before its CRC. */
  const Rats: seq<byte> := [0xE0, 0x80]

  /** The select command of cascade level k, `0x93 + k * 2` stored in a byte. */
  function SelectCmd(k: nat): (c: byte)
    ensures k < 3 ==> c == [0x93, 0x95, 0x97][k]
  {
    (0x93 + 2 * k) % 256
  }

  /** Bit 2 of the SAK: the UID is not complete yet. */
  predicate UidIncomplete(sak: byte)
  {
    sak / 4 % 2 == 1
  }

  /** Bit 5 of the SAK: the card is ISO/IEC 14443-4 compliant. */
  predicate Compliant(sak: byte)
  {
    sak / 0x20 % 2 == 1
  }

  /** What `ReaderReceive` gets for the n-th frame sent: nothing, or the bytes decoded. */
  function Answer(answers: seq<seq<byte>>, n: nat): (a: Option<seq<byte>>)
    ensures a.Some? <==> n < |answers| && |answers[n]| > 0
    ensures a.Some? ==> a.value == answers[n]
  {
    if n < |answers| && |answers[n]| > 0 then Some(answers[n]) else None
  }

  /** The receive buffer once an answer has been decoded into it: the answer over the old contents. */
  function Overlay(buf: seq<byte>, a: seq<byte>): (r: seq<byte>)
    ensures |r| >= |buf| && |r| >= |a|
    ensures r[..|a|] == a
  {
    if |a| <= |buf| then a + buf[|a|..] else a
  }

  /** `memcpy(uid_ptr + off, four, 4)`: the bytes at off.. replaced, the buffer grown when it ends there. */
  function PutBytes(uid: seq<byte>, off: nat, four: seq<byte>): (r: seq<byte>)
    requires off <= |uid|
    ensures |r| >= |uid| && |r| >= off + |four|
    ensures r[..off] == uid[..off] && r[off..off + |four|] == four
  {
    if off + |four| <= |uid| then uid[..off] + four + uid[off + |four|..] else uid[..off] + four
  }

  /** The fix-up after the loop: a leading cascade tag is dropped from the first eight bytes. */
  function StripCascadeTag(uid: seq<byte>): (r: seq<byte>)
    requires |uid| >= 8
    ensures |r| == |uid| && r[8..] == uid[8..]
    ensures uid[0] == CascadeTag ==> r[..7] == uid[1..8] && r[7] == 0
    ensures uid[0] != CascadeTag ==> r == uid
  {
    if uid[0] == CascadeTag then uid[1..8] + [0] + uid[8..] else uid
  }

  /** A frame followed by its two CRC bytes (`AppendCrc14443a`). */
  function WithCrc(crc: seq<byte> -> (byte, byte), data: seq<byte>): (r: seq<byte>)
    ensures |r| == |data| + 2 && r[..|data|] == data
  {
    data + [crc(data).0, crc(data).1]
  }

  /** What the procedure stores in `resp_data`, each field once it has been written. */
  datatype CardData = CardData(atqa: seq<byte>, sak: Option<byte>, ats: seq<byte>, atsLen: Option<nat>)

  const NoData: CardData := CardData([], None, [], None)

  /**
   * The procedure's state between cascade levels: the level, the receive
   * buffer, the UID buffer, the crypto UID bytes, the frames sent so far
   * (answer n belongs to frame n), the last SAK, and whether every frame
   * was answered.
   */
  datatype Cascade = Cascade(level: nat, resp: seq<byte>, uid: seq<byte>, cuid: Option<seq<byte>>,
                             sent: seq<Request>, sak: byte, answered: bool)

  /** The buffers are long enough for the copies the procedure makes. */
  predicate Valid(c: Cascade)
  {
    |c.resp| >= 5 && |c.uid| >= 8 && 4 * c.level <= |c.uid|
  }

  /** The frames a cascade level sends: SELECT_ALL, then SELECT with nine bytes. */
  predicate CascadeFrame(q: Request, k: nat, second: bool)
  {
    && q.Standard? && |q.bytes| == (if second then 9 else 2) && q.bytes[0] == SelectCmd(k)
    && q.bytes[1] == (if second then SelectNvb else SelectAllNvb)
  }

  /**
   * One cascade level: SELECT_ALL, four UID bytes out of its answer,
   * SELECT with the first five answered bytes, and the SAK. A frame left
   * unanswered ends the level there.
   */
  function LevelStep(answers: seq<seq<byte>>, crc: seq<byte> -> (byte, byte), c: Cascade): (r: Cascade)
    requires Valid(c)
    ensures Valid(r) && |c.sent| < |r.sent| <= |c.sent| + 2 && r.sent[..|c.sent|] == c.sent
    ensures CascadeFrame(r.sent[|c.sent|], c.level, false)
    ensures |r.sent| == |c.sent| + 2 ==> CascadeFrame(r.sent[|c.sent| + 1], c.level, true)
    ensures r.answered <==> Answer(answers, |c.sent|).Some? && Answer(answers, |c.sent| + 1).Some?
    ensures r.answered ==> |r.sent| == |c.sent| + 2 <= |answers| && r.level == c.level + 1
    ensures !r.answered ==> r.level == c.level
  {
    var cmd := SelectCmd(c.level);
    var sent1 := c.sent + [Standard([cmd, SelectAllNvb])];
    match Answer(answers, |c.sent|)
    case None => c.(sent := sent1, answered := false)
    case Some(a1) =>
      var resp1 := Overlay(c.resp, a1);
      var c1 := c.(resp := resp1, uid := PutBytes(c.uid, 4 * c.level, resp1[..4]), cuid := Some(resp1[..4]),
                   sent := sent1 + [Standard(WithCrc(crc, [cmd, SelectNvb] + resp1[..5]))]);
      match Answer(answers, |sent1|)
      case None => c1.(answered := false)
      case Some(a2) =>
        var resp2 := Overlay(resp1, a2);
        c1.(resp := resp2, sak := resp2[0], level := c.level + 1, answered := true)
  }

  /**
   * The cascade loop from state c: it stops at the first SAK with bit 2
   * clear, or at the first frame left unanswered.
   */
  function CascadeFrom(answers: seq<seq<byte>>, crc: seq<byte> -> (byte, byte), c: Cascade): (r: Cascade)
    requires Valid(c)
    ensures Valid(r) && r.level >= c.level
    ensures r.answered ==> !UidIncomplete(r.sak)
    ensures !c.answered || !UidIncomplete(c.sak) ==> r == c
    decreases |answers| - |c.sent|
  {
    if !c.answered || !UidIncomplete(c.sak) then c
    else
      var s := LevelStep(answers, crc, c);
      if !s.answered then s else CascadeFrom(answers, crc, s)
  }

  /** The outcome: 0 (no card), 1 (selected), 2 (not ISO/IEC 14443-4 compliant), and the buffers as left. */
  datatype Selection = Selection(code: int, uid: seq<byte>, cuid: Option<seq<byte>>, data: CardData, sent: seq<Request>)

  /** The state the cascade loop starts from once the ATQA is in `resp`. */
  function Start(resp: seq<byte>): Cascade
  {
    Cascade(0, resp, [0, 0, 0, 0, 0, 0, 0, 0], None, [Short(Wupa)], 0x04, true)
  }

  /**
   * After the cascade loop: the SAK goes to `resp_data`, a leading cascade
   * tag is stripped, a SAK without bit 5 gives 2, and otherwise, when
   * `resp_data` is given, RATS is sent and its answer becomes the ATS.
   */
  function Conclusion(answers: seq<seq<byte>>, crc: seq<byte> -> (byte, byte), withData: bool, c: Cascade, data: CardData): (r: Selection)
    requires Valid(c)
    ensures r.code == 0 || r.code == 1 || r.code == 2
    ensures |r.uid| >= 8
  {
    if !c.answered then Selection(0, c.uid, c.cuid, data, c.sent)
    else
      var data1 := if withData then data.(sak := Some(c.sak), atsLen := Some(0)) else data;
      var uid := StripCascadeTag(c.uid);
      if !Compliant(c.sak) then Selection(2, uid, c.cuid, data1, c.sent)
      else if !withData then Selection(1, uid, c.cuid, data1, c.sent)
      else
        var sent := c.sent + [Standard(WithCrc(crc, Rats))];
        match Answer(answers, |c.sent|)
        case None => Selection(0, uid, c.cuid, data1, sent)
        case Some(ats) =>
          Selection(1, uid, c.cuid, data1.(ats := Overlay(c.resp, ats), atsLen := Some(|ats|)), sent)
  }

  /**
   * `iso14443a_select_card` as a function of the tag's answers, the
   * receive buffer's old contents, the CRC and whether `resp_data` is
   * given (only then does the reader send RATS).
   */
  function SelectSpec(answers: seq<seq<byte>>, respInit: seq<byte>, crc: seq<byte> -> (byte, byte), withData: bool): (r: Selection)
    requires |respInit| >= 5
    ensures r.code == 0 || r.code == 1 || r.code == 2
    ensures |r.uid| >= 8
    ensures Answer(answers, 0).None? ==> r.code == 0 && r.sent == [Short(Wupa)]
  {
    match Answer(answers, 0)
    case None => Selection(0, [0, 0, 0, 0, 0, 0, 0, 0], None, NoData, [Short(Wupa)])
    case Some(atqa) =>
      var resp := Overlay(respInit, atqa);
      var data := if withData then NoData.(atqa := resp[..2]) else NoData;
      Conclusion(answers, crc, withData, CascadeFrom(answers, crc, Start(resp)), data)
  }

  /** One pass of the cascade loop's body, on the procedure's locals. */
  method CascadeLevel(answers: seq<seq<byte>>, crc: seq<byte> -> (byte, byte), c: Cascade) returns (r: Cascade)
    requires Valid(c) && c.answered
    ensures r == LevelStep(answers, crc, c)
  {
    var cmd := SelectCmd(c.level);
    var sent := c.sent + [Standard([cmd, SelectAllNvb])];
    var a1 := Answer(answers, |sent| - 1);
    if a1.None? {
      return c.(sent := sent, answered := false);
    }
    var resp := Overlay(c.resp, a1.value);
    var uid := PutBytes(c.uid, 4 * c.level, resp[..4]);
    var cuid := Some(resp[..4]);
    var n := |sent|;
    sent := sent + [Standard(WithCrc(crc, [cmd, SelectNvb] + resp[..5]))];
    var a2 := Answer(answers, n);
    if a2.None? {
      return c.(resp := resp, uid := uid, cuid := cuid, sent := sent, answered := false);
    }
    resp := Overlay(resp, a2.value);
    var sak := resp[0];
    r := c.(resp := resp, uid := uid, cuid := cuid, sent := sent, sak := sak, level := c.level + 1, answered := true);
  }

  /** `iso14443a_select_card`, step by step. */
  method SelectCard(answers: seq<seq<byte>>, respInit: seq<byte>, crc: seq<byte> -> (byte, byte), withData: bool)
      returns (r: Selection)
    requires |respInit| >= 5
    ensures r == SelectSpec(answers, respInit, crc, withData)
  {
    var data := NoData;
    var atqa := Answer(answers, 0);
    if atqa.None? {
      return Selection(0, [0, 0, 0, 0, 0, 0, 0, 0], None, data, [Short(Wupa)]);
    }
    var resp := Overlay(respInit, atqa.value);
    if withData {
      data := data.(atqa := resp[..2]);
    }
    var c := Start(resp);
    while c.answered && UidIncomplete(c.sak)
      invariant Valid(c)
      invariant CascadeFrom(answers, crc, c) == CascadeFrom(answers, crc, Start(resp))
      decreases if c.answered then 1 else 0, |answers| - |c.sent|
    {
      c := CascadeLevel(answers, crc, c);
    }
    r := Conclude(answers, crc, withData, c, data);
  }

  /** The code after the cascade loop. */
  method Conclude(answers: seq<seq<byte>>, crc: seq<byte> -> (byte, byte), withData: bool, c: Cascade, data0: CardData)
      returns (r: Selection)
    requires Valid(c)
    ensures r == Conclusion(answers, crc, withData, c, data0)
  {
    var data := data0;
    if !c.answered {
      return Selection(0, c.uid, c.cuid, data, c.sent);
    }
    if withData {
      data := data.(sak := Some(c.sak), atsLen := Some(0));
    }
    var uid := StripCascadeTag(c.uid);
    if !Compliant(c.sak) {
      return Selection(2, uid, c.cuid, data, c.sent);
    }
    var sent := c.sent;
    if withData {
      sent := sent + [Standard(WithCrc(crc, Rats))];
      var a := Answer(answers, |sent| - 1);
      if a.None? {
        return Selection(0, uid, c.cuid, data, sent);
      }
      data := data.(ats := Overlay(c.resp, a.value), atsLen := Some(|a.value|));
    }
    return Selection(1, uid, c.cuid, data, sent);
  }

  // ---------------------------------------------------------- properties

  /** From index n on, the frames are SELECT_ALL and SELECT of level k, k + 1, ... in pairs. */
  predicate FramesFrom(sent: seq<Request>, n: nat, k: nat)
  {
    forall i :: n <= i < |sent| ==> CascadeFrame(sent[i], k + (i - n) / 2, (i - n) % 2 == 1)
  }

  /** One level's two frames in front of the later levels' frames. */
  lemma FramesCons(sent: seq<Request>, n: nat, k: nat)
    requires n + 2 <= |sent| && CascadeFrame(sent[n], k, false) && CascadeFrame(sent[n + 1], k, true)
    requires FramesFrom(sent, n + 2, k + 1)
    ensures FramesFrom(sent, n, k)
  {
    forall i | n <= i < |sent|
      ensures CascadeFrame(sent[i], k + (i - n) / 2, (i - n) % 2 == 1)
    {
      if i >= n + 2 {
        assert k + (i - n) / 2 == k + 1 + (i - (n + 2)) / 2;
        assert (i - n) % 2 == (i - (n + 2)) % 2;
      }
    }
  }

  /** A level cut short: its one or two frames are all there is. */
  lemma FramesLast(sent: seq<Request>, n: nat, k: nat)
    requires n < |sent| <= n + 2 && CascadeFrame(sent[n], k, false)
    requires |sent| == n + 2 ==> CascadeFrame(sent[n + 1], k, true)
    ensures FramesFrom(sent, n, k)
  {
  }

  /** A completed level's frames joined to those of the levels after it. */
  lemma PrefixJoin(prefix: seq<Request>, mid: seq<Request>, all: seq<Request>, k: nat)
    requires |mid| == |prefix| + 2 && mid[..|prefix|] == prefix
    requires CascadeFrame(mid[|prefix|], k, false) && CascadeFrame(mid[|prefix| + 1], k, true)
    requires |mid| <= |all| && all[..|mid|] == mid && FramesFrom(all, |mid|, k + 1)
    ensures all[..|prefix|] == prefix && FramesFrom(all, |prefix|, k)
  {
    var n := |prefix|;
    assert all[..n] == mid[..n];
    assert all[n] == mid[n] && all[n + 1] == mid[n + 1];
    FramesCons(all, n, k);
  }

  /**
   * The cascade loop only appends to the frames sent, and what it appends
   * is SELECT_ALL and SELECT of each level in turn.
   */
  lemma {:induction false} CascadePrefix(answers: seq<seq<byte>>, crc: seq<byte> -> (byte, byte), c: Cascade)
    requires Valid(c)
    ensures var r := CascadeFrom(answers, crc, c);
      |c.sent| <= |r.sent| && r.sent[..|c.sent|] == c.sent && FramesFrom(r.sent, |c.sent|, c.level)
    decreases |answers| - |c.sent|
  {
    if c.answered && UidIncomplete(c.sak) {
      var s := LevelStep(answers, crc, c);
      if s.answered {
        CascadePrefix(answers, crc, s);
        PrefixJoin(c.sent, s.sent, CascadeFrom(answers, crc, s).sent, c.level);
      } else {
        FramesLast(s.sent, |c.sent|, c.level);
      }
    }
  }

  /** The frame that carries RATS and its CRC. */
  predicate RatsFrame(q: Request, crc: seq<byte> -> (byte, byte))
  {
    q == Standard(WithCrc(crc, Rats))
  }

  /** A select command byte is odd, so no cascade frame is the RATS frame (0xE0). */
  lemma CascadeNotRats(q: Request, k: nat, second: bool, crc: seq<byte> -> (byte, byte))
    requires CascadeFrame(q, k, second)
    ensures !RatsFrame(q, crc)
  {
    var x := 0x93 + 2 * k;
    assert x == 2 * (k + 0x49) + 1;
    assert SelectCmd(k) % 2 == 1;
  }

  /** What the procedure's conclusion adds to the cascade loop's frames. */
  lemma ConclusionFrames(answers: seq<seq<byte>>, crc: seq<byte> -> (byte, byte), withData: bool, c: Cascade, data: CardData)
    requires Valid(c)
    ensures var r := Conclusion(answers, crc, withData, c, data);
      && (withData && c.answered && Compliant(c.sak) ==> r.sent == c.sent + [Standard(WithCrc(crc, Rats))])
      && (!(withData && c.answered && Compliant(c.sak)) ==> r.sent == c.sent)
      && (withData && c.answered ==> r.data.sak == Some(c.sak))
      && (!c.answered ==> r.data == data)
  {
  }

  /** WUPA and the cascade frames, with the RATS frame after them or not. */
  lemma FramesShape(cs: seq<Request>, rs: seq<Request>, crc: seq<byte> -> (byte, byte))
    requires |cs| >= 1 && cs[0] == Short(Wupa) && FramesFrom(cs, 1, 0)
    requires rs == cs || rs == cs + [Standard(WithCrc(crc, Rats))]
    ensures |rs| >= 1 && rs[0] == Short(Wupa)
    ensures forall i :: 1 <= i < |rs| - 1 ==> CascadeFrame(rs[i], (i - 1) / 2, (i - 1) % 2 == 1)
    ensures |rs| > 1 ==> CascadeFrame(rs[|rs| - 1], (|rs| - 2) / 2, (|rs| - 2) % 2 == 1) || RatsFrame(rs[|rs| - 1], crc)
    ensures RatsFrame(rs[|rs| - 1], crc) <==> rs != cs
  {
    forall i | 1 <= i < |rs| - 1
      ensures CascadeFrame(rs[i], (i - 1) / 2, (i - 1) % 2 == 1)
    {
      assert rs[i] == cs[i];
    }
    if rs == cs {
      if |cs| > 1 {
        CascadeNotRats(cs[|cs| - 1], (|cs| - 2) / 2, (|cs| - 2) % 2 == 1, crc);
      }
    }
  }

  /**
   * The frames the procedure sends: WUPA, then SELECT_ALL and SELECT of
   * cascade levels 1, 2, ... in turn, and last, when `resp_data` is given
   * and the SAK has bit 5 set, RATS.
   */
  lemma SelectFrames(answers: seq<seq<byte>>, respInit: seq<byte>, crc: seq<byte> -> (byte, byte), withData: bool)
    requires |respInit| >= 5
    ensures var r := SelectSpec(answers, respInit, crc, withData);
      && |r.sent| >= 1 && r.sent[0] == Short(Wupa)
      && (forall i :: 1 <= i < |r.sent| - 1 ==> CascadeFrame(r.sent[i], (i - 1) / 2, (i - 1) % 2 == 1))
      && (|r.sent| > 1 ==> CascadeFrame(r.sent[|r.sent| - 1], (|r.sent| - 2) / 2, (|r.sent| - 2) % 2 == 1)
                           || RatsFrame(r.sent[|r.sent| - 1], crc))
      && (withData ==> (RatsFrame(r.sent[|r.sent| - 1], crc) <==> r.data.sak.Some? && Compliant(r.data.sak.value)))
  {
    var r := SelectSpec(answers, respInit, crc, withData);
    if Answer(answers, 0).Some? {
      var resp := Overlay(respInit, Answer(answers, 0).value);
      var data := if withData then NoData.(atqa := resp[..2]) else NoData;
      var c0 := Start(resp);
      var c := CascadeFrom(answers, crc, c0);
      CascadePrefix(answers, crc, c0);
      ConclusionFrames(answers, crc, withData, c, data);
      assert r == Conclusion(answers, crc, withData, c, data);
      assert c.sent[0] == Short(Wupa) by { assert c.sent[..1] == [Short(Wupa)]; }
      FramesShape(c.sent, r.sent, crc);
    } else {
      assert r.sent == [Short(Wupa)];
    }
  }

  /**
   * With `resp_data` given: a card found has its final SAK recorded, with
   * bit 2 clear; the result is 2 exactly when that SAK lacks bit 5; and a
   * selected card's ATS is the answer to RATS, its length recorded.
   */
  lemma SelectCodes(answers: seq<seq<byte>>, respInit: seq<byte>, crc: seq<byte> -> (byte, byte))
    requires |respInit| >= 5
    ensures var r := SelectSpec(answers, respInit, crc, true);
      && (r.code != 0 ==> r.data.sak.Some? && !UidIncomplete(r.data.sak.value))
      && (r.code == 2 <==> r.data.sak.Some? && !Compliant(r.data.sak.value))
      && (r.code == 1 ==> var n := |r.sent| - 1;
            && Answer(answers, n).Some? && r.data.atsLen == Some(|answers[n]|)
            && |r.data.ats| >= |answers[n]| && r.data.ats[..|answers[n]|] == answers[n])
  {
    var r := SelectSpec(answers, respInit, crc, true);
    if Answer(answers, 0).Some? {
      var resp := Overlay(respInit, Answer(answers, 0).value);
      var data := NoData.(atqa := resp[..2]);
      var c := CascadeFrom(answers, crc, Start(resp));
      assert r == Conclusion(answers, crc, true, c, data);
    }
  }

  /** Every frame sent but the last was answered, and `answered` says whether the last one was. */
  predicate AnsweredBefore(answers: seq<seq<byte>>, sent: seq<Request>, answered: bool)
  {
    && |sent| > 0
    && (forall k :: 0 <= k < |sent| - 1 ==> Answer(answers, k).Some?)
    && (answered <==> Answer(answers, |sent| - 1).Some?)
  }

  /** A level is tried only after an answer, and stops at the first frame left unanswered. */
  lemma LevelStepAnswers(answers: seq<seq<byte>>, crc: seq<byte> -> (byte, byte), c: Cascade)
    requires Valid(c) && c.answered && AnsweredBefore(answers, c.sent, c.answered)
    ensures var r := LevelStep(answers, crc, c); AnsweredBefore(answers, r.sent, r.answered)
  {
    var r := LevelStep(answers, crc, c);
    if Answer(answers, |c.sent|).None? {
      assert |r.sent| == |c.sent| + 1;
    } else {
      assert |r.sent| == |c.sent| + 2;
    }
  }

  /** The cascade keeps every frame but the last answered. */
  lemma {:induction false} CascadeAnswers(answers: seq<seq<byte>>, crc: seq<byte> -> (byte, byte), c: Cascade)
    requires Valid(c) && AnsweredBefore(answers, c.sent, c.answered)
    ensures var r := CascadeFrom(answers, crc, c); AnsweredBefore(answers, r.sent, r.answered)
    decreases |answers| - |c.sent|
  {
    if c.answered && UidIncomplete(c.sak) {
      LevelStepAnswers(answers, crc, c);
      var s := LevelStep(answers, crc, c);
      if s.answered {
        CascadeAnswers(answers, crc, s);
      }
    }
  }

  /** After the loop, 0 comes from the frame left unanswered, or from RATS going unanswered. */
  lemma ConclusionAnswers(answers: seq<seq<byte>>, crc: seq<byte> -> (byte, byte), withData: bool, c: Cascade, data: CardData)
    requires Valid(c) && AnsweredBefore(answers, c.sent, c.answered)
    ensures var r := Conclusion(answers, crc, withData, c, data);
      && |r.sent| > 0
      && (r.code == 0 <==> Answer(answers, |r.sent| - 1).None?)
      && (forall k :: 0 <= k < |r.sent| - 1 ==> Answer(answers, k).Some?)
  {
  }

  /**
   * The procedure gives 0 exactly when the last frame it sent (WUPA,
   * SELECT_ALL, SELECT or RATS) went unanswered, and every frame before
   * that one was answered.
   */
  lemma SelectTimeouts(answers: seq<seq<byte>>, respInit: seq<byte>, crc: seq<byte> -> (byte, byte), withData: bool)
    requires |respInit| >= 5
    ensures var r := SelectSpec(answers, respInit, crc, withData);
      && |r.sent| > 0
      && (r.code == 0 <==> Answer(answers, |r.sent| - 1).None?)
      && (forall k :: 0 <= k < |r.sent| - 1 ==> Answer(answers, k).Some?)
  {
    var r := SelectSpec(answers, respInit, crc, withData);
    if Answer(answers, 0).Some? {
      var resp := Overlay(respInit, Answer(answers, 0).value);
      var data := if withData then NoData.(atqa := resp[..2]) else NoData;
      var c := CascadeFrom(answers, crc, Start(resp));
      assert r == Conclusion(answers, crc, withData, c, data);
      CascadeAnswers(answers, crc, Start(resp));
      ConclusionAnswers(answers, crc, withData, c, data);
    }
  }

  /**
   * A level whose SELECT_ALL is answered with four UID bytes and the BCC
   * and whose SELECT is answered with a SAK: the four bytes go to the UID
   * at 4 * level and to the crypto UID, the SELECT echoes all five, and
   * the level count goes up.
   */
  lemma AnsweredLevel(answers: seq<seq<byte>>, crc: seq<byte> -> (byte, byte), c: Cascade, a: seq<byte>, sak: byte)
    requires Valid(c) && |c.sent| + 2 <= |answers| && answers[|c.sent|] == a && |a| == 5
    requires |answers[|c.sent| + 1]| > 0 && answers[|c.sent| + 1][0] == sak
    ensures var r := LevelStep(answers, crc, c);
      && r.uid == PutBytes(c.uid, 4 * c.level, a[..4]) && r.cuid == Some(a[..4])
      && r.sak == sak && r.answered && r.level == c.level + 1
      && r.sent == c.sent + [Standard([SelectCmd(c.level), SelectAllNvb]),
                             Standard(WithCrc(crc, [SelectCmd(c.level), SelectNvb] + a))]
  {
    var resp1 := Overlay(c.resp, a);
    assert resp1[..4] == a[..4] && resp1[..5] == a;
    assert Overlay(resp1, answers[|c.sent| + 1])[0] == sak;
  }

  /**
   * A card with a four-byte UID (first byte not the cascade tag) and a
   * SAK (the first byte of its answer) with bit 2 clear is selected in
   * one level: the UID is the four bytes before the BCC, the SELECT
   * carries all five, and the result follows bit 5 of the SAK.
   */
  lemma SingleSizeUid(atqa: seq<byte>, u: seq<byte>, sakAnswer: seq<byte>, respInit: seq<byte>, crc: seq<byte> -> (byte, byte))
    requires |respInit| >= 5 && |atqa| > 0 && |u| == 5 && u[0] != CascadeTag
    requires |sakAnswer| > 0 && !UidIncomplete(sakAnswer[0])
    ensures var r := SelectSpec([atqa, u, sakAnswer], respInit, crc, false);
      && r.code == (if Compliant(sakAnswer[0]) then 1 else 2)
      && r.uid == u[..4] + [0, 0, 0, 0] && r.cuid == Some(u[..4])
      && r.sent == [Short(Wupa), Standard([0x93, SelectAllNvb]), Standard(WithCrc(crc, [0x93, SelectNvb] + u))]
  {
    var answers := [atqa, u, sakAnswer];
    var c0 := Start(Overlay(respInit, atqa));
    AnsweredLevel(answers, crc, c0, u, sakAnswer[0]);
    var c1 := LevelStep(answers, crc, c0);
    assert c1.uid == u[..4] + [0, 0, 0, 0];
    assert CascadeFrom(answers, crc, c0) == c1;
  }

  /**
   * A card with a seven-byte UID answers level 1 with the cascade tag and
   * three UID bytes and level 2 with the other four: the UID comes out
   * with the tag dropped and a zero in byte 7, and the crypto UID is the
   * second level's four bytes.
   */
  lemma DoubleSizeUid(atqa: seq<byte>, u: seq<byte>, sak1: seq<byte>, v: seq<byte>, sak2: seq<byte>,
                      respInit: seq<byte>, crc: seq<byte> -> (byte, byte))
    requires |respInit| >= 5 && |atqa| > 0 && |u| == 5 && u[0] == CascadeTag && |v| == 5
    requires |sak1| > 0 && |sak2| > 0 && UidIncomplete(sak1[0]) && !UidIncomplete(sak2[0])
    ensures var r := SelectSpec([atqa, u, sak1, v, sak2], respInit, crc, false);
      && r.code == (if Compliant(sak2[0]) then 1 else 2)
      && r.uid == u[1..4] + v[..4] + [0] && r.cuid == Some(v[..4])
      && r.sent == [Short(Wupa), Standard([0x93, SelectAllNvb]), Standard(WithCrc(crc, [0x93, SelectNvb] + u)),
                    Standard([0x95, SelectAllNvb]), Standard(WithCrc(crc, [0x95, SelectNvb] + v))]
  {
    var answers := [atqa, u, sak1, v, sak2];
    var c0 := Start(Overlay(respInit, atqa));
    AnsweredLevel(answers, crc, c0, u, sak1[0]);
    var c1 := LevelStep(answers, crc, c0);
    assert c1.uid == u[..4] + [0, 0, 0, 0];
    AnsweredLevel(answers, crc, c1, v, sak2[0]);
    var c2 := LevelStep(answers, crc, c1);
    assert c2.uid == u[..4] + v[..4];
    assert CascadeFrom(answers, crc, c1) == c2;
    assert CascadeFrom(answers, crc, c0) == c2;
    assert StripCascadeTag(c2.uid) == u[1..4] + v[..4] + [0];
  }
}
