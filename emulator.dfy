/**
 * The MIFARE Classic 1K tag emulator (`Mifare1ksim`): the state switch
 * that answers one frame from the reader per pass of its main loop. The
 * Crypto1 cipher, the CRC, the emulated card memory and the byte/number
 * conversions are functions the emulator calls but does not define; they
 * come in an `Env`. The radio is abstracted: a pass receives the frame the
 * decoder left in the receive buffer, and what the emulator sends is
 * recorded as a list of replies.
 */
module Emulator {
  import opened Bits
  import Select
  import Framing

  datatype CardState =
    | NoField | Idle | Select1 | Select2 | Auth1 | Auth2 | Work
    | WriteBlock2 | IntRegInc | IntRegDec | IntRegRestore | Halted

  /** `struct Crypto1State`. */
  datatype Cipher = Cipher(odd: word, even: word)

  /** The emulated card memory, read and written only through `Env`. */
  type Memory = seq<byte>

  /** The primitives the emulator calls, and the ACK/NACK codes. */
  datatype Env = Env(
    destroy: Cipher -> Cipher,                             // crypto1_destroy
    create: nat -> Cipher,                                 // crypto1_create
    getKey: (Memory, byte, byte) -> nat,                   // emlGetKey(sector, key type)
    cipherWord: (Cipher, word, bool) -> (Cipher, word),    // crypto1_word(state, in, is_encrypted)
    successor: (word, nat) -> word,                        // prng_successor
    decrypt: (Cipher, seq<byte>) -> (Cipher, seq<byte>),  // mf_crypto1_decrypt, in place
    encrypt: (Cipher, seq<byte>) -> (Cipher, seq<byte>, word), // mf_crypto1_encrypt, with parity
    encrypt4: (Cipher, byte) -> (Cipher, byte),            // mf_crypto1_encrypt4bit
    getMem: (Memory, byte) -> seq<byte>,                   // emlGetMem of one block
    setMem: (Memory, seq<byte>, byte) -> Memory,           // emlSetMem
    notValueBlock: (Memory, byte) -> bool,                 // emlCheckValBl != 0
    getValue: (Memory, byte) -> (word, byte, bool),        // emlGetValBl: value, address, failed
    setValue: (Memory, word, byte, byte) -> (Memory, bool),  // emlSetValBl: memory, failed
    crc: seq<byte> -> (byte, byte),                        // AppendCrc14443a
    toNum: seq<byte> -> word,                              // bytes_to_num
    toBytes: word -> seq<byte>,                            // num_to_bytes(_, 4)
    ack: byte,                                             // CARD_ACK
    nack: byte)                                            // CARD_NACK_NA

  /** Decryption in place leaves the buffer as long as it was. */
  ghost predicate KeepsLength(env: Env)
  {
    forall c: Cipher, d: seq<byte> :: |env.decrypt(c, d).1| == |d|
  }

  /** What the emulator sends. */
  datatype Reply =
    | Atqa(bytes: seq<byte>, correction: bool)   // EmSendCmdEx
    | Frame(bytes: seq<byte>)                    // EmSendCmd
    | FramePar(bytes: seq<byte>, par: word)      // EmSendCmdPar
    | Nibble(code: byte)                         // EmSend4bit

  /** `cardAUTHKEY` before any authentication. */
  const NoKey: byte := 0xff
  /** `rAUTH_NT`, the tag nonce. */
  const AuthNonce: seq<byte> := [0x01, 0x02, 0x03, 0x04]
  /** `rSAK`: UID complete, and CRC. */
  const Sak: seq<byte> := [0x08, 0xb6, 0xdd]
  /** `rSAK1`: cascade bit set, and CRC. */
  const SakCascade: seq<byte> := [0x04, 0xda, 0x17]
  /** The initial contents of `rUIDBCC2`. */
  const DefaultUidBcc: seq<byte> := [0xde, 0xad, 0xbe, 0xaf, 0x62]

  const Reqa: byte := 0x26
  const Wupa: byte := 0x52
  const Read: byte := 0x30
  const Write: byte := 0xA0
  const Decrement: byte := 0xC0
  const Increment: byte := 0xC1
  const Restore: byte := 0xC2
  const Transfer: byte := 0xB0
  const Halt: byte := 0x50
  const AuthA: byte := 0x60
  const AuthB: byte := 0x61

  // ---------------------------------------------------------- identity

  /** The block check character of four UID bytes. */
  function Bcc(a: byte, b: byte, c: byte, d: byte): byte
  {
    Xor(Xor(Xor(a, b), c), d)
  }

  /** What the emulator answers with during anticollision. */
  datatype Identity = Identity(sevenByte: bool, atqa: seq<byte>, uidBcc1: seq<byte>, uidBcc2: seq<byte>)

  /**
   * The identity set up before the loop from the first eight bytes of
   * memory: byte 7 nonzero means a seven-byte UID, answered over two
   * cascade levels with the cascade tag in front of the first three bytes.
   */
  function IdentityOf(head: seq<byte>): (id: Identity)
    requires |head| >= 8
    ensures |id.atqa| == 2 && |id.uidBcc1| == 5 && |id.uidBcc2| == 5
    ensures id.sevenByte <==> head[7] != 0
    ensures !id.sevenByte ==> id.atqa[0] == 0x04 && id.uidBcc1[..4] == head[..4]
    ensures id.sevenByte ==> && id.atqa[0] == 0x44 && id.uidBcc1[0] == Select.CascadeTag
                             && id.uidBcc1[1..4] == head[..3] && id.uidBcc2[..4] == head[3..7]
  {
    if head[7] == 0 then
      Identity(false, [0x04, 0x00], head[..4] + [Bcc(head[0], head[1], head[2], head[3])], DefaultUidBcc)
    else
      Identity(true, [0x44, 0x00], [0x88] + head[..3] + [Bcc(0x88, head[0], head[1], head[2])],
               head[3..7] + [Bcc(head[3], head[4], head[5], head[6])])
  }

  // ------------------------------------------------------------ state

  /** The variables of `Mifare1ksim` that outlive one pass of the loop, and the replies so far. */
  datatype Card = Card(state: CardState, authKey: byte, authSector: byte, wrbl: byte, cuid: word,
                       intReg: word, intBlock: byte, cipher: Cipher, mem: Memory, sent: seq<Reply>)

  function Initial(mem: Memory): Card
  {
    Card(NoField, NoKey, 0, 0, 0, 0, 0, Cipher(0, 0), mem, [])
  }

  /** What one pass of the loop gets from `EmGetCmd`: a frame in the receive buffer, or the field gone. */
  datatype Input = Received(rx: seq<byte>, len: nat) | FieldLost

  /** The receive buffer holds the frame and at least the four bytes the value states copy. */
  predicate BufferOk(rx: seq<byte>, len: nat)
  {
    len <= |rx| && 4 <= |rx|
  }

  /** `a ^ b` on naturals, one bit at a time. */
  function XorNat(a: nat, b: nat): nat
    decreases a + b
  {
    if a == 0 then b else if b == 0 then a else (a + b) % 2 + 2 * XorNat(a / 2, b / 2)
  }

  /** The XOR of two k-bit numbers has k bits. */
  lemma {:induction false} XorNatBound(a: nat, b: nat, k: nat)
    requires a < Framing.Pow2(k) && b < Framing.Pow2(k)
    ensures XorNat(a, b) < Framing.Pow2(k)
    decreases a + b
  {
    if a != 0 && b != 0 {
      XorNatBound(a / 2, b / 2, k - 1);
    }
  }

  /** Every pair of numbers splits into its low bits and the rest, zeros included. */
  lemma XorNatStep(a: nat, b: nat)
    ensures XorNat(a, b) == (a + b) % 2 + 2 * XorNat(a / 2, b / 2)
  {
  }

  /** XOR is commutative. */
  lemma {:induction false} XorNatCommutes(a: nat, b: nat)
    ensures XorNat(a, b) == XorNat(b, a)
    decreases a + b
  {
    if a != 0 && b != 0 {
      XorNatCommutes(a / 2, b / 2);
    }
  }

  /** XORing twice with the same keystream gives the plain value back. */
  lemma {:induction false} XorNatInvolution(a: nat, b: nat)
    ensures XorNat(XorNat(a, b), b) == a
    decreases a + b
  {
    if a + b > 0 {
      var x := XorNat(a, b);
      XorNatStep(a, b);
      XorNatStep(x, b);
      assert x / 2 == XorNat(a / 2, b / 2) && x % 2 == (a + b) % 2;
      XorNatInvolution(a / 2, b / 2);
    }
  }

  /** `a ^ b` on 32-bit words. */
  function XorWord(a: word, b: word): word
  {
    assert Framing.Pow2(32) == Word32 by {
      Framing.Pow2Add(8, 8);
      Framing.Pow2Add(16, 16);
      assert Framing.Pow2(8) == 256;
    }
    XorNatBound(a, b, 32);
    XorNat(a, b)
  }

  /** `EmSend4bit(mf_crypto1_encrypt4bit(pcs, code))`. */
  function Send4(env: Env, s: Card, code: byte): (r: Card)
    ensures r == s.(cipher := r.cipher, sent := s.sent + [Nibble(env.encrypt4(s.cipher, code).1)])
  {
    var cs := env.encrypt4(s.cipher, code);
    var c, n := cs.0, cs.1;
    s.(cipher := c, sent := s.sent + [Nibble(n)])
  }

  /** `cardSTATE_TO_IDLE()`. */
  function ToIdle(s: Card): Card
  {
    s.(state := Idle)
  }

  /** A block outside the authenticated sector, or past the last block. */
  predicate OutOfSector(s: Card, blk: byte)
  {
    blk >= 16 * 4 || blk / 4 != s.authSector
  }

  /** A one-byte REQA (not in HALTED) or WUPA (in any state). */
  predicate Wakes(s: Card, rx: seq<byte>, len: nat)
    requires len <= |rx|
  {
    len == 1 && ((rx[0] == Reqa && s.state != Halted) || rx[0] == Wupa)
  }

  // ----------------------------------------------------- one frame

  /** Before the switch: REQA or WUPA answers the ATQA and restarts the selection. */
  function Wake(env: Env, id: Identity, s: Card, rx: seq<byte>, len: nat): Card
    requires len <= |rx|
  {
    if len != 4 && s.state != NoField && Wakes(s, rx, len) then
      s.(sent := s.sent + [Atqa(id.atqa, rx[0] == Wupa)], state := Select1, cipher := env.destroy(s.cipher),
         authKey := NoKey)
    else s
  }

  /** SELECT1: SELECT_ALL gets the first UID fragment, SELECT of it gets the SAK. */
  function Anticollision1(env: Env, id: Identity, s: Card, rx: seq<byte>, len: nat): Card
    requires len <= |rx| && |id.uidBcc1| == 5
  {
    if len == 2 && rx[0] == 0x93 && rx[1] == 0x20 then s.(sent := s.sent + [Frame(id.uidBcc1)])
    else if len == 9 && rx[0] == 0x93 && rx[1] == 0x70 && rx[2..6] == id.uidBcc1[..4] then
      s.(sent := s.sent + [Frame(if id.sevenByte then SakCascade else Sak)], cuid := env.toNum(id.uidBcc1[..4]),
         state := if id.sevenByte then Select2 else Work)
    else s
  }

  /** AUTH: sector and key type from the command, a fresh cipher, and the nonce (encrypted when nested). */
  function Authenticate(env: Env, nonce: word, s: Card, op: byte, blk: byte, nested: bool): Card
    requires op == AuthA || op == AuthB
  {
    var sector := blk / 4;
    var key := op - AuthA;
    var cs := env.cipherWord(env.create(env.getKey(s.mem, sector, key)), XorWord(s.cuid, nonce), false);
    var c, w := cs.0, cs.1;
    var ans := XorWord(nonce, w);
    s.(authSector := sector, authKey := key, cipher := c, state := Auth1,
       sent := s.sent + [Frame(env.toBytes(if nested then ans else nonce))])
  }

  /** The WORK commands after authentication, on the command as the emulator reads it. */
  function Command(env: Env, s: Card, cmd: seq<byte>, len: nat): Card
    requires len <= |cmd|
  {
    if len == 1 && cmd[0] == env.ack then Send4(env, s, env.nack)
    else if len == 1 && cmd[0] == env.nack then Send4(env, s, env.ack)
    else if len != 4 then s
    else
      var op := cmd[0];
      var blk := cmd[1];
      if op == Read then
        if OutOfSector(s, blk) then Send4(env, s, env.nack)
        else
          var cs := env.encrypt(s.cipher, Select.WithCrc(env.crc, env.getMem(s.mem, blk)));
          var c, e, par := cs.0, cs.1, cs.2;
          s.(cipher := c, sent := s.sent + [FramePar(e, par)])
      else if op == Write then
        if OutOfSector(s, blk) then Send4(env, s, env.nack)
        else Send4(env, s, env.ack).(state := WriteBlock2, wrbl := blk)
      else if op == Increment || op == Decrement || op == Restore then
        if OutOfSector(s, blk) || env.notValueBlock(s.mem, blk) then Send4(env, s, env.nack)
        else
          Send4(env, s, env.ack).(state := if op == Increment then IntRegInc else if op == Decrement then IntRegDec
                                           else IntRegRestore, wrbl := blk)
      else if op == Transfer then
        if OutOfSector(s, blk) then Send4(env, s, env.nack)
        else
          var ms := env.setValue(s.mem, s.intReg, s.intBlock, blk);
          var m, failed := ms.0, ms.1;
          Send4(env, s.(mem := m), if failed then env.nack else env.ack)
      else if op == Halt && blk == 0 then s.(state := Halted)
      else Send4(env, s, env.nack)
  }

  /** The cipher state and the buffer the WORK commands read: decrypted once a key is in use. */
  function Plain(env: Env, s: Card, rx: seq<byte>, len: nat): (p: (Cipher, seq<byte>))
    requires KeepsLength(env) && len <= |rx|
    ensures |p.1| == |rx|
    ensures s.authKey == NoKey ==> p == (s.cipher, rx)
    ensures p.1[len..] == rx[len..]
  {
    if s.authKey == NoKey then (s.cipher, rx)
    else
      var cs := env.decrypt(s.cipher, rx[..len]);
      var c, d := cs.0, cs.1;
      (c, d + rx[len..])
  }

  /** WORK (`lbWORK`). */
  function WorkStep(env: Env, nonce: word, s: Card, rx: seq<byte>, len: nat): Card
    requires KeepsLength(env) && len <= |rx|
  {
    if len == 0 then s
    else
      var cs := Plain(env, s, rx, len);
      var c, cmd := cs.0, cs.1;
      if len == 4 && (cmd[0] == AuthA || cmd[0] == AuthB) then
        Authenticate(env, nonce, s.(cipher := c), cmd[0], cmd[1], s.authKey != NoKey)
      else Command(env, s.(cipher := c), cmd, len)
  }

  /** SELECT2: the second UID fragment; any other four-byte frame is taken as a WORK command. */
  function Anticollision2(env: Env, id: Identity, nonce: word, s: Card, rx: seq<byte>, len: nat): Card
    requires KeepsLength(env) && len <= |rx| && |id.uidBcc2| == 5
  {
    if len == 0 then s
    else if len == 2 && rx[0] == 0x95 && rx[1] == 0x20 then s.(sent := s.sent + [Frame(id.uidBcc2)])
    else if len == 9 && rx[0] == 0x95 && rx[1] == 0x70 && rx[2..6] == id.uidBcc2[..4] then
      s.(sent := s.sent + [Frame(Sak)], cuid := env.toNum(id.uidBcc2[..4]), state := Work)
    else if len != 4 then s
    else WorkStep(env, nonce, s.(state := Work), rx, len)
  }

  /**
   * AUTH1: the reader's nonce and answer, eight bytes; an answer that is
   * not the successor of the tag nonce drops to IDLE, a good one is
   * answered and, through AUTH2, leads to WORK.
   */
  function AuthAnswer(env: Env, nonce: word, s: Card, rx: seq<byte>, len: nat): Card
    requires len <= |rx|
  {
    if len != 8 then ToIdle(s)
    else
      var c1s := env.cipherWord(s.cipher, env.toNum(rx[..4]), true);
      var c1 := c1s.0;
      var c2s := env.cipherWord(c1, 0, false);
      var c2, w2 := c2s.0, c2s.1;
      if XorWord(env.toNum(rx[4..8]), w2) != env.successor(nonce, 64) then ToIdle(s.(cipher := c2))
      else
        var c3s := env.cipherWord(c2, 0, false);
        var c3, w3 := c3s.0, c3s.1;
        s.(cipher := c3, sent := s.sent + [Frame(env.toBytes(XorWord(env.successor(nonce, 96), w3)))], state := Work)
  }

  /** WRITEBL2: an eighteen-byte frame carries the block (and CRC); anything else drops to IDLE. */
  function WriteSecond(env: Env, s: Card, rx: seq<byte>, len: nat): Card
    requires KeepsLength(env) && len <= |rx|
  {
    if len != 18 then ToIdle(s)
    else
      var cs := env.decrypt(s.cipher, rx[..18]);
      var c, d := cs.0, cs.1;
      Send4(env, s.(cipher := c, mem := env.setMem(s.mem, d[..16], s.wrbl)), env.ack).(state := Work)
  }

  /** The operand of INCREMENT, DECREMENT or RESTORE: four bytes, least significant first. */
  function Operand(d: seq<byte>): word
    requires |d| >= 4
  {
    FromLittleEndian(d[0], d[1], d[2], d[3])
  }

  /**
   * INTREG_INC, INTREG_DEC, INTREG_REST: the value block is loaded into
   * the register, the operand added or subtracted in 32 bits, and WORK
   * resumed; a block that is not a value block is NACKed and drops to IDLE,
   * the register and its block address as they were.
   */
  function ValueStep(env: Env, s: Card, rx: seq<byte>, len: nat): Card
    requires KeepsLength(env) && BufferOk(rx, len)
    requires s.state == IntRegInc || s.state == IntRegDec || s.state == IntRegRestore
  {
    var cs := env.decrypt(s.cipher, rx[..len]);
    var c, d := cs.0, cs.1;
    var ans := Operand(d + rx[len..]);
    var vs := env.getValue(s.mem, s.wrbl);
    var v, blk, failed := vs.0, vs.1, vs.2;
    if failed then ToIdle(Send4(env, s.(cipher := c), env.nack))
    else
      var s1 := s.(cipher := c, intReg := v, intBlock := blk);
      if s.state == IntRegInc then s1.(intReg := (v + ans) % Word32, state := Work)
      else if s.state == IntRegDec then s1.(intReg := (v - ans) % Word32, state := Work)
      else s1.(state := Work)
  }

  /** The `switch (cardSTATE)`. */
  function Dispatch(env: Env, id: Identity, nonce: word, s: Card, rx: seq<byte>, len: nat): Card
    requires KeepsLength(env) && BufferOk(rx, len) && |id.uidBcc1| == 5 && |id.uidBcc2| == 5
  {
    match s.state
    case NoField => s
    case Halted => s
    case Idle => s
    case Select1 => Anticollision1(env, id, s, rx, len)
    case Select2 => Anticollision2(env, id, nonce, s, rx, len)
    case Auth1 => AuthAnswer(env, nonce, s, rx, len)
    case Auth2 => s.(state := Work)
    case Work => WorkStep(env, nonce, s, rx, len)
    case WriteBlock2 => WriteSecond(env, s, rx, len)
    case IntRegInc => ValueStep(env, s, rx, len)
    case IntRegDec => ValueStep(env, s, rx, len)
    case IntRegRestore => ValueStep(env, s, rx, len)
  }

  /** One received frame: the REQA/WUPA check, then the switch. */
  function OnFrame(env: Env, id: Identity, nonce: word, s: Card, rx: seq<byte>, len: nat): Card
    requires KeepsLength(env) && BufferOk(rx, len) && |id.uidBcc1| == 5 && |id.uidBcc2| == 5
  {
    Dispatch(env, id, nonce, Wake(env, id, s, rx, len), rx, len)
  }

  /**
   * One pass of the main loop: without a field nothing is received until
   * the field is seen (then IDLE); a lost field gives NOFIELD.
   */
  function Cycle(env: Env, id: Identity, nonce: word, s: Card, fieldSeen: bool, inp: Input): Card
    requires inp.Received? ==> BufferOk(inp.rx, inp.len)
    requires KeepsLength(env) && |id.uidBcc1| == 5 && |id.uidBcc2| == 5
  {
    var s1 := if s.state == NoField && fieldSeen then ToIdle(s) else s;
    if s1.state == NoField then s1
    else
      match inp
      case FieldLost => s1.(state := NoField)
      case Received(rx, len) => OnFrame(env, id, nonce, s1, rx, len)
  }

  // ------------------------------------------------------------ properties

  lemma XorSelf(x: byte)
    ensures Xor(x, x) == 0
  {
    assert (x as bv8) ^ (x as bv8) == 0;
  }

  /**
   * Each UID fragment the emulator answers with ends in its BCC, so the
   * reader's check (the XOR of all five bytes is zero) passes.
   */
  lemma FragmentsCheck(head: seq<byte>)
    requires |head| >= 8
    ensures var u := IdentityOf(head).uidBcc1; Xor(Bcc(u[0], u[1], u[2], u[3]), u[4]) == 0
    ensures head[7] != 0 ==> var v := IdentityOf(head).uidBcc2; Xor(Bcc(v[0], v[1], v[2], v[3]), v[4]) == 0
  {
    var id := IdentityOf(head);
    XorSelf(id.uidBcc1[4]);
    XorSelf(id.uidBcc2[4]);
  }

  /**
   * The SAKs the emulator sends: `rSAK1` has the cascade bit, `rSAK`
   * neither the cascade bit nor bit 5, so a reader stops after it and
   * reports a card that is not ISO/IEC 14443-4 compliant.
   */
  lemma SakBits()
    ensures Select.UidIncomplete(SakCascade[0])
    ensures !Select.UidIncomplete(Sak[0]) && !Select.Compliant(Sak[0])
  {
  }

  /**
   * The encrypted nonce of a nested authentication is the nonce XOR the
   * keystream word; XORing the same word again gives the nonce back.
   */
  lemma NestedNonceRecovered(nonce: word, w: word)
    ensures XorWord(XorWord(nonce, w), w) == nonce
  {
    XorNatInvolution(nonce, w);
  }

  /**
   * An AUTH during an authenticated session (nested) sends the nonce
   * encrypted with the keystream word of the new cipher, the same word
   * the reader XORs it with to recover the nonce.
   */
  lemma NestedAuth(env: Env, id: Identity, nonce: word, s: Card, rx: seq<byte>)
    requires KeepsLength(env) && |id.uidBcc1| == 5 && |id.uidBcc2| == 5
    requires |rx| >= 4 && s.state == Work && s.authKey != NoKey
    requires var cmd := Plain(env, s, rx, 4).1; cmd[0] == AuthA || cmd[0] == AuthB
    ensures var cmd := Plain(env, s, rx, 4).1;
      var w := env.cipherWord(env.create(env.getKey(s.mem, cmd[1] / 4, cmd[0] - AuthA)), XorWord(s.cuid, nonce), false).1;
      var r := OnFrame(env, id, nonce, s, rx, 4);
      && r.state == Auth1 && r.authSector == cmd[1] / 4 && r.authKey == cmd[0] - AuthA
      && exists e :: r.sent == s.sent + [Frame(env.toBytes(e))] && XorWord(e, w) == nonce
  {
    var cmd := Plain(env, s, rx, 4).1;
    var w := env.cipherWord(env.create(env.getKey(s.mem, cmd[1] / 4, cmd[0] - AuthA)), XorWord(s.cuid, nonce), false).1;
    NestedNonceRecovered(nonce, w);
    XorNatCommutes(nonce, w);
    var e := XorWord(nonce, w);
    assert XorWord(e, w) == nonce;
  }

  /** A HALTED card ignores REQA. */
  lemma HaltedIgnoresReqa(env: Env, id: Identity, nonce: word, s: Card, rx: seq<byte>)
    requires KeepsLength(env) && |id.uidBcc1| == 5 && |id.uidBcc2| == 5
    requires |rx| >= 4 && rx[0] == Reqa && s.state == Halted
    ensures OnFrame(env, id, nonce, s, rx, 1) == s
  {
  }

  /**
   * WUPA in any state with a field, and REQA in any but HALTED, answer
   * the ATQA (WUPA with the correction flag) and restart the selection
   * with no key; memory is untouched.
   */
  lemma WakeUp(env: Env, id: Identity, nonce: word, s: Card, rx: seq<byte>)
    requires KeepsLength(env) && |id.uidBcc1| == 5 && |id.uidBcc2| == 5
    requires |rx| >= 4 && s.state != NoField
    requires rx[0] == Wupa || (rx[0] == Reqa && s.state != Halted)
    ensures var r := OnFrame(env, id, nonce, s, rx, 1);
      && r.state == Select1 && r.authKey == NoKey && r.mem == s.mem
      && r.sent == s.sent + [Atqa(id.atqa, rx[0] == Wupa)]
  {
  }

  /** The six commands a block guard protects. */
  predicate Guarded(op: byte)
  {
    op == Read || op == Write || op == Increment || op == Decrement || op == Restore || op == Transfer
  }

  /**
   * In WORK, a READ, WRITE, INCREMENT, DECREMENT, RESTORE or TRANSFER of a
   * block past the last one or outside the authenticated sector is
   * answered with an encrypted NACK and changes neither the state, nor
   * memory, nor the pending block and value.
   */
  lemma OutOfSectorNack(env: Env, id: Identity, nonce: word, s: Card, rx: seq<byte>)
    requires KeepsLength(env) && |id.uidBcc1| == 5 && |id.uidBcc2| == 5
    requires |rx| >= 4 && s.state == Work
    requires var cmd := Plain(env, s, rx, 4).1; Guarded(cmd[0]) && OutOfSector(s, cmd[1])
    ensures var r := OnFrame(env, id, nonce, s, rx, 4);
      && r.state == Work && r.mem == s.mem && r.wrbl == s.wrbl && r.intReg == s.intReg
      && r.authKey == s.authKey && r.authSector == s.authSector
      && r.sent == s.sent + [Nibble(env.encrypt4(Plain(env, s, rx, 4).0, env.nack).1)]
  {
    var p := Plain(env, s, rx, 4);
    assert OnFrame(env, id, nonce, s, rx, 4) == Command(env, s.(cipher := p.0), p.1, 4);
  }

  /** In WORK, a READ inside the authenticated sector answers the block and its CRC, encrypted. */
  lemma ReadInSector(env: Env, id: Identity, nonce: word, s: Card, rx: seq<byte>)
    requires KeepsLength(env) && |id.uidBcc1| == 5 && |id.uidBcc2| == 5
    requires |rx| >= 4 && s.state == Work
    requires var cmd := Plain(env, s, rx, 4).1; cmd[0] == Read && !OutOfSector(s, cmd[1])
    ensures var p := Plain(env, s, rx, 4);
      var e := env.encrypt(p.0, Select.WithCrc(env.crc, env.getMem(s.mem, p.1[1])));
      OnFrame(env, id, nonce, s, rx, 4) == s.(cipher := e.0, sent := s.sent + [FramePar(e.1, e.2)])
  {
    var p := Plain(env, s, rx, 4);
    assert OnFrame(env, id, nonce, s, rx, 4) == Command(env, s.(cipher := p.0), p.1, 4);
  }

  /** In WORK, a WRITE inside the authenticated sector is ACKed and waits for the data in WRITEBL2. */
  lemma WriteFirstStep(env: Env, id: Identity, nonce: word, s: Card, rx: seq<byte>)
    requires KeepsLength(env) && |id.uidBcc1| == 5 && |id.uidBcc2| == 5
    requires |rx| >= 4 && s.state == Work
    requires var cmd := Plain(env, s, rx, 4).1; cmd[0] == Write && !OutOfSector(s, cmd[1])
    ensures var p := Plain(env, s, rx, 4);
      var r := OnFrame(env, id, nonce, s, rx, 4);
      && r.state == WriteBlock2 && r.wrbl == p.1[1] && r.mem == s.mem
      && r.sent == s.sent + [Nibble(env.encrypt4(p.0, env.ack).1)]
  {
    var p := Plain(env, s, rx, 4);
    assert OnFrame(env, id, nonce, s, rx, 4) == Command(env, s.(cipher := p.0), p.1, 4);
  }

  /**
   * WRITEBL2: an eighteen-byte frame is decrypted, its first sixteen bytes
   * written to the pending block, ACKed, and WORK resumed; any other frame
   * (but a wake-up) drops to IDLE with nothing sent and memory untouched.
   */
  lemma WriteSecondStep(env: Env, id: Identity, nonce: word, s: Card, rx: seq<byte>, len: nat)
    requires KeepsLength(env) && |id.uidBcc1| == 5 && |id.uidBcc2| == 5
    requires BufferOk(rx, len) && s.state == WriteBlock2 && !Wakes(s, rx, len)
    ensures var r := OnFrame(env, id, nonce, s, rx, len);
      && (len != 18 ==> r == s.(state := Idle))
      && (len == 18 ==> var d := env.decrypt(s.cipher, rx[..18]);
            && r.state == Work && r.mem == env.setMem(s.mem, d.1[..16], s.wrbl)
            && r.sent == s.sent + [Nibble(env.encrypt4(d.0, env.ack).1)])
  {
  }

  /**
   * AUTH1: a frame that is not eight bytes, or whose second word does not
   * decrypt to the nonce's 64th successor, drops to IDLE with nothing sent;
   * a right one is answered with the encrypted 96th successor and leads
   * to WORK.
   */
  lemma AuthCheck(env: Env, id: Identity, nonce: word, s: Card, rx: seq<byte>, len: nat)
    requires KeepsLength(env) && |id.uidBcc1| == 5 && |id.uidBcc2| == 5
    requires BufferOk(rx, len) && s.state == Auth1 && !Wakes(s, rx, len)
    ensures var r := OnFrame(env, id, nonce, s, rx, len);
      && (len != 8 ==> r == s.(state := Idle))
      && (len == 8 ==>
            var c1 := env.cipherWord(s.cipher, env.toNum(rx[..4]), true).0;
            var w2 := env.cipherWord(c1, 0, false);
            var ok := XorWord(env.toNum(rx[4..8]), w2.1) == env.successor(nonce, 64);
            && r.mem == s.mem && r.authKey == s.authKey
            && (!ok ==> r.state == Idle && r.sent == s.sent)
            && (ok ==> r.state == Work && |r.sent| == |s.sent| + 1 && r.sent[..|s.sent|] == s.sent
                       && r.sent[|s.sent|] == Frame(env.toBytes(XorWord(env.successor(nonce, 96),
                                                                        env.cipherWord(w2.0, 0, false).1)))))
  {
  }

  /**
   * In WORK with no key, a four-byte AUTH names the sector (block / 4)
   * and key type, and is answered with the plain nonce; the card waits in
   * AUTH1 for the reader's answer.
   */
  lemma FirstAuth(env: Env, id: Identity, nonce: word, s: Card, rx: seq<byte>)
    requires KeepsLength(env) && |id.uidBcc1| == 5 && |id.uidBcc2| == 5
    requires |rx| >= 4 && s.state == Work && s.authKey == NoKey && (rx[0] == AuthA || rx[0] == AuthB)
    ensures var r := OnFrame(env, id, nonce, s, rx, 4);
      && r.state == Auth1 && r.authSector == rx[1] / 4 && r.authKey == rx[0] - AuthA
      && r.mem == s.mem && r.sent == s.sent + [Frame(env.toBytes(nonce))]
  {
  }

  /** In WORK, a decrypted HALT (0x50 0x00) halts the card without an answer. */
  lemma HaltCommand(env: Env, id: Identity, nonce: word, s: Card, rx: seq<byte>)
    requires KeepsLength(env) && |id.uidBcc1| == 5 && |id.uidBcc2| == 5
    requires |rx| >= 4 && s.state == Work
    requires var cmd := Plain(env, s, rx, 4).1; cmd[0] == Halt && cmd[1] == 0
    ensures OnFrame(env, id, nonce, s, rx, 4) == s.(state := Halted, cipher := Plain(env, s, rx, 4).0)
  {
    var p := Plain(env, s, rx, 4);
    assert OnFrame(env, id, nonce, s, rx, 4) == Command(env, s.(cipher := p.0), p.1, 4);
  }

  /**
   * The operand state: the value block is loaded and the four-byte
   * operand added (INC) or subtracted (DEC) modulo 2^32, or the value kept
   * (RESTORE), and WORK resumed; a block that is not a value block is
   * NACKed and drops to IDLE, leaving the register and its block address.
   */
  lemma OperandApplied(env: Env, id: Identity, nonce: word, s: Card, rx: seq<byte>, len: nat)
    requires KeepsLength(env) && |id.uidBcc1| == 5 && |id.uidBcc2| == 5 && BufferOk(rx, len) && !Wakes(s, rx, len)
    requires s.state == IntRegInc || s.state == IntRegDec || s.state == IntRegRestore
    ensures var r := OnFrame(env, id, nonce, s, rx, len);
      var d := env.decrypt(s.cipher, rx[..len]);
      var ans := Operand(d.1 + rx[len..]);
      var g := env.getValue(s.mem, s.wrbl);
      && r.mem == s.mem && r.intBlock == (if g.2 then s.intBlock else g.1)
      && (g.2 ==> r.state == Idle && r.sent == s.sent + [Nibble(env.encrypt4(d.0, env.nack).1)] && r.intReg == s.intReg)
      && (!g.2 ==> r.state == Work && r.sent == s.sent)
      && (!g.2 && s.state == IntRegInc ==> r.intReg == (g.0 + ans) % Word32)
      && (!g.2 && s.state == IntRegDec ==> r.intReg == (g.0 - ans) % Word32)
      && (!g.2 && s.state == IntRegRestore ==> r.intReg == g.0)
  {
  }

  /**
   * A pass of the loop: without a field nothing happens until one is
   * seen; then the card is IDLE before the frame is handled; a lost field
   * gives NOFIELD, whatever the state.
   */
  lemma FieldEvents(env: Env, id: Identity, nonce: word, s: Card, fieldSeen: bool, inp: Input)
    requires KeepsLength(env) && |id.uidBcc1| == 5 && |id.uidBcc2| == 5
    requires inp.Received? ==> BufferOk(inp.rx, inp.len)
    ensures var r := Cycle(env, id, nonce, s, fieldSeen, inp);
      && (s.state == NoField && !fieldSeen ==> r == s)
      && (inp.FieldLost? ==> r.state == NoField && r.sent == s.sent && r.mem == s.mem)
      && (s.state == NoField && fieldSeen && inp.Received? ==> r == OnFrame(env, id, nonce, s.(state := Idle), inp.rx, inp.len))
  {
  }

  // ------------------------------------------------------- reader meets emulator

  /** A reader request as it lands in the emulator's receive buffer (padded to the four bytes it may read). */
  function Heard(q: Select.Request): (rl: (seq<byte>, nat))
    ensures BufferOk(rl.0, rl.1)
    ensures q.Short? ==> rl.1 == 1 && rl.0[0] == q.cmd
    ensures q.Standard? ==> rl.1 == |q.bytes| && rl.0[..rl.1] == q.bytes
  {
    match q
    case Short(cmd) => ([cmd, 0, 0, 0], 1)
    case Standard(bytes) => (bytes + [0, 0, 0, 0], |bytes|)
  }

  /** The emulator's state after hearing each request in turn. */
  function Hears(env: Env, id: Identity, nonce: word, s: Card, qs: seq<Select.Request>): Card
    requires KeepsLength(env) && |id.uidBcc1| == 5 && |id.uidBcc2| == 5
    decreases |qs|
  {
    if |qs| == 0 then s
    else Hears(env, id, nonce, OnFrame(env, id, nonce, s, Heard(qs[0]).0, Heard(qs[0]).1), qs[1..])
  }

  /** Hearing one more request is handling it after the others. */
  lemma {:induction false} HearsSnoc(env: Env, id: Identity, nonce: word, s: Card, qs: seq<Select.Request>, q: Select.Request)
    requires KeepsLength(env) && |id.uidBcc1| == 5 && |id.uidBcc2| == 5
    ensures Hears(env, id, nonce, s, qs + [q])
         == OnFrame(env, id, nonce, Hears(env, id, nonce, s, qs), Heard(q).0, Heard(q).1)
    decreases |qs|
  {
    if |qs| > 0 {
      assert (qs + [q])[1..] == qs[1..] + [q];
      HearsSnoc(env, id, nonce, OnFrame(env, id, nonce, s, Heard(qs[0]).0, Heard(qs[0]).1), qs[1..], q);
    }
  }

  /** Hearing two lists of requests is hearing the first, then the second. */
  lemma {:induction false} HearsAppend(env: Env, id: Identity, nonce: word, s: Card, qs: seq<Select.Request>, rs: seq<Select.Request>)
    requires KeepsLength(env) && |id.uidBcc1| == 5 && |id.uidBcc2| == 5
    ensures Hears(env, id, nonce, s, qs + rs) == Hears(env, id, nonce, Hears(env, id, nonce, s, qs), rs)
    decreases |qs|
  {
    if |qs| > 0 {
      assert (qs + rs)[1..] == qs[1..] + rs;
      HearsAppend(env, id, nonce, OnFrame(env, id, nonce, s, Heard(qs[0]).0, Heard(qs[0]).1), qs[1..], rs);
    } else {
      assert qs + rs == rs;
    }
  }

  /** The reader's three requests of cascade level 1. */
  function Level1Requests(id: Identity, crc: seq<byte> -> (byte, byte)): seq<Select.Request>
  {
    [Select.Short(Select.Wupa), Select.Standard([0x93, Select.SelectAllNvb]),
     Select.Standard(Select.WithCrc(crc, [0x93, Select.SelectNvb] + id.uidBcc1))]
  }

  /** The reader's two requests of cascade level 2. */
  function Level2Requests(id: Identity, crc: seq<byte> -> (byte, byte)): seq<Select.Request>
  {
    [Select.Standard([0x95, Select.SelectAllNvb]), Select.Standard(Select.WithCrc(crc, [0x95, Select.SelectNvb] + id.uidBcc2))]
  }

  /**
   * Cascade level 1: the emulator answers WUPA with its ATQA, SELECT_ALL
   * with the first fragment and its BCC, and the SELECT of that fragment
   * with the SAK, the cascade SAK for a seven-byte UID; it then takes the
   * fragment as crypto UID and goes to WORK, or to SELECT2 for a
   * seven-byte UID.
   */
  lemma EmulatorLevel1(env: Env, id: Identity, nonce: word, s: Card, crc: seq<byte> -> (byte, byte))
    requires KeepsLength(env) && |id.uidBcc1| == 5 && |id.uidBcc2| == 5
    requires s.state != NoField
    ensures var t := Hears(env, id, nonce, s, Level1Requests(id, crc));
      && t.sent == s.sent + [Atqa(id.atqa, true), Frame(id.uidBcc1), Frame(if id.sevenByte then SakCascade else Sak)]
      && t.state == (if id.sevenByte then Select2 else Work) && t.cuid == env.toNum(id.uidBcc1[..4])
  {
    var qs := Level1Requests(id, crc);
    var q0, q1, q2 := qs[0], qs[1], qs[2];
    var s1 := OnFrame(env, id, nonce, s, Heard(q0).0, Heard(q0).1);
    assert s1.sent == s.sent + [Atqa(id.atqa, true)] && s1.state == Select1;
    var s2 := OnFrame(env, id, nonce, s1, Heard(q1).0, Heard(q1).1);
    assert s2 == s1.(sent := s1.sent + [Frame(id.uidBcc1)]);
    var h := Heard(q2);
    assert h.0[2..6] == id.uidBcc1[..4];
    HearsSnoc(env, id, nonce, s, [], q0);
    HearsSnoc(env, id, nonce, s, [q0], q1);
    assert [q0] + [q1] == [q0, q1];
    HearsSnoc(env, id, nonce, s, [q0, q1], q2);
    assert [q0, q1] + [q2] == qs;
  }

  /**
   * Cascade level 2 of a seven-byte UID: SELECT_ALL gets the second
   * fragment and its BCC, its SELECT the final SAK; the emulator takes the
   * second fragment as crypto UID and goes to WORK.
   */
  lemma EmulatorLevel2(env: Env, id: Identity, nonce: word, s: Card, crc: seq<byte> -> (byte, byte))
    requires KeepsLength(env) && |id.uidBcc1| == 5 && |id.uidBcc2| == 5
    requires s.state == Select2
    ensures var t := Hears(env, id, nonce, s, Level2Requests(id, crc));
      && t.sent == s.sent + [Frame(id.uidBcc2), Frame(Sak)]
      && t.state == Work && t.cuid == env.toNum(id.uidBcc2[..4])
  {
    var qs := Level2Requests(id, crc);
    var q0, q1 := qs[0], qs[1];
    var s1 := OnFrame(env, id, nonce, s, Heard(q0).0, Heard(q0).1);
    assert s1 == s.(sent := s.sent + [Frame(id.uidBcc2)]);
    var h := Heard(q1);
    assert h.0[2..6] == id.uidBcc2[..4];
    HearsSnoc(env, id, nonce, s, [], q0);
    HearsSnoc(env, id, nonce, s, [q0], q1);
    assert [q0] + [q1] == qs;
  }

  /**
   * The selection of a four-byte UID between the reader and the emulator:
   * the reader's requests (WUPA, SELECT_ALL, SELECT) are each answered
   * by one reply, the reader fed with those replies comes out with the
   * emulator's UID and crypto UID and, since the SAK does not claim
   * ISO/IEC 14443-4, with code 2; the emulator ends in WORK.
   */
  lemma SingleSizeConversation(env: Env, head: seq<byte>, nonce: word, s: Card,
                               respInit: seq<byte>, crc: seq<byte> -> (byte, byte))
    requires KeepsLength(env) && |head| >= 8 && head[7] == 0 && head[0] != Select.CascadeTag
    requires s.state != NoField && |respInit| >= 5
    ensures var id := IdentityOf(head);
      var r := Select.SelectSpec([id.atqa, id.uidBcc1, Sak], respInit, crc, false);
      var t := Hears(env, id, nonce, s, r.sent);
      && r.code == 2 && r.uid == head[..4] + [0, 0, 0, 0] && r.cuid == Some(head[..4])
      && t.sent == s.sent + [Atqa(id.atqa, true), Frame(id.uidBcc1), Frame(Sak)]
      && t.state == Work && t.cuid == env.toNum(head[..4])
  {
    var id := IdentityOf(head);
    SakBits();
    Select.SingleSizeUid(id.atqa, id.uidBcc1, Sak, respInit, crc);
    EmulatorLevel1(env, id, nonce, s, crc);
  }

  /** The seven UID bytes come back from the two fragments of a seven-byte identity. */
  lemma SevenByteFragments(head: seq<byte>)
    requires |head| >= 8 && head[7] != 0
    ensures var id := IdentityOf(head); id.uidBcc1[1..4] + id.uidBcc2[..4] + [0] == head[..7] + [0]
  {
  }

  /** The replies of the two levels, one after the other. */
  lemma RepliesJoin(a: seq<Reply>, x: seq<Reply>, y: seq<Reply>, xs: seq<Reply>, b: seq<Reply>)
    requires xs == a + x && b == xs + y
    ensures b == a + (x + y)
  {
  }

  /**
   * The selection of a seven-byte UID between the reader and the
   * emulator: five requests, five replies, and the reader comes out with
   * the seven UID bytes (a zero after them), the second fragment as crypto
   * UID and code 2.
   */
  lemma DoubleSizeConversation(env: Env, head: seq<byte>, nonce: word, s: Card,
                               respInit: seq<byte>, crc: seq<byte> -> (byte, byte))
    requires KeepsLength(env) && |head| >= 8 && head[7] != 0
    requires s.state != NoField && |respInit| >= 5
    ensures var id := IdentityOf(head);
      var r := Select.SelectSpec([id.atqa, id.uidBcc1, SakCascade, id.uidBcc2, Sak], respInit, crc, false);
      var t := Hears(env, id, nonce, s, r.sent);
      && r.code == 2 && r.uid == head[..7] + [0] && r.cuid == Some(head[3..7])
      && t.sent == s.sent + [Atqa(id.atqa, true), Frame(id.uidBcc1), Frame(SakCascade), Frame(id.uidBcc2), Frame(Sak)]
      && t.state == Work && t.cuid == env.toNum(head[3..7])
  {
    var id := IdentityOf(head);
    var answers := [id.atqa, id.uidBcc1, SakCascade, id.uidBcc2, Sak];
    SakBits();
    Select.DoubleSizeUid(id.atqa, id.uidBcc1, SakCascade, id.uidBcc2, Sak, respInit, crc);
    SevenByteFragments(head);
    var r := Select.SelectSpec(answers, respInit, crc, false);
    var l1, l2 := Level1Requests(id, crc), Level2Requests(id, crc);
    assert r.sent == l1 + l2;
    EmulatorLevel1(env, id, nonce, s, crc);
    var t1 := Hears(env, id, nonce, s, l1);
    EmulatorLevel2(env, id, nonce, t1, crc);
    HearsAppend(env, id, nonce, s, l1, l2);
    RepliesJoin(s.sent, [Atqa(id.atqa, true), Frame(id.uidBcc1), Frame(SakCascade)], [Frame(id.uidBcc2), Frame(Sak)],
                t1.sent, Hears(env, id, nonce, t1, l2).sent);
  }

  // ------------------------------------------------------------ the class

  /** The emulator's variables, updated pass by pass. */
  class Tag {
    const env: Env
    const id: Identity
    const nonce: word
    var state: CardState
    var authKey: byte
    var authSector: byte
    var wrbl: byte
    var cuid: word
    var intReg: word
    var intBlock: byte
    var cipher: Cipher
    var mem: Memory
    var sent: seq<Reply>

    /** The fields as a value of the step functions' state. */
    function Snapshot(): Card
      reads this
    {
      Card(state, authKey, authSector, wrbl, cuid, intReg, intBlock, cipher, mem, sent)
    }

    /** The answers to anticollision have their full length, and decryption keeps lengths. */
    ghost predicate Valid()
    {
      |id.uidBcc1| == 5 && |id.uidBcc2| == 5 && KeepsLength(env)
    }

    /** The set-up before the loop: identity from the first eight memory bytes, no field, no key. */
    constructor(env: Env, head: seq<byte>, mem: Memory)
      requires |head| >= 8 && KeepsLength(env)
      ensures this.env == env && id == IdentityOf(head) && nonce == env.toNum(AuthNonce)
      ensures Valid() && Snapshot() == Initial(mem)
    {
      this.env := env;
      nonce := env.toNum(AuthNonce);
      id := IdentityOf(head);
      state := NoField;
      authKey := NoKey;
      authSector := 0;
      wrbl := 0;
      cuid := 0;
      intReg := 0;
      intBlock := 0;
      cipher := Cipher(0, 0);
      this.mem := mem;
      sent := [];
    }

    /** One pass of the main loop. */
    method Pass(fieldSeen: bool, inp: Input)
      requires Valid() && (inp.Received? ==> BufferOk(inp.rx, inp.len))
      modifies this
      ensures Snapshot() == Cycle(env, id, nonce, old(Snapshot()), fieldSeen, inp)
    {
      if state == NoField && fieldSeen {
        state := Idle;
      }
      if state == NoField {
        return;
      }
      match inp
      case FieldLost =>
        state := NoField;
      case Received(rx, len) =>
        HandleFrame(rx, len);
    }

    /** The REQA/WUPA check and the switch for one received frame. */
    method HandleFrame(rx: seq<byte>, len: nat)
      requires Valid() && BufferOk(rx, len)
      modifies this
      ensures Snapshot() == OnFrame(env, id, nonce, old(Snapshot()), rx, len)
    {
      if len != 4 && state != NoField {
        if len == 1 && ((rx[0] == Reqa && state != Halted) || rx[0] == Wupa) {
          sent := sent + [Atqa(id.atqa, rx[0] == Wupa)];
          state := Select1;
          cipher := env.destroy(cipher);
          authKey := NoKey;
        }
      }
      Switch(rx, len);
    }

    /** The `switch (cardSTATE)` on one frame. */
    method Switch(rx: seq<byte>, len: nat)
      requires Valid() && BufferOk(rx, len)
      modifies this
      ensures Snapshot() == Dispatch(env, id, nonce, old(Snapshot()), rx, len)
    {
      match state
      case NoField =>
      case Halted =>
      case Idle =>
      case Select1 =>
        SelectLevel1(rx, len);
      case Select2 =>
        SelectLevel2(rx, len);
      case Auth1 =>
        CheckReaderAnswer(rx, len);
      case Auth2 =>
        state := Work;
      case Work =>
        WorkCommand(rx, len);
      case WriteBlock2 =>
        WriteBlock(rx, len);
      case IntRegInc =>
        ApplyOperand(rx, len);
      case IntRegDec =>
        ApplyOperand(rx, len);
      case IntRegRestore =>
        ApplyOperand(rx, len);
    }

    /** `EmSend4bit(mf_crypto1_encrypt4bit(pcs, code))`: a four-bit answer, encrypted. */
    method SendNibble(code: byte)
      modifies this
      ensures Snapshot() == Send4(env, old(Snapshot()), code)
    {
      var cs := env.encrypt4(cipher, code);
      var c, n := cs.0, cs.1;
      cipher := c;
      sent := sent + [Nibble(n)];
    }

    /** SELECT1: anticollision and selection of cascade level 1. */
    method SelectLevel1(rx: seq<byte>, len: nat)
      requires |id.uidBcc1| == 5 && len <= |rx|
      modifies this
      ensures Snapshot() == Anticollision1(env, id, old(Snapshot()), rx, len)
    {
      if len == 2 && rx[0] == 0x93 && rx[1] == 0x20 {
        sent := sent + [Frame(id.uidBcc1)];
        return;
      }
      if len == 9 && rx[0] == 0x93 && rx[1] == 0x70 && rx[2..6] == id.uidBcc1[..4] {
        if !id.sevenByte {
          sent := sent + [Frame(Sak)];
        } else {
          sent := sent + [Frame(SakCascade)];
        }
        cuid := env.toNum(id.uidBcc1[..4]);
        if !id.sevenByte {
          state := Work;
        } else {
          state := Select2;
        }
      }
    }

    /** SELECT2: cascade level 2 of a seven-byte UID, or a WORK command. */
    method SelectLevel2(rx: seq<byte>, len: nat)
      requires Valid() && len <= |rx|
      modifies this
      ensures Snapshot() == Anticollision2(env, id, nonce, old(Snapshot()), rx, len)
    {
      if len == 0 {
        return;
      }
      if len == 2 && rx[0] == 0x95 && rx[1] == 0x20 {
        sent := sent + [Frame(id.uidBcc2)];
        return;
      }
      if len == 9 && rx[0] == 0x95 && rx[1] == 0x70 && rx[2..6] == id.uidBcc2[..4] {
        sent := sent + [Frame(Sak)];
        cuid := env.toNum(id.uidBcc2[..4]);
        state := Work;
        return;
      }
      if len != 4 {
        return;
      }
      state := Work;
      WorkCommand(rx, len);
    }

    /** AUTH1, falling through to AUTH2 when the reader's answer is right. */
    method CheckReaderAnswer(rx: seq<byte>, len: nat)
      requires len <= |rx|
      modifies this
      ensures Snapshot() == AuthAnswer(env, nonce, old(Snapshot()), rx, len)
    {
      if len == 8 {
        var c1s := env.cipherWord(cipher, env.toNum(rx[..4]), true);
        var c1, rn := c1s.0, c1s.1;
        var c2s := env.cipherWord(c1, 0, false);
        var c2, w2 := c2s.0, c2s.1;
        cipher := c2;
        var rr := XorWord(env.toNum(rx[4..8]), w2);
        if rr != env.successor(nonce, 64) {
          state := Idle;
          return;
        }
        var c3s := env.cipherWord(cipher, 0, false);
        var c3, w3 := c3s.0, c3s.1;
        cipher := c3;
        var ans := XorWord(env.successor(nonce, 96), w3);
        sent := sent + [Frame(env.toBytes(ans))];
        state := Auth2;
      } else {
        state := Idle;
      }
      if state != Auth2 {
        return;
      }
      state := Work;
    }

    /** WORK: decrypt the command when authenticated, then AUTH or another command. */
    method WorkCommand(rx: seq<byte>, len: nat)
      requires KeepsLength(env) && len <= |rx|
      modifies this
      ensures Snapshot() == WorkStep(env, nonce, old(Snapshot()), rx, len)
    {
      if len == 0 {
        return;
      }
      var cmd := rx;
      if authKey == NoKey {
        if len == 4 && (cmd[0] == AuthA || cmd[0] == AuthB) {
          StartAuth(cmd[0], cmd[1], false);
          return;
        }
      } else {
        var cs := env.decrypt(cipher, rx[..len]);
        var c, d := cs.0, cs.1;
        cipher := c;
        cmd := d + rx[len..];
        if len == 4 && (cmd[0] == AuthA || cmd[0] == AuthB) {
          StartAuth(cmd[0], cmd[1], true);
          return;
        }
      }
      RunCommand(cmd, len);
    }

    /** AUTH: a fresh cipher for the sector and key, and the nonce sent. */
    method StartAuth(op: byte, blk: byte, nested: bool)
      requires op == AuthA || op == AuthB
      modifies this
      ensures Snapshot() == Authenticate(env, nonce, old(Snapshot()), op, blk, nested)
    {
      var sector, key := blk / 4, op - AuthA;
      var cs := env.cipherWord(env.create(env.getKey(mem, sector, key)), XorWord(cuid, nonce), false);
      var reply := env.toBytes(nonce);
      if nested {
        reply := env.toBytes(XorWord(nonce, cs.1));
      }
      authSector, authKey, cipher, sent, state := sector, key, cs.0, sent + [Frame(reply)], Auth1;
    }

    /** The WORK commands other than AUTH, on the plain command. */
    method RunCommand(cmd: seq<byte>, len: nat)
      requires len <= |cmd|
      modifies this
      ensures Snapshot() == Command(env, old(Snapshot()), cmd, len)
    {
      if len == 1 && cmd[0] == env.ack {
        SendNibble(env.nack);
        return;
      }
      if len == 1 && cmd[0] == env.nack {
        SendNibble(env.ack);
        return;
      }
      if len != 4 {
        return;
      }
      var op, blk := cmd[0], cmd[1];
      if op == Read {
        if blk >= 16 * 4 || blk / 4 != authSector {
          SendNibble(env.nack);
          return;
        }
        var response := Select.WithCrc(env.crc, env.getMem(mem, blk));
        var cs := env.encrypt(cipher, response);
        var c, e, par := cs.0, cs.1, cs.2;
        cipher := c;
        sent := sent + [FramePar(e, par)];
      } else if op == Write {
        if blk >= 16 * 4 || blk / 4 != authSector {
          SendNibble(env.nack);
          return;
        }
        SendNibble(env.ack);
        state := WriteBlock2;
        wrbl := blk;
      } else if op == Increment || op == Decrement || op == Restore {
        if blk >= 16 * 4 || blk / 4 != authSector || env.notValueBlock(mem, blk) {
          SendNibble(env.nack);
          return;
        }
        SendNibble(env.ack);
        if op == Increment {
          state := IntRegInc;
        }
        if op == Decrement {
          state := IntRegDec;
        }
        if op == Restore {
          state := IntRegRestore;
        }
        wrbl := blk;
      } else if op == Transfer {
        if blk >= 16 * 4 || blk / 4 != authSector {
          SendNibble(env.nack);
          return;
        }
        var ms := env.setValue(mem, intReg, intBlock, blk);
        var m, failed := ms.0, ms.1;
        mem := m;
        if failed {
          SendNibble(env.nack);
        } else {
          SendNibble(env.ack);
        }
      } else if op == Halt && blk == 0 {
        state := Halted;
      } else {
        SendNibble(env.nack);
      }
    }

    /** WRITEBL2: the sixteen bytes of the block being written. */
    method WriteBlock(rx: seq<byte>, len: nat)
      requires KeepsLength(env) && len <= |rx|
      modifies this
      ensures Snapshot() == WriteSecond(env, old(Snapshot()), rx, len)
    {
      if len == 18 {
        var cs := env.decrypt(cipher, rx[..len]);
        var c, d := cs.0, cs.1;
        cipher := c;
        mem := env.setMem(mem, d[..16], wrbl);
        SendNibble(env.ack);
        state := Work;
      } else {
        state := Idle;
      }
    }

    /** INTREG_INC, INTREG_DEC and INTREG_REST: the operand of a value command. */
    method ApplyOperand(rx: seq<byte>, len: nat)
      requires KeepsLength(env) && BufferOk(rx, len)
      requires state == IntRegInc || state == IntRegDec || state == IntRegRestore
      modifies this
      ensures Snapshot() == ValueStep(env, old(Snapshot()), rx, len)
    {
      var cs := env.decrypt(cipher, rx[..len]);
      var c, d := cs.0, cs.1;
      cipher := c;
      var buf := d + rx[len..];
      var ans := FromLittleEndian(buf[0], buf[1], buf[2], buf[3]);
      var vs := env.getValue(mem, wrbl);
      var v, blk, failed := vs.0, vs.1, vs.2;
      if failed {
        SendNibble(env.nack);
        state := Idle;
        return;
      }
      intReg, intBlock := v, blk;
      if state == IntRegInc {
        intReg := (intReg + ans) % Word32;
      } else if state == IntRegDec {
        intReg := (intReg - ans) % Word32;
      }
      state := Work;
    }
  }
}
