# ISO/IEC 14443 Type A on the Proxmark3: a Dafny model

This project models the ISO/IEC 14443 Type A layer of the Proxmark3 firmware
(`armsrc/iso14443a.c`) and the bit-pattern search tool `tools/findbits.py`,
and proves properties of that model in Dafny.

The firmware part covers:

- the odd-parity table and `GetParity`;
- the trace log written by `LogTrace`;
- the two sample-level decoders:
  - `MillerDecoding`, the tag listening to a reader;
  - `ManchesterDecoding`, the reader listening to a tag;
- the five frame encoders. Each leaves a buffer of one modulation sequence per
  bit period: D, E, F for the tag; X, Y, Z for the reader;
- the reader's anticollision and selection, `iso14443a_select_card`;
- the state machine of the MIFARE Classic 1K emulator, `Mifare1ksim`.

Modelling style:

- Code that changes state in place keeps that form. Each one becomes a class
  whose methods are proved against a pure step function:
  - the decoders' `Uart` and `Demod` structs;
  - the `ToSend` buffer;
  - the trace arena;
  - the emulator's local variables.
- The properties are then lemmas about those functions.

The lemmas state round trips through the radio link. When an encoder's
buffer is fed to the matching decoder, one period or half-period at a time,
the decoder stores the frame's bytes in order. It also shifts in the frame's
parity bits and reports the end of the frame.

The reader and the emulator are joined by two lemmas:
`Emulator.SingleSizeConversation` and `Emulator.DoubleSizeConversation`. In
each, the reader's selection requests go to the emulator. The emulator's
replies, fed back to the reader, give the reader the emulator's UID.

Module by file:

| file | module | models |
|---|---|---|
| bits.dfy | `Bits` | bytes, words, bit access, little-endian words |
| parity.dfy | `Parity` | `OddByteParity`, `oddparity`, `GetParity` |
| trace.dfy | `Trace` | `LogTrace`, `iso14a_clear_tracelen`, reading a trace back |
| framing.dfy | `Framing` | bits of a standard frame (LSB first, parity after each byte) |
| encoders.dfy | `Encoders` | the `ToSend` encoders and their buffers |
| miller.dfy | `MillerDecoder` | `MillerDecoding` |
| miller_reception.dfy | `MillerReception` | reader frames through `MillerDecoding` |
| manchester.dfy | `ManchesterDecoder` | `ManchesterDecoding` |
| manchester_reception.dfy | `ManchesterReception` | tag answers through `ManchesterDecoding` |
| select.dfy | `Select` | `iso14443a_select_card` |
| emulator.dfy | `Emulator` | `Mifare1ksim` |
| findbits.dfy | `FindBits` | `invert`, `stringreverse`, `binstring`, `search`, `domatch` |

## Abstractions

- Radio frames are handled at the level of modulation sequences. A Miller
  period is X, Y or Z; for the decoder it is two half periods, each
  with the field up or dropped. A Manchester period is D, E or F; for the
  decoder it is two half periods, each with subcarrier or none. The decoder
  methods themselves take the source's 4-bit sample units. The Manchester
  round trips feed the decoder's half-period step directly. The Miller round
  trips are stated per period (`Period`, the two halves at once), and
  `MillerReception.HalvesMatchPeriods` proves that two `Half` steps per
  period give the same run.
- `iso14443a_select_card` sees the tag as a list of answers: answer k
  is what `ReaderReceive` decodes after the k-th frame sent. A missing or
  empty answer is a timeout. The CRC is a function parameter (`crc`).
- The emulator's I/O, Crypto1 and card memory are passed in as an `Env`
  value holding plain functions (`crypto1_*`, `mf_crypto1_*`, `eml*`,
  `bytes_to_num`, `num_to_bytes`, `prng_successor`, CRC). The one property
  assumed of them is that decryption keeps a buffer's length (`KeepsLength`).
- The replies the emulator sends (`EmSendCmd*`, `EmSend4bit`) are collected
  in the card's `sent` list.
- `CARD_ACK` and `CARD_NACK_NA` live in a header that is not part of this
  model. They are fields of `Env`.
- `cardSTATE_TO_IDLE` is also in a header that is not part of this model. It
  is modelled as setting the state to IDLE.
- `int` arithmetic that wraps is written out modulo 2^32:
  - `rsamples += iSamples`;
  - `parityBits <<= 1`;
  - `cardINTREG + ans` and `cardINTREG - ans`.
- In `Mifare1ksim`, the XOR of two `uint32_t` values is `Emulator.XorWord`.

## Where the code is followed over the usual description

- The emulator's SAK is 0x08. Bit 5 is clear, so `iso14443a_select_card`
  returns 2 (not compliant) for the emulated card, by the test at
  `armsrc/iso14443a.c:1750` (`Emulator.SingleSizeConversation`).
- REQA wakes the emulator in every state except NOFIELD and HALTED, not only
  in IDLE. WUPA wakes it in every state except NOFIELD
  (`armsrc/iso14443a.c:2095-2106`).
- In WORK, an INC/DEC/RESTORE whose guard fails is NACKed and leaves the card
  in WORK. IDLE follows only when the value block cannot be read in the
  operand state (`armsrc/iso14443a.c:2294-2300`, `2364-2367`).
- An AUTH during a session sends the encrypted nonce (`ans`). The first AUTH
  sends the plain nonce (`armsrc/iso14443a.c:2216`, `2242`).

## Model

| member | source | states |
|---|---|---|
| Bits.Mask | armsrc/iso14443a.c:351-368 | a single-bit test `v & m` is either 0 or the mask |
| Bits.WordBit | armsrc/iso14443a.c:821 | `(w >> i) & 1` is a bit, 0 once i reaches 32 |
| Bits.WordBitOr | armsrc/iso14443a.c:90 | ORing in a word whose bit does not overlap adds that bit |
| Bits.WordBitOfBitWord | armsrc/iso14443a.c:90 | `p << i` has bit p at i and 0 everywhere else, nothing for i ≥ 32 |
| Bits.LittleEndian | armsrc/iso14443a.c:108-111 | a word splits into four bytes |
| Bits.LittleEndianRoundTrip | armsrc/iso14443a.c:108-111 | the four bytes, least significant first, read back as the word |
| Parity.TableEntry | armsrc/iso14443a.c:43-60 | every entry of `OddByteParity` is 0 or 1 and makes the byte's count of ones odd |
| Parity.TableLines | armsrc/iso14443a.c:43-60 | the sixteen lines of the table take two shapes: lines 0, 3, 5, 6 agree, and so do lines 1, 2, 4, 7 |
| Parity.LineShape | armsrc/iso14443a.c:43-60 | line h of the table is line 0 when h has evenly many ones, else line 1 |
| Parity.FirstLine | armsrc/iso14443a.c:43-60 | line 0 holds the odd-parity bit of its column |
| Parity.SecondLine | armsrc/iso14443a.c:43-60 | line 1 is line 0 with every bit flipped |
| Parity.OddParity | armsrc/iso14443a.c:78-81 | `oddparity(bt)` is the odd-parity bit of bt: bt's ones plus the result is odd |
| Parity.ParityWordBit | armsrc/iso14443a.c:83-94 | bit i of the parity word is `oddparity(cmd[i])` for the first 32 bytes and 0 beyond them |
| Parity.GetParity | armsrc/iso14443a.c:83-94 | the loop returns the parity word: each bit i < min(len, 32) is the odd parity of byte i, every other bit is 0 |
| Trace.FrameTrace.constructor | armsrc/iso14443a.c:22-24 | an empty trace over the arena, counter 0 |
| Trace.FrameTrace.ClearTraceLen | armsrc/iso14443a.c:67-69 | the trace length is reset; the sample counter is kept |
| Trace.FrameTrace.LogTrace | armsrc/iso14443a.c:101-123 | refuses exactly when the trace is full, changing nothing; otherwise adds the samples to the counter mod 2^32 and appends exactly one record, the arena before it unchanged |
| Trace.FrameTrace.PutStamp | armsrc/iso14443a.c:108-114 | writes the counter's four bytes, least significant first, setting bit 7 of the last for a tag frame |
| Trace.FrameTrace.Put | armsrc/iso14443a.c:115-121 | appends the bytes at the trace end and leaves the rest of the arena as it was |
| Trace.Record | armsrc/iso14443a.c:107-121 | a record is 9 bytes longer than its frame |
| Trace.RecordFields | armsrc/iso14443a.c:107-121 | where the stamp, parity word, length byte and frame sit in a record |
| Trace.StampRoundTrip | armsrc/iso14443a.c:108-114 | a record's stamp reads back as the counter, with bit 31 forced on for a tag frame |
| Trace.RecordRoundTrip | armsrc/iso14443a.c:101-123 | a record of a frame under 256 bytes reads back as its entry (stamp, parity, frame, direction), followed by the bytes after it |
| Trace.ParseRecordExtend | armsrc/iso14443a.c:101-123 | bytes after a whole record do not change how it reads |
| Trace.ParseLogAppend | armsrc/iso14443a.c:101-123 | appending a record to a readable trace adds exactly its entry at the end |
| Trace.DirectionFlag | armsrc/iso14443a.c:112-114 | a frame reads as from the tag exactly when it is one, or the counter has reached 2^31; the low 31 bits are the counter |
| Trace.LongFrameLengthByte | armsrc/iso14443a.c:119 | a frame of 256 bytes or more is logged with a length byte that differs from its length |
| Framing.FrameRoundTrip | armsrc/iso14443a.c:805-825 | regrouping a frame's bits in nines gives back its bytes and bits 0.. of the parity word |
| Framing.LsbBits | armsrc/iso14443a.c:810-817 | `b & 1; b >>= 1` k times gives k bits |
| Framing.ByteRoundTrip | armsrc/iso14443a.c:810-817 | a byte reads back from its eight bits |
| Framing.FrameBits | armsrc/iso14443a.c:805-825 | a frame from byte i on has nine bits per remaining byte |
| Framing.FrameBitsAreBits | armsrc/iso14443a.c:805-825 | every entry of a frame's bits is 0 or 1 |
| Framing.LsbValueBound | armsrc/iso14443a.c:810-817 | k bits read back as a number below 2^k |
| Framing.ParityShiftedValue | armsrc/iso14443a.c:308-309 | shifting parity bits i..n-1 in continues the arrival order, to 32 bits |
| Framing.LsbRoundTrip | armsrc/iso14443a.c:810-817 | k bits taken least significant first read back as the number |
| Framing.ParityFromStart | armsrc/iso14443a.c:308-309 | shifting parity bits into a 32-bit word keeps the first one highest, to 32 bits |
| Encoders.ToSendBuffer.CodeAsTagPar | armsrc/iso14443a.c:786-832 | the buffer is the correction bits, D, each byte's eight data bits and its parity bit i as D/E, then F |
| Encoders.ToSendBuffer.constructor | armsrc/iso14443a.c:790 | an empty buffer |
| Encoders.ToSendBuffer.ResetWithCorrection | armsrc/iso14443a.c:790-800 | the buffer holds exactly the correction bits |
| Encoders.ToSendBuffer.Reset | armsrc/iso14443a.c:1308 | the buffer is empty |
| Encoders.ToSendBuffer.Send | armsrc/iso14443a.c:803 | `ToSend[++ToSendMax] = s` appends exactly s |
| Encoders.ToSendBuffer.SendTagBit | armsrc/iso14443a.c:811-815 | a tag bit appends D for 1 and E for 0 |
| Encoders.ToSendBuffer.CodeAsTag | armsrc/iso14443a.c:834-836 | the tag frame with the parity word of `GetParity` |
| Encoders.ToSendBuffer.CodeStrangeAnswerAsTag | armsrc/iso14443a.c:841-879 | the buffer is the correction bits, D, E E D, F and five more F |
| Encoders.ToSendBuffer.Code4bitAnswerAsTag | armsrc/iso14443a.c:881-920 | the buffer is the correction bits, D, the low four bits as D/E, F and five more F |
| Encoders.ToSendBuffer.SendTagBits | armsrc/iso14443a.c:810-817 | the data-bit loop appends the Manchester sequences of the low n bits, LSB first |
| Encoders.ToSendBuffer.SendMillerBit | armsrc/iso14443a.c:1377-1391 | one bit as X, or as Y after a 1 and Z otherwise; returns the new `last` |
| Encoders.ToSendBuffer.SendMillerBits | armsrc/iso14443a.c:1377-1393 | the data-bit loop appends the Miller sequences of the low n bits and returns `last` after them |
| Encoders.ToSendBuffer.SendReaderByte | armsrc/iso14443a.c:1375-1409 | one byte's eight Miller sequences, then its parity bit's |
| Encoders.ToSendBuffer.SendEnd | armsrc/iso14443a.c:1412-1427 | end of communication: a logic 0 (Z or Y after `last`), then four Y |
| Encoders.ToSendBuffer.ShortFrameFromReader | armsrc/iso14443a.c:1302-1354 | the buffer is Z, the seven low bits in Miller code, the end of communication |
| Encoders.ToSendBuffer.CodeAsReaderPar | armsrc/iso14443a.c:1360-1431 | the buffer is Z, each byte's bits and parity bit in Miller code, the end of communication |
| Encoders.TagDecodeCode | armsrc/iso14443a.c:811-815 | reading D as 1 and anything else as 0 undoes Manchester coding |
| Encoders.MillerDecodeCode | armsrc/iso14443a.c:1378-1391 | reading X as 1 and anything else as 0 undoes Miller coding, whatever bit came before |
| Encoders.TagCode | armsrc/iso14443a.c:811-815 | one Manchester sequence per bit |
| Encoders.MillerCode | armsrc/iso14443a.c:1377-1391 | one Miller sequence per bit |
| Encoders.TagDecode | armsrc/iso14443a.c:811-815 | the reference reading of Manchester sequences: one bit per sequence |
| Encoders.MillerDecode | armsrc/iso14443a.c:1377-1391 | the reference reading of Miller sequences: one bit per sequence |
| Encoders.TagCodeConcat | armsrc/iso14443a.c:805-825 | coding two runs of bits is coding each in turn |
| Encoders.MillerCodeConcat | armsrc/iso14443a.c:1375-1409 | coding two runs of bits is coding the second after the first ends, with `last` carried over |
| Encoders.MillerCodeCons | armsrc/iso14443a.c:1377-1391 | the first bit's sequence, then the rest after it |
| Encoders.ReaderByteSplit | armsrc/iso14443a.c:1375-1409 | a frame's Miller sequences from byte i on are byte i's, its parity bit's, then the rest's |
| Encoders.TagFrameLayout | armsrc/iso14443a.c:786-832 | a tag frame is 9n + 2 sequences after the correction, D first, F last, and decodes to the bytes and parity bits |
| Encoders.ReaderFrameLayout | armsrc/iso14443a.c:1360-1431 | a reader frame is 9n + 6 sequences, Z first, four Y last, and decodes to the bytes and parity bits |
| Encoders.ShortFrameLayout | armsrc/iso14443a.c:1302-1354 | a short frame is 13 sequences and carries the command's low seven bits |
| Encoders.FourBitFrameLayout | armsrc/iso14443a.c:881-920 | a four-bit answer is 11 sequences after the correction and carries cmd mod 16 |
| Encoders.StrangeIsTruncatedFourBit | armsrc/iso14443a.c:838-879 | the "strange" answer is the four-bit answer 0x4 with its last bit (a 0) left out: three bits read back as 4 |
| Encoders.ReaderFrameNoZAfterX | armsrc/iso14443a.c:1360-1431 | no Z directly follows an X anywhere in a reader frame, as ISO/IEC 14443-2 requires |
| Encoders.ShortFrameNoZAfterX | armsrc/iso14443a.c:1302-1354 | the same for a short frame |
| Encoders.MillerNoZAfterX | armsrc/iso14443a.c:1377-1391 | Miller coding never puts a Z right after an X, and an X last leaves `last` at 1 |
| Encoders.FramedNoZAfterX | armsrc/iso14443a.c:1412-1427 | a start Z and an end of communication around valid Miller sequences keep the rule |
| MillerDecoder.UartDecoder.constructor | armsrc/iso14443a.c:129-153 | the decoder starts unsynchronised with every counter and register zero |
| MillerDecoder.UartDecoder.MillerDecoding | armsrc/iso14443a.c:156-388 | one call takes the `Uart` fields, the output buffer and the return value exactly as `MillerNext` says, the buffer changing at most at `byteCnt` |
| MillerDecoder.UartDecoder.HalfPeriod | armsrc/iso14443a.c:172-290 | the synchronised branch: one half period per `Half` |
| MillerDecoder.UartDecoder.EndPeriod | armsrc/iso14443a.c:207-318 | the end of a period: the state switch, the ninth-bit store and the end-of-communication return, per `PeriodEnd` |
| MillerDecoder.UartDecoder.Switch | armsrc/iso14443a.c:209-290 | the `switch (Uart.state)`, per `Transition` |
| MillerDecoder.UartDecoder.WaitForSync | armsrc/iso14443a.c:339-385 | the unsynchronised branch, per `Unsynced` |
| MillerDecoder.UartDecoder.Synchronise | armsrc/iso14443a.c:342-375 | the sync search and frame start, per `SyncOn` |
| MillerDecoder.UartDecoder.SearchSyncBit | armsrc/iso14443a.c:351-368 | the sync-bit chain, per `SearchedSync` |
| MillerDecoder.UartDecoder.TryBit2 | armsrc/iso14443a.c:355-356 | after bit 3, bit 2 is tried: taken when nothing is chosen yet or when it is set, per `ChooseHigh` |
| MillerDecoder.UartDecoder.TryBit1 | armsrc/iso14443a.c:357-358 | then bit 1, per `ChooseMiddle` |
| MillerDecoder.UartDecoder.TryBit0 | armsrc/iso14443a.c:359-366 | last bit 0, and the move of the sync to bit 3 of the next unit, per `ChooseLow` |
| MillerDecoder.BothHalvesDropped | armsrc/iso14443a.c:197-205 | a period whose halves both drop the field is an error: ERROR_WAIT, nothing returned, a pending ninth bit stored |
| MillerDecoder.StartMustBeZ | armsrc/iso14443a.c:210-221 | after the sync the period must be Z: a second-half drop gives ERROR_WAIT, anything else moves to the Z state with the register cleared |
| MillerDecoder.ZAfterXRejected | armsrc/iso14443a.c:244-260 | in state X a first-half drop (Z) gives ERROR_WAIT and pushes no bit; otherwise a bit is pushed |
| MillerDecoder.ErrorWaitLeaves | armsrc/iso14443a.c:282-289 | ERROR_WAIT leaves for the unsynchronised state with `highCnt` 6 exactly after a period without a drop, and otherwise changes nothing |
| MillerDecoder.SyncNeedsEightHighUnits | armsrc/iso14443a.c:339-385 | the sync is taken exactly on a unit with a drop after eight high units; `highCnt` counts high units up to 8 and a drop before 8 resets it |
| MillerDecoder.SyncOnChoosesSyncBit | armsrc/iso14443a.c:342-375 | synchronising on a unit with a drop always leaves one of the four sync masks, a sample count 0..3 and a cleared frame |
| MillerReception.HalfPeriods | armsrc/iso14443a.c:189-205 | two half periods make one period whose drop kind their levels decide; no field in both halves is an error |
| MillerReception.DropOfSymbol | armsrc/iso14443a.c:189-205 | X, Y and Z drop the field as the two half-period levels say |
| MillerReception.NinthBit | armsrc/iso14443a.c:303-315 | the ninth bit of a byte, its parity, stores the byte |
| MillerReception.LastAfterIsBit | armsrc/iso14443a.c:1377-1391 | the encoder's `last` stays 0 or 1 |
| MillerReception.RunConcat | armsrc/iso14443a.c:156-388 | receiving a + b is receiving a, then b from where a left off |
| MillerReception.RegNine | armsrc/iso14443a.c:224-280 | nine pushes replace the shift register: low byte the eight data bits, bit 8 the ninth |
| MillerReception.DataBit | armsrc/iso14443a.c:209-315 | one data bit pushes into the register; the ninth stores the byte and shifts its parity in |
| MillerReception.BitsInByte | armsrc/iso14443a.c:209-315 | the rest of a byte pushes in bit by bit; the byte is stored exactly when nine bits are in |
| MillerReception.ByteReceived | armsrc/iso14443a.c:303-315 | one byte and its parity bit are received whole: the byte is stored, the parity shifted in |
| MillerReception.FrameReceived | armsrc/iso14443a.c:156-388 | the bytes of a frame are stored in turn, with their parity bits shifted in |
| MillerReception.EndReceived | armsrc/iso14443a.c:296-300 | end of communication returns TRUE exactly when a byte has been stored, and stores nothing more |
| MillerReception.StartReceived | armsrc/iso14443a.c:210-221 | the start Z moves the decoder into the frame, register cleared |
| MillerReception.FrameBodyReceived | armsrc/iso14443a.c:209-315 | the start Z and the frame bits: the bytes stored in order, the parity bits shifted in, nothing returned yet |
| MillerReception.ReaderFrameReceived | armsrc/iso14443a.c:1360-1431 | a reader frame of n bytes, from the start of communication: the n bytes are stored in order, their parity bits shifted in, and TRUE is returned at the end exactly when n > 0 |
| MillerReception.ReaderFrameParity | armsrc/iso14443a.c:307-309 | the parity bits of a received reader frame: bit i of `dwParity` arrives i-th, the first ends highest |
| MillerReception.ShortFrameReceived | armsrc/iso14443a.c:1302-1354 | a REQA/WUPA short frame stores one byte (its seven bits, bit 7 clear), a 0 parity, and returns TRUE |
| MillerReception.ShortByte | armsrc/iso14443a.c:303-305 | the ninth push of a short frame leaves its seven bits and a 0 above them |
| MillerReception.HalvesMatchPeriods | armsrc/iso14443a.c:189-316 | driving the decoder one half period at a time, two per sequence, gives the same run as one period per sequence |
| MillerReception.SyncedFrameByHalves | armsrc/iso14443a.c:210-221 | right after the sync inside a frame's start Z, the half-period run meets the frame as the period run does |
| MillerReception.ReaderFrameAfterSync | armsrc/iso14443a.c:172-375 | from any sync on a drop, a reader frame of n bytes fed one half period at a time stores the n bytes in order, shifts in their parity bits, and returns TRUE at the end exactly when n > 0 |
| MillerReception.ErrorWaitRun | armsrc/iso14443a.c:282-289 | from ERROR_WAIT nothing is stored and no frame reported; the decoder waits for a sync with `highCnt` 6 once a period without a drop has come, and stays in ERROR_WAIT until then |
| MillerReception.ZAfterXRun | armsrc/iso14443a.c:244-260 | a Z right after an X counts no bit, stores nothing more and reports no frame; after the first Y the decoder waits for a sync |
| MillerReception.BothHalvesRun | armsrc/iso14443a.c:197-205 | no field in both halves of a period inside a frame: nothing more stored, no frame reported, back to waiting for a sync after the first Y |
| ManchesterDecoder.DemodDecoder.constructor | armsrc/iso14443a.c:394-418 | the decoder starts unsynchronised with every counter and register zero |
| ManchesterDecoder.DemodDecoder.ManchesterDecoding | armsrc/iso14443a.c:420-606 | one call takes the `Demod` fields, the output buffer and the return value exactly as `ManchesterNext` says, the buffer changing at most at `len` |
| ManchesterDecoder.DemodDecoder.Synchronise | armsrc/iso14443a.c:436-482 | the unsynchronised branch, per `Unsynced` |
| ManchesterDecoder.DemodDecoder.FindSync | armsrc/iso14443a.c:440-463 | the sync-bit chain sets `syncBit` to `SearchSync` of the unit and nothing else |
| ManchesterDecoder.DemodDecoder.Half | armsrc/iso14443a.c:484-578 | the synchronised branch, per `HalfPeriod` |
| ManchesterDecoder.DemodDecoder.EndPeriod | armsrc/iso14443a.c:512-578 | the state switch and the byte store, per `Switch` |
| ManchesterDecoder.DemodDecoder.Data | armsrc/iso14443a.c:524-540 | a D or E period, per `DataPeriod` |
| ManchesterDecoder.DemodDecoder.End | armsrc/iso14443a.c:541-560 | the period after an F, per `FrameEnd` |
| ManchesterDecoder.BothHalvesModulated | armsrc/iso14443a.c:499-564 | subcarrier in both halves unsynchronises the decoder within one period, storing the 0xaa marker unless it was in ERROR_WAIT, nothing returned |
| ManchesterDecoder.StartNotD | armsrc/iso14443a.c:512-522 | a first period that is not D gives ERROR_WAIT and the 0xab marker |
| ManchesterDecoder.FrameEndOutcome | armsrc/iso14443a.c:541-558 | the period after an F returns TRUE exactly when something was received; otherwise ERROR_WAIT and the 0xad marker |
| ManchesterDecoder.ErrorWaitOnePeriod | armsrc/iso14443a.c:562-564 | ERROR_WAIT lasts one period and unsynchronises the decoder, nothing stored |
| ManchesterDecoder.ManchesterNext | armsrc/iso14443a.c:420-606 | a store either advances `len` by one or is a marker at `len`, or the decoder resets |
| ManchesterDecoder.SearchSyncFindsSetBit | armsrc/iso14443a.c:440-466 | the sync search finds a sample exactly when the unit has a modulated sample above bit 0, and the chosen one is modulated |
| ManchesterDecoder.SyncSamplesBelow | armsrc/iso14443a.c:474-479 | after a sync, `samples` counts the unit's samples after the sync bit: 2^samples is the mask |
| ManchesterReception.RunConcat | armsrc/iso14443a.c:420-606 | receiving a + b is receiving a, then b from where a left off |
| ManchesterReception.Halves | armsrc/iso14443a.c:488-510 | two half periods per sequence |
| ManchesterReception.HalvesConcat | armsrc/iso14443a.c:488-510 | the halves of a + b are those of a, then of b |
| ManchesterReception.StartBitReceived | armsrc/iso14443a.c:512-523 | the second half of the start bit D puts the decoder inside the frame, nothing stored |
| ManchesterReception.TagRegValue | armsrc/iso14443a.c:526-534 | k ≤ 9 bits pushed into a cleared register sit in its top k bits, the first lowest |
| ManchesterReception.TagDataBit | armsrc/iso14443a.c:484-578 | a D or E bit: the first half stores nothing, the second pushes the bit; the ninth stores the byte and its parity |
| ManchesterReception.TagBits | armsrc/iso14443a.c:524-578 | the rest of a byte pushes in bit by bit; the byte is stored exactly when nine bits are in |
| ManchesterReception.TagByteReceived | armsrc/iso14443a.c:572-578 | one byte and its parity bit are received whole |
| ManchesterReception.TagBytesReceived | armsrc/iso14443a.c:420-606 | the bytes of a frame are stored in turn, with their parity bits shifted in |
| ManchesterReception.TagEndReceived | armsrc/iso14443a.c:541-560 | F and the period after it end the answer: TRUE exactly when something was received, the decoder then unsynchronised, and otherwise ERROR_WAIT; an incomplete byte is stored shifted down, parity 0 |
| ManchesterReception.ErrorWaitRun | armsrc/iso14443a.c:562-564 | from ERROR_WAIT any period takes the decoder back to waiting for a sync; nothing is stored and no frame reported |
| ManchesterReception.BothHalvesRun | armsrc/iso14443a.c:499-564 | subcarrier in both halves inside a frame ends it: the decoder waits for a new sync, nothing is stored and no frame reported |
| ManchesterReception.EmptyAnswerRejected | armsrc/iso14443a.c:541-558 | an F straight after the start bit is no answer: ERROR_WAIT, then unsynchronised, nothing stored |
| ManchesterReception.SyncedAfterSync | armsrc/iso14443a.c:436-482 | synchronising on a unit with a modulated sample above bit 0 leaves the decoder at the start of a frame |
| ManchesterReception.TagFrameReceived | armsrc/iso14443a.c:786-832 | a tag answer of n bytes: the n bytes are stored in order, their parity bits shifted in, and TRUE is returned at the end exactly when n > 0 |
| ManchesterReception.TagFrameParity | armsrc/iso14443a.c:574-575 | the parity bits of a received tag answer: bit i of `dwParity` arrives i-th, the first ends highest |
| ManchesterReception.PartialByteReceived | armsrc/iso14443a.c:541-556 | 1..8 bits with no parity are stored as one byte of their value, 0 parity, and TRUE |
| ManchesterReception.PartialAnswerReceived | armsrc/iso14443a.c:541-556 | a 1..8-bit answer after its start bit is stored as one byte of its value, 0 parity, and TRUE |
| ManchesterReception.FourBitReceived | armsrc/iso14443a.c:881-920 | a four-bit answer (ACK, NAK) is received as its low four bits |
| ManchesterReception.StrangeReceived | armsrc/iso14443a.c:841-879 | the "strange" answer is received as 0x04 |
| Select.SelectCmd | armsrc/iso14443a.c:1721 | cascade levels 1, 2, 3 send 0x93, 0x95, 0x97 |
| Select.Answer | armsrc/iso14443a.c:1669-1676 | `ReaderReceive` yields the k-th answer exactly when it is there and non-empty |
| Select.Overlay | armsrc/iso14443a.c:1669-1676 | the decoded answer sits at the start of the receive buffer |
| Select.PutBytes | armsrc/iso14443a.c:1726 | the four UID bytes land at offset 4 × level, the bytes before are kept |
| Select.StripCascadeTag | armsrc/iso14443a.c:1744-1748 | a leading 0x88 is dropped from the eight UID bytes and a 0 put last; otherwise the UID is kept |
| Select.WithCrc | armsrc/iso14443a.c:96-99 | the frame followed by its two CRC bytes |
| Select.LevelStep | armsrc/iso14443a.c:1720-1738 | a level sends SELECT_ALL and, when that is answered, SELECT; it counts as answered exactly when both frames are, and then the level goes up by one |
| Select.CascadeFrom | armsrc/iso14443a.c:1718-1739 | the cascade loop stops at the first SAK with bit 2 clear or the first timeout, and is a no-op once stopped |
| Select.Conclusion | armsrc/iso14443a.c:1740-1764 | the result is 0, 1 or 2, with at least eight UID bytes |
| Select.SelectSpec | armsrc/iso14443a.c:1691-1765 | the result is 0, 1 or 2 with at least eight UID bytes, and 0 after WUPA alone when the ATQA times out |
| Select.CascadeLevel | armsrc/iso14443a.c:1720-1738 | one pass of the loop body on the procedure's locals is `LevelStep` |
| Select.SelectCard | armsrc/iso14443a.c:1691-1765 | the procedure, step by step, computes `SelectSpec` |
| Select.Conclude | armsrc/iso14443a.c:1740-1764 | the code after the loop computes `Conclusion` |
| Select.CascadePrefix | armsrc/iso14443a.c:1718-1739 | the cascade loop only appends frames: SELECT_ALL and SELECT of each level in turn |
| Select.CascadeNotRats | armsrc/iso14443a.c:1695 | no cascade frame is the RATS frame |
| Select.ConclusionFrames | armsrc/iso14443a.c:1740-1762 | RATS is sent exactly when `resp_data` is given, the loop completed and SAK bit 5 is set; the SAK is recorded once the loop completed |
| Select.SelectFrames | armsrc/iso14443a.c:1691-1765 | the frames sent are WUPA, then SELECT_ALL and SELECT of levels 1, 2, … in turn, and last RATS exactly when `resp_data` is given and the recorded SAK has bit 5 |
| Select.SelectTimeouts | armsrc/iso14443a.c:1708-1762 | the result is 0 exactly when the last frame sent (WUPA, SELECT_ALL, SELECT or RATS) went unanswered, and every frame before it was answered |
| Select.CascadeAnswers | armsrc/iso14443a.c:1714-1739 | the cascade loop sends a frame only after every earlier one was answered, and stops at the first left unanswered |
| Select.LevelStepAnswers | armsrc/iso14443a.c:1721-1738 | the same for one level |
| Select.ConclusionAnswers | armsrc/iso14443a.c:1740-1762 | after the loop, 0 is returned exactly when the loop or RATS ended on an unanswered frame |
| Select.SelectCodes | armsrc/iso14443a.c:1740-1764 | with `resp_data`: a card found has its final SAK recorded with bit 2 clear; the result is 2 exactly when that SAK lacks bit 5; for result 1 the ATS is the answer to RATS and its length is recorded |
| Select.AnsweredLevel | armsrc/iso14443a.c:1720-1738 | an answered level copies its four UID bytes to the UID and the crypto UID, echoes all five in the SELECT, and records the SAK |
| Select.SingleSizeUid | armsrc/iso14443a.c:1691-1765 | a four-byte UID card is selected in one level: UID bytes, crypto UID, the three frames, and 1 or 2 by SAK bit 5 |
| Select.DoubleSizeUid | armsrc/iso14443a.c:1691-1765 | a seven-byte UID card: the cascade tag dropped, the seven bytes and a 0, the second level's crypto UID, the five frames |
| Emulator.IdentityOf | armsrc/iso14443a.c:2030-2045 | byte 7 of memory decides a seven-byte UID; the ATQA, the cascade tag and the UID fragments are laid out per UID size |
| Emulator.XorNatBound | armsrc/iso14443a.c:2215 | the XOR of two 32-bit numbers has 32 bits |
| Emulator.Send4 | armsrc/iso14443a.c:2255 | one encrypted four-bit answer is appended; nothing but the cipher and the sent list changes |
| Emulator.Plain | armsrc/iso14443a.c:2205-2230 | the WORK commands read the buffer decrypted once a key is in use, as received otherwise; only the first len bytes are touched |
| Emulator.Heard | armsrc/iso14443a.c:2081-2089 | a reader request lands in the receive buffer with its length, enough bytes for every test of the switch |
| Emulator.FragmentsCheck | armsrc/iso14443a.c:2036-2044 | each UID fragment the emulator sends ends in its BCC, so the XOR of its five bytes is 0 |
| Emulator.SakBits | armsrc/iso14443a.c:2015-2016 | the cascade SAK has bit 2; the final SAK has neither bit 2 nor bit 5 |
| Emulator.XorNatInvolution | armsrc/iso14443a.c:2215 | XOR with the same keystream word twice gives the value back |
| Emulator.XorNatCommutes | armsrc/iso14443a.c:2215 | XOR is commutative |
| Emulator.NestedNonceRecovered | armsrc/iso14443a.c:2241-2242 | the nested-AUTH nonce, XORed with the keystream word again, is the nonce |
| Emulator.HaltedIgnoresReqa | armsrc/iso14443a.c:2097-2115 | a HALTED card ignores REQA: nothing changes |
| Emulator.WakeUp | armsrc/iso14443a.c:2094-2106 | WUPA in any state with a field, or REQA outside HALTED, answers the ATQA (correction flag for WUPA) and restarts selection with no key, memory untouched |
| Emulator.EmulatorLevel1 | armsrc/iso14443a.c:2120-2147 | WUPA, SELECT_ALL and SELECT get the ATQA, the first fragment and the SAK; the emulator ends in WORK, or SELECT2 for a seven-byte UID, with the fragment as crypto UID |
| Emulator.EmulatorLevel2 | armsrc/iso14443a.c:2149-2166 | level 2 gets the second fragment and the final SAK; the emulator ends in WORK with that fragment as crypto UID |
| Emulator.SingleSizeConversation | armsrc/iso14443a.c:1691-1765 | the reader and the emulator of a four-byte UID: one reply per request, the reader gets the UID and crypto UID and returns 2, the emulator ends in WORK with the same crypto UID |
| Emulator.DoubleSizeConversation | armsrc/iso14443a.c:1691-1765 | the same for a seven-byte UID: five requests and replies, the reader gets the seven bytes and a 0 and the second fragment as crypto UID |
| Emulator.FirstAuth | armsrc/iso14443a.c:2207-2226 | an AUTH with no key names sector block/4 and key type, sends the plain nonce, and waits in AUTH1 |
| Emulator.NestedAuth | armsrc/iso14443a.c:2233-2248 | an AUTH in a session sends the nonce encrypted with the new cipher's keystream word, so that word recovers it |
| Emulator.AuthCheck | armsrc/iso14443a.c:2174-2200 | AUTH1: a frame not of 8 bytes, or whose answer is not the nonce's 64th successor, drops to IDLE with nothing sent; a right one sends the encrypted 96th successor and leads through AUTH2 to WORK |
| Emulator.OutOfSectorNack | armsrc/iso14443a.c:2264-2326 | READ, WRITE, INC, DEC, RESTORE and TRANSFER of a block ≥ 64 or outside the authenticated sector get an encrypted NACK and change neither state, memory, pending block, value nor key |
| Emulator.ReadInSector | armsrc/iso14443a.c:2266-2275 | an in-sector READ answers the block and its CRC, encrypted with parity |
| Emulator.WriteFirstStep | armsrc/iso14443a.c:2279-2288 | an in-sector WRITE is ACKed and waits for the data in WRITEBL2, memory untouched |
| Emulator.WriteSecondStep | armsrc/iso14443a.c:2347-2358 | WRITEBL2: 18 bytes are decrypted, 16 written to the pending block, ACKed, WORK; any other frame drops to IDLE with nothing sent or written |
| Emulator.HaltCommand | armsrc/iso14443a.c:2330-2335 | a decrypted 50 00 halts the card without an answer |
| Emulator.OperandApplied | armsrc/iso14443a.c:2361-2394 | the value block is loaded and the operand added (INC) or subtracted (DEC) mod 2^32 or kept (RESTORE), then WORK; a block that is not a value block is NACKed and drops to IDLE with the register and its block address unchanged |
| Emulator.FieldEvents | armsrc/iso14443a.c:2073-2090 | without a field nothing happens until one is seen, then the card is IDLE before the frame is handled; a lost field gives NOFIELD whatever the state |
| Emulator.Tag.constructor | armsrc/iso14443a.c:1981-2045 | the set-up: identity from memory bytes 0..7, the nonce from `rAUTH_NT`, no field, no key |
| Emulator.Tag.Pass | armsrc/iso14443a.c:2063-2400 | one pass of the main loop changes the card exactly as `Cycle` says |
| Emulator.Tag.HandleFrame | armsrc/iso14443a.c:2095-2400 | the REQA/WUPA check and the switch change the card exactly as `OnFrame` says |
| Emulator.Tag.Switch | armsrc/iso14443a.c:2110-2400 | the `switch (cardSTATE)`, per `Dispatch` |
| Emulator.Tag.SendNibble | armsrc/iso14443a.c:2255 | an encrypted four-bit answer is sent, per `Send4` |
| Emulator.Tag.SelectLevel1 | armsrc/iso14443a.c:2120-2147 | SELECT1, per `Anticollision1` |
| Emulator.Tag.SelectLevel2 | armsrc/iso14443a.c:2149-2172 | SELECT2, per `Anticollision2` |
| Emulator.Tag.CheckReaderAnswer | armsrc/iso14443a.c:2174-2200 | AUTH1 and its fall-through to AUTH2, per `AuthAnswer` |
| Emulator.Tag.WorkCommand | armsrc/iso14443a.c:2202-2345 | WORK, per `WorkStep` |
| Emulator.Tag.StartAuth | armsrc/iso14443a.c:2207-2248 | AUTH, per `Authenticate` |
| Emulator.Tag.RunCommand | armsrc/iso14443a.c:2252-2345 | the other WORK commands, per `Command` |
| Emulator.Tag.WriteBlock | armsrc/iso14443a.c:2347-2358 | WRITEBL2, per `WriteSecond` |
| Emulator.Tag.ApplyOperand | armsrc/iso14443a.c:2361-2394 | the operand states, per `ValueStep` |
| FindBits.Invert | tools/findbits.py:28-37 | the output has the input's length, a '1' exactly where the input has '0', and is a bit string |
| FindBits.Inverted | tools/findbits.py:28-37 | the reference inversion keeps the length |
| FindBits.InvertInvolution | tools/findbits.py:28-37 | inverting a bit string twice gives it back |
| FindBits.StringReverse | tools/findbits.py:57-61 | the output is the input read from the end |
| FindBits.Reversed | tools/findbits.py:57-61 | the reference reversal keeps the length |
| FindBits.ReversedConcat | tools/findbits.py:57-61 | reversal swaps the parts of a concatenation |
| FindBits.ReverseInvolution | tools/findbits.py:57-61 | reversing twice gives the string back |
| FindBits.BinString | tools/findbits.py:49-54 | the loop computes the base-2 digits of the number, most significant first, and "" for n ≤ 0 |
| FindBits.BinaryValue | tools/findbits.py:49-54 | `binstring(n)` is a bit string whose value is n, empty exactly for 0, with a leading '1' otherwise |
| FindBits.BinaryOfValue | tools/findbits.py:49-54 | a bit string without a leading '0' is the `binstring` of its value |
| FindBits.PositiveValue | tools/findbits.py:49-54 | a bit string with a leading 1 has a positive value |
| FindBits.Find | tools/findbits.py:41 | `string.find`: the first index where the target occurs, or -1 exactly when it occurs nowhere |
| FindBits.FindFrom | tools/findbits.py:41 | scanning from k: -1 exactly when no occurrence from k on, otherwise the first one |
| FindBits.Search | tools/findbits.py:40-46 | "Not found" exactly when the target occurs nowhere; otherwise the first match, marked up so that removing the markers gives the data back |
| FindBits.MarkedShape | tools/findbits.py:44 | the marked-up data has two more characters, markers at the match and after it, and unmarks to the data |
| FindBits.SearchSplits | tools/findbits.py:40-46 | a match splits the data into the part before, the target and the part after |
| FindBits.LongTargetNotFound | tools/findbits.py:40-46 | a target longer than the data is never found |
| FindBits.ReversedOccurrence | tools/findbits.py:64-76 | a pattern occurs in the reversed data exactly where its reverse occurs in the data |
| FindBits.InvertedOccurrence | tools/findbits.py:64-76 | on bit strings, the inverted pattern occurs exactly where the pattern occurs in the inverted data |
| FindBits.DoMatch | tools/findbits.py:64-76 | the four searches as written: the bitstream and its inversion searched for in the number's digits, forward and reversed |
| FindBits.DoMatchLongBitstreamNeverMatches | tools/findbits.py:64-76 | as written, a bitstream longer than the number's digits is never found in any of the four searches |
| FindBits.DoMatchMissesExample | tools/findbits.py:64-76 | "101" occurs in "0101" at bit 1, yet the search as written reports "Not found" |
| FindBits.DoMatchIntended | tools/findbits.py:64-87 | the number's digits, forward and reversed, searched for in the bitstream and in its inversion, as the labels print them; each search matches exactly when its pattern occurs, and at an occurrence |
| FindBits.IntendedReverseMirrors | tools/findbits.py:64-69 | the reversed number is found in the bitstream exactly when the number occurs in the reversed bitstream |
| FindBits.IntendedInverseMirrors | tools/findbits.py:64-76 | over bit strings, the number is found in the inverted bitstream exactly when the inverted number occurs in the bitstream |
| FindBits.DoMatchIntendedExample | tools/findbits.py:64-87 | the intended search finds "101" in "0101" at bit 1 |

## Left out

- The hardware is not modelled: the FPGA, the SSC, the ADC field measurement,
  LEDs, the button, the watchdog, timers and `Dbprintf`. Whether a field is
  seen is a boolean input of `Emulator.Tag.Pass`.
- `SnoopIso14443a`, `SimulateIso14443aTag`, `ReaderMifare` and the USB
  commands are outside the modelled core. So are the transmit and receive
  loops (`GetIso14443aCommandFromReader`, `EmGetCmd`, `EmSendCmd14443aRaw`,
  `GetIso14443aAnswerFromTag`, `TransmitFor14443a`).
- `MillerDecoding` and `ManchesterDecoding` are modelled sample unit by sample
  unit. The round trips are proved per half period (for Miller frames through
  `MillerReception.HalvesMatchPeriods`), not per sample: the sample-level
  synchronisation with the encoder's timing is left out.
- MillerDecoder.UartDecoder.MillerDecoding: requires every store to fall
  inside the output buffer. The source does not check `byteCnt`.
- ManchesterDecoder.DemodDecoder.ManchesterDecoding: requires every store to
  fall inside the output buffer. The source does not check `len`.
- Trace.FrameTrace.LogTrace: requires the record to fit in the arena. The
  source checks only `traceLen < TRACE_LENGTH` and may write past it.
- `ToSendStuffBit` is not part of this model. The eight correction bits are
  taken as given symbols (`correction`).
- Crypto1 and the emulator memory are not modelled. This covers
  `crypto1_create`, `crypto1_word`, `crypto1_destroy`,
  `mf_crypto1_decrypt`, `mf_crypto1_encrypt`, `mf_crypto1_encrypt4bit`,
  `prng_successor`, `emlGetKey`, `emlGetMem`, `emlSetMem`, `emlCheckValBl`,
  `emlGetValBl` and `emlSetValBl`. They are functions in `Env`, with no
  properties beyond the length of a decrypted buffer. So the lemmas say what
  the emulator does with their results, not that the cipher is correct.
- The CRC (`ComputeCrc14443`) is a function parameter. `bytes_to_num` and
  `num_to_bytes` are `Env` functions.
- In `iso14443a_select_card`, `memcpy(resp_data->ats, resp, sizeof(ats))`
  copies more than the ATS when the answer is shorter. The model says the ATS
  begins with the answer (`Select.SelectCodes`); the size of the `ats` field
  is in a header that is not part of this model.
- Select.PutBytes: at the third cascade level (`cascade_level` 2) the source's `memcpy(uid_ptr +
  cascade_level*4, resp, 4)` writes past the eight bytes cleared at
  `armsrc/iso14443a.c:1705`, into memory the model does not have; the model
  grows the UID sequence instead, so its contracts say "at least eight"
  bytes.
- Select.StripCascadeTag: `memcpy(uid_ptr, uid_ptr+1, 7)`
  (`armsrc/iso14443a.c:1746`) copies between overlapping buffers, which C
  leaves undefined; the model takes the result of a forward byte copy, bytes
  1..7 moved down by one.
- `rUIDBCC2` is static and keeps whatever an earlier
  run left in it. A four-byte card never answers SELECT2, so only its
  initial value is used (`DefaultUidBcc`).
- The trace trailer `LogTrace(rAUTH_NT, 4, 0, 0, TRUE)` after the emulator
  loop is left out. So are the loop's exit on the button or a receive error,
  and `nextCycleTimeout`.
- `iso14a_set_trigger` and `iso14a_set_tracing` only set flags and are not
  modelled.
- The `findbits.py` command line (trying bases 2, 8, 10, 16 and printing) is
  not modelled; `DoMatch` returns the four search results instead of
  printing them.

## Findings

| source | as written | input that shows it | evidently intended | confidence | as-written member | corrected member |
|---|---|---|---|---|---|---|
| tools/findbits.py:64-76 | `domatch` calls `search(binary, number)`, which looks for the bitstream inside the number's digits | number 101, bitstream 0101: 101 occurs at bit 1, yet "Not found" is reported (`FindBits.DoMatchMissesExample`) | swap the arguments of each call: the number's digits, forward and reversed, searched for inside the bitstream and inside its inversion, as the labels and the usage text say | not executed | FindBits.DoMatch | FindBits.DoMatchIntended |
