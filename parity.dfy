/**
 * Odd parity of bytes (armsrc/iso14443a.c, `OddByteParity`, `oddparity`,
 * `GetParity`). ISO/IEC 14443-3 Type A frames append to every byte one bit
 * that makes the number of ones in the nine bits odd.
 */
module Parity {
  import opened Bits

  /**
   * The source's 256-entry lookup table, kept as its 16 lines of 16
   * entries: the entry for byte b is OddByteParity[b / 16][b % 16].
   */
  const OddByteParity: seq<seq<int>> := [
  [1, 0, 0, 1, 0, 1, 1, 0, 0, 1, 1, 0, 1, 0, 0, 1],
  [0, 1, 1, 0, 1, 0, 0, 1, 1, 0, 0, 1, 0, 1, 1, 0],
  [0, 1, 1, 0, 1, 0, 0, 1, 1, 0, 0, 1, 0, 1, 1, 0],
  [1, 0, 0, 1, 0, 1, 1, 0, 0, 1, 1, 0, 1, 0, 0, 1],
  [0, 1, 1, 0, 1, 0, 0, 1, 1, 0, 0, 1, 0, 1, 1, 0],
  [1, 0, 0, 1, 0, 1, 1, 0, 0, 1, 1, 0, 1, 0, 0, 1],
  [1, 0, 0, 1, 0, 1, 1, 0, 0, 1, 1, 0, 1, 0, 0, 1],
  [0, 1, 1, 0, 1, 0, 0, 1, 1, 0, 0, 1, 0, 1, 1, 0],
  [0, 1, 1, 0, 1, 0, 0, 1, 1, 0, 0, 1, 0, 1, 1, 0],
  [1, 0, 0, 1, 0, 1, 1, 0, 0, 1, 1, 0, 1, 0, 0, 1],
  [1, 0, 0, 1, 0, 1, 1, 0, 0, 1, 1, 0, 1, 0, 0, 1],
  [0, 1, 1, 0, 1, 0, 0, 1, 1, 0, 0, 1, 0, 1, 1, 0],
  [1, 0, 0, 1, 0, 1, 1, 0, 0, 1, 1, 0, 1, 0, 0, 1],
  [0, 1, 1, 0, 1, 0, 0, 1, 1, 0, 0, 1, 0, 1, 1, 0],
  [0, 1, 1, 0, 1, 0, 0, 1, 1, 0, 0, 1, 0, 1, 1, 0],
  [1, 0, 0, 1, 0, 1, 1, 0, 0, 1, 1, 0, 1, 0, 0, 1]
  ]

  /** Number of one bits in a nibble. */
  function NibbleOnes(n: nibble): nat
  {
    n % 2 + n / 2 % 2 + n / 4 % 2 + n / 8 % 2
  }

  /** Number of one bits in a byte: the reference the table is checked against. */
  function Ones(b: byte): nat
  {
    NibbleOnes(b / 16) + NibbleOnes(b % 16)
  }

  /** The sixteen lines of the table take only two shapes. */
  lemma TableLines()
    ensures OddByteParity[0] == OddByteParity[3] == OddByteParity[5] == OddByteParity[6]
         == OddByteParity[9] == OddByteParity[10] == OddByteParity[12] == OddByteParity[15]
    ensures OddByteParity[1] == OddByteParity[2] == OddByteParity[4] == OddByteParity[7]
         == OddByteParity[8] == OddByteParity[11] == OddByteParity[13] == OddByteParity[14]
  {
  }

  /** Line h of the table is line 0 when h has evenly many ones, else line 1. */
  lemma LineShape(h: nibble)
    ensures OddByteParity[h] == if NibbleOnes(h) % 2 == 0 then OddByteParity[0] else OddByteParity[1]
  {
    TableLines();
  if h == 0 {} else if h == 1 {} else if h == 2 {} else if h == 3 {}
  else if h == 4 {} else if h == 5 {} else if h == 6 {} else if h == 7 {}
  else if h == 8 {} else if h == 9 {} else if h == 10 {} else if h == 11 {}
  else if h == 12 {} else if h == 13 {} else if h == 14 {} else {}
  }

  /** Line 0 holds the odd parity of its low nibble. */
  lemma FirstLine(l: nibble)
    ensures OddByteParity[0][l] == 0 || OddByteParity[0][l] == 1
    ensures (NibbleOnes(l) + OddByteParity[0][l]) % 2 == 1
  {
  if l == 0 {} else if l == 1 {} else if l == 2 {} else if l == 3 {}
  else if l == 4 {} else if l == 5 {} else if l == 6 {} else if l == 7 {}
  else if l == 8 {} else if l == 9 {} else if l == 10 {} else if l == 11 {}
  else if l == 12 {} else if l == 13 {} else if l == 14 {} else {}
  }

  /** Line 1 is the complement of line 0. */
  lemma SecondLine(l: nibble)
    ensures OddByteParity[1][l] == 1 - OddByteParity[0][l]
  {
  if l == 0 {} else if l == 1 {} else if l == 2 {} else if l == 3 {}
  else if l == 4 {} else if l == 5 {} else if l == 6 {} else if l == 7 {}
  else if l == 8 {} else if l == 9 {} else if l == 10 {} else if l == 11 {}
  else if l == 12 {} else if l == 13 {} else if l == 14 {} else {}
  }

  /** Parity arithmetic: flipping the low-nibble parity by the high nibble's. */
  lemma CombineNibbles(ph: nat, pl: nat, x: int, a: int)
    requires a == 0 || a == 1
    requires (pl + a) % 2 == 1
    requires x == if ph % 2 == 0 then a else 1 - a
    ensures (ph + pl + x) % 2 == 1
  {
  }

  /** Every entry of the table completes its byte to an odd number of ones. */
  lemma TableEntry(h: nibble, l: nibble)
    ensures OddByteParity[h][l] == 0 || OddByteParity[h][l] == 1
    ensures (NibbleOnes(h) + NibbleOnes(l) + OddByteParity[h][l]) % 2 == 1
  {
    LineShape(h);
    FirstLine(l);
    SecondLine(l);
    CombineNibbles(NibbleOnes(h), NibbleOnes(l), OddByteParity[h][l], OddByteParity[0][l]);
  }

  /** `oddparity`: the table lookup, which is the odd parity bit of bt. */
  function OddParity(bt: byte): (p: int)
    ensures p == 0 || p == 1
    ensures (Ones(bt) + p) % 2 == 1
  {
    TableEntry(bt / 16, bt % 16);
    OddByteParity[bt / 16][bt % 16]
  }

  /** The word `GetParity` returns: bit i is the parity of byte i (i < 32). */
  function ParityWord(cmd: seq<byte>): bv32
    decreases |cmd|
  {
    if |cmd| == 0 then 0
    else ParityWord(cmd[..|cmd| - 1]) | BitWord(OddParity(cmd[|cmd| - 1]), |cmd| - 1)
  }

  /** Bit i of ParityWord(cmd) is the odd parity of cmd[i] for the first 32 bytes, 0 otherwise. */
  lemma {:induction false} ParityWordBit(cmd: seq<byte>, i: nat)
    ensures WordBit(ParityWord(cmd), i) == if i < |cmd| && i < 32 then OddParity(cmd[i]) else 0
    decreases |cmd|
  {
    if |cmd| > 0 {
      var n := |cmd| - 1;
      ParityWordBit(cmd[..n], i);
      WordBitOfBitWord(OddParity(cmd[n]), n, i);
      WordBitOr(ParityWord(cmd[..n]), BitWord(OddParity(cmd[n]), n), i);
    }
  }

  /** `GetParity`: the loop that ORs the table entry of byte i into bit i. */
  method GetParity(cmd: seq<byte>) returns (dwPar: bv32)
    ensures dwPar == ParityWord(cmd)
    ensures forall i: nat :: i < |cmd| && i < 32 ==> WordBit(dwPar, i) == OddParity(cmd[i])
    ensures forall i: nat :: 32 <= i || |cmd| <= i ==> WordBit(dwPar, i) == 0
  {
    dwPar := 0;
    var i := 0;
    while i < |cmd|
      invariant 0 <= i <= |cmd|
      invariant dwPar == ParityWord(cmd[..i])
    {
      assert cmd[..i + 1][..i] == cmd[..i];
      dwPar := dwPar | BitWord(OddParity(cmd[i]), i);
      i := i + 1;
    }
    assert cmd[..i] == cmd;
    forall i: nat
      ensures WordBit(dwPar, i) == if i < |cmd| && i < 32 then OddParity(cmd[i]) else 0
    {
      ParityWordBit(cmd, i);
    }
  }
}
