/**
 * The bit-string helpers of tools/findbits.py: inverting and reversing
 * strings of '0'/'1', printing a number in base 2, finding a pattern in a
 * bitstream and the four searches `domatch` runs. Python 2 strings are
 * sequences of characters here; what the script prints is returned as data.
 */
module FindBits {

  // ---------------------------------------------------------------- invert

  /** The character `invert` emits for c: '0' becomes '1', anything else '0'. */
  function Flip(c: char): char
  {
    if c == '0' then '1' else '0'
  }

  /** Specification of `invert`. */
  function Inverted(s: string): (r: string)
    ensures |r| == |s|
  {
    seq(|s|, i requires 0 <= i < |s| => Flip(s[i]))
  }

  /** A string over {'0','1'}. */
  predicate IsBinary(s: string)
  {
    forall i :: 0 <= i < |s| ==> s[i] == '0' || s[i] == '1'
  }

  /** `invert`: the while loop over i building out. */
  method Invert(data: string) returns (out: string)
    ensures |out| == |data|
    ensures forall i :: 0 <= i < |data| ==> (out[i] == '1' <==> data[i] == '0')
    ensures IsBinary(out)
    ensures out == Inverted(data)
  {
    var i := 0;
    out := "";
    while i < |data|
      invariant 0 <= i <= |data|
      invariant out == Inverted(data[..i])
    {
      if data[i] == '0' {
        out := out + "1";
      } else {
        out := out + "0";
      }
      i := i + 1;
    }
    assert data[..i] == data;
  }

  /** Inverting a bit string twice gives it back. */
  lemma InvertInvolution(s: string)
    requires IsBinary(s)
    ensures IsBinary(Inverted(s))
    ensures Inverted(Inverted(s)) == s
  {
  }

  // --------------------------------------------------------- stringreverse

  /** Specification of `stringreverse`. */
  function Reversed(s: string): (r: string)
    ensures |r| == |s|
  {
    seq(|s|, i requires 0 <= i < |s| => s[|s| - 1 - i])
  }

  /** `stringreverse`: the loop with x running from len - 1 down to 0. */
  method StringReverse(data: string) returns (out: string)
    ensures |out| == |data|
    ensures forall i :: 0 <= i < |data| ==> out[i] == data[|data| - 1 - i]
    ensures out == Reversed(data)
  {
    out := "";
    var x := |data| - 1;
    while x >= 0
      invariant -1 <= x < |data|
      invariant |out| == |data| - 1 - x
      invariant forall i :: 0 <= i < |out| ==> out[i] == data[|data| - 1 - i]
    {
      out := out + [data[x]];
      x := x - 1;
    }
  }

  /** Reversing twice gives the input back. */
  lemma ReverseInvolution(s: string)
    ensures Reversed(Reversed(s)) == s
  {
  }

  /** Reversal distributes over concatenation, swapping the parts. */
  lemma ReversedConcat(a: string, b: string)
    ensures Reversed(a + b) == Reversed(b) + Reversed(a)
  {
  }

  // ------------------------------------------------------------- binstring

  /** The digit `chr(0x30 + bit)` for bit 0 or 1. */
  function Digit(bit: int): char
    requires bit == 0 || bit == 1
  {
    (0x30 + bit) as char
  }

  /**
   * Specification of `binstring`: the base-2 digits of n, most significant
   * first, and the empty string when n <= 0 (the loop runs only while n > 0).
   */
  function Binary(n: int): string
    decreases n
  {
    if n <= 0 then "" else Binary(n / 2) + [Digit(n % 2)]
  }

  /** A bit string read in base 2, most significant digit first. */
  function BinValue(s: string): nat
    decreases |s|
  {
    if |s| == 0 then 0 else 2 * BinValue(s[..|s| - 1]) + (if s[|s| - 1] == '1' then 1 else 0)
  }

  /** `binstring`: LSB-first digits collected in a loop, then reversed. */
  method BinString(number: int) returns (out: string)
    ensures out == Binary(number)
  {
    var n := number;
    var lsbFirst := "";
    while n > 0
      invariant Binary(number) == Binary(n) + Reversed(lsbFirst)
      decreases n
    {
      ReversedConcat(lsbFirst, [Digit(n % 2)]);
      lsbFirst := lsbFirst + [Digit(n % 2)];
      n := n / 2;
    }
    out := StringReverse(lsbFirst);
  }

  /**
   * binstring(n) for n > 0 is a bit string with a leading '1' whose base-2
   * value is n; binstring(0) is empty.
   */
  lemma {:induction false} BinaryValue(n: nat)
    ensures IsBinary(Binary(n))
    ensures BinValue(Binary(n)) == n
    ensures n == 0 <==> Binary(n) == ""
    ensures n > 0 ==> Binary(n)[0] == '1'
    decreases n
  {
    if n > 0 {
      BinaryValue(n / 2);
      var s := Binary(n);
      assert s[..|s| - 1] == Binary(n / 2);
    }
  }

  /** Conversely, a bit string without a leading '0' is the binstring of its value. */
  lemma {:induction false} BinaryOfValue(s: string)
    requires IsBinary(s)
    requires |s| > 0 ==> s[0] == '1'
    ensures Binary(BinValue(s)) == s
    decreases |s|
  {
    if |s| > 0 {
      var p := s[..|s| - 1];
      BinaryOfValue(p);
      PositiveValue(s);
      var v := BinValue(s);
      assert v / 2 == BinValue(p);
      assert s == p + [s[|s| - 1]];
    }
  }

  /** A non-empty bit string with a leading '1' has a positive value. */
  lemma {:induction false} PositiveValue(s: string)
    requires IsBinary(s)
    requires |s| > 0 && s[0] == '1'
    ensures BinValue(s) > 0
    decreases |s|
  {
    if |s| > 1 {
      PositiveValue(s[..|s| - 1]);
    }
  }

  // ---------------------------------------------------------------- search

  /** target occurs in data starting at index k. */
  predicate OccursAt(data: string, target: string, k: int)
  {
    0 <= k && k + |target| <= |data| && data[k..k + |target|] == target
  }

  /** `str.find` scanning from index k on. */
  function FindFrom(data: string, target: string, k: nat): (loc: int)
    decreases |data| - k
    ensures loc == -1 || (k <= loc && OccursAt(data, target, loc))
    ensures loc >= 0 ==> forall j :: k <= j < loc ==> !OccursAt(data, target, j)
    ensures loc == -1 ==> forall j :: k <= j ==> !OccursAt(data, target, j)
  {
    if k + |target| > |data| then -1
    else if data[k..k + |target|] == target then k
    else FindFrom(data, target, k + 1)
  }

  /** `string.find(data, target)`: the first index where target occurs, or -1. */
  function Find(data: string, target: string): (loc: int)
    ensures -1 <= loc
    ensures loc >= 0 ==> OccursAt(data, target, loc)
    ensures loc >= 0 ==> forall j :: 0 <= j < loc ==> !OccursAt(data, target, j)
    ensures loc == -1 <==> forall j :: !OccursAt(data, target, j)
  {
    FindFrom(data, target, 0)
  }

  /** What `search` reports: no match, or the location and the marked-up data. */
  datatype SearchResult = NotFound | Match(location: nat, marked: string)

  /** The marked-up data with its two inserted markers taken out again. */
  function Unmark(marked: string, loc: nat, n: nat): string
    requires loc + n + 2 <= |marked|
  {
    marked[..loc] + marked[loc + 1..loc + 1 + n] + marked[loc + 2 + n..]
  }

  /** `search`: finds target in data and shows it as `data[:loc]<target>data[loc+len:]`. */
  function Search(target: string, data: string): (r: SearchResult)
    ensures r.NotFound? <==> forall j :: !OccursAt(data, target, j)
    ensures r.Match? ==> OccursAt(data, target, r.location)
    ensures r.Match? ==> forall j :: 0 <= j < r.location ==> !OccursAt(data, target, j)
    ensures r.Match? ==> |r.marked| == |data| + 2
    ensures r.Match? ==> r.marked[r.location] == '<' && r.marked[r.location + 1 + |target|] == '>'
    ensures r.Match? ==> Unmark(r.marked, r.location, |target|) == data
  {
    var loc := Find(data, target);
    if loc >= 0 then
      MarkedShape(data, target, loc);
      Match(loc, Marked(data, target, loc))
    else
      NotFound
  }

  /** `data[:loc] + '<' + target + '>' + data[loc+len(target):]`. */
  function Marked(data: string, target: string, loc: nat): string
    requires loc + |target| <= |data|
  {
    data[..loc] + "<" + target + ">" + data[loc + |target|..]
  }

  lemma MarkedShape(data: string, target: string, loc: nat)
    requires OccursAt(data, target, loc)
    ensures |Marked(data, target, loc)| == |data| + 2
    ensures Marked(data, target, loc)[loc] == '<'
    ensures Marked(data, target, loc)[loc + 1 + |target|] == '>'
    ensures Unmark(Marked(data, target, loc), loc, |target|) == data
  {
    var m := Marked(data, target, loc);
    assert m[..loc] == data[..loc];
    assert m[loc + 1..loc + 1 + |target|] == target;
    assert m[loc + 2 + |target|..] == data[loc + |target|..];
    assert data == data[..loc] + data[loc..loc + |target|] + data[loc + |target|..];
  }

  /** The match splits data into the part before, the target, and the part after. */
  lemma SearchSplits(target: string, data: string)
    requires Search(target, data).Match?
    ensures var loc := Search(target, data).location;
      data[..loc] + target + data[loc + |target|..] == data
  {
    var loc := Search(target, data).location;
    assert data == data[..loc] + data[loc..loc + |target|] + data[loc + |target|..];
  }

  /** A target longer than the data is never found. */
  lemma LongTargetNotFound(target: string, data: string)
    requires |target| > |data|
    ensures Search(target, data).NotFound?
  {
  }

  /** A pattern occurs in the reversed data exactly where its reverse occurs in the data. */
  lemma ReversedOccurrence(data: string, target: string, k: int)
    requires 0 <= k && k + |target| <= |data|
    ensures OccursAt(Reversed(data), target, k) <==> OccursAt(data, Reversed(target), |data| - k - |target|)
  {
    var j := |data| - k - |target|;
    var a := Reversed(data)[k..k + |target|];
    var b := data[j..j + |target|];
    assert a == Reversed(b);
    ReverseInvolution(b);
    ReverseInvolution(target);
  }

  /** Over bit strings, an inverted pattern occurs exactly where the pattern occurs in the inverted data. */
  lemma InvertedOccurrence(data: string, target: string, k: int)
    requires IsBinary(data) && IsBinary(target)
    ensures OccursAt(data, Inverted(target), k) <==> OccursAt(Inverted(data), target, k)
  {
    if 0 <= k && k + |target| <= |data| {
      var a := data[k..k + |target|];
      assert Inverted(data)[k..k + |target|] == Inverted(a);
      InvertInvolution(a);
      InvertInvolution(target);
    }
  }

  // --------------------------------------------------------------- domatch

  /** The four reports `domatch` prints, in order. */
  datatype MatchReport = MatchReport(
    forward: SearchResult,
    reverse: SearchResult,
    inverseForward: SearchResult,
    inverseReverse: SearchResult)

  /**
   * `domatch(number, binary)` as written: the bitstream `binary` (and its
   * inversion) is the search target, and the number's digits (forward and
   * reversed) are searched.
   */
  method DoMatch(number: string, binary: string) returns (report: MatchReport)
    ensures report.forward == Search(binary, number)
    ensures report.reverse == Search(binary, Reversed(number))
    ensures report.inverseForward == Search(Inverted(binary), number)
    ensures report.inverseReverse == Search(Inverted(binary), Reversed(number))
  {
    var reversed := StringReverse(number);
    var inverted := Invert(binary);
    report := MatchReport(
      Search(binary, number),
      Search(binary, reversed),
      Search(inverted, number),
      Search(inverted, reversed));
  }

  /**
   * As written, a bitstream longer than the number's digits is never found,
   * in any of the four searches.
   */
  lemma DoMatchLongBitstreamNeverMatches(number: string, binary: string)
    requires |binary| > |number|
    ensures Search(binary, number).NotFound?
    ensures Search(binary, Reversed(number)).NotFound?
    ensures Search(Inverted(binary), number).NotFound?
    ensures Search(Inverted(binary), Reversed(number)).NotFound?
  {
    LongTargetNotFound(binary, number);
    LongTargetNotFound(binary, Reversed(number));
    LongTargetNotFound(Inverted(binary), number);
    LongTargetNotFound(Inverted(binary), Reversed(number));
  }

  /** Number "101" inside bitstream "0101": the search as written misses it. */
  lemma DoMatchMissesExample()
    ensures OccursAt("0101", "101", 1)
    ensures Search("0101", "101").NotFound?
  {
    LongTargetNotFound("0101", "101");
  }

  /**
   * The searches the labels and the usage text describe: the number's
   * digits, forward and reversed, are looked for in the bitstream and in
   * its inversion.
   */
  method DoMatchIntended(number: string, bitstream: string) returns (report: MatchReport)
    ensures report.forward == Search(number, bitstream)
    ensures report.reverse == Search(Reversed(number), bitstream)
    ensures report.inverseForward == Search(number, Inverted(bitstream))
    ensures report.inverseReverse == Search(Reversed(number), Inverted(bitstream))
    ensures report.forward.Match? <==> exists k :: OccursAt(bitstream, number, k)
    ensures report.reverse.Match? <==> exists k :: OccursAt(bitstream, Reversed(number), k)
    ensures report.inverseForward.Match? <==> exists k :: OccursAt(Inverted(bitstream), number, k)
    ensures report.inverseReverse.Match? <==> exists k :: OccursAt(Inverted(bitstream), Reversed(number), k)
    ensures report.forward.Match? ==> OccursAt(bitstream, number, report.forward.location)
    ensures report.reverse.Match? ==> OccursAt(bitstream, Reversed(number), report.reverse.location)
    ensures report.inverseForward.Match? ==> OccursAt(Inverted(bitstream), number, report.inverseForward.location)
    ensures report.inverseReverse.Match? ==> OccursAt(Inverted(bitstream), Reversed(number), report.inverseReverse.location)
  {
    var reversed := StringReverse(number);
    var inverted := Invert(bitstream);
    report := MatchReport(
      Search(number, bitstream),
      Search(reversed, bitstream),
      Search(number, inverted),
      Search(reversed, inverted));
  }

  /**
   * The reversed number occurs in the bitstream exactly when the number
   * occurs in the reversed bitstream: the Reverse search finds a match
   * exactly when reading the bitstream backwards would.
   */
  lemma IntendedReverseMirrors(number: string, bitstream: string)
    ensures Search(Reversed(number), bitstream).Match? <==> exists k :: OccursAt(Reversed(bitstream), number, k)
  {
    if Search(Reversed(number), bitstream).Match? {
      var j := Search(Reversed(number), bitstream).location;
      var k := |bitstream| - j - |number|;
      ReversedOccurrence(bitstream, number, k);
      assert OccursAt(Reversed(bitstream), number, k);
    }
    if exists k :: OccursAt(Reversed(bitstream), number, k) {
      var k :| OccursAt(Reversed(bitstream), number, k);
      ReversedOccurrence(bitstream, number, k);
      assert OccursAt(bitstream, Reversed(number), |bitstream| - k - |number|);
    }
  }

  /**
   * Over bit strings, the number occurs in the inverted bitstream exactly
   * where the inverted number occurs in the bitstream.
   */
  lemma IntendedInverseMirrors(number: string, bitstream: string)
    requires IsBinary(number) && IsBinary(bitstream)
    ensures Search(number, Inverted(bitstream)).Match? <==> exists k :: OccursAt(bitstream, Inverted(number), k)
  {
    if Search(number, Inverted(bitstream)).Match? {
      var k := Search(number, Inverted(bitstream)).location;
      InvertedOccurrence(bitstream, number, k);
      assert OccursAt(bitstream, Inverted(number), k);
    }
    if exists k :: OccursAt(bitstream, Inverted(number), k) {
      var k :| OccursAt(bitstream, Inverted(number), k);
      InvertedOccurrence(bitstream, number, k);
      assert OccursAt(Inverted(bitstream), number, k);
    }
  }

  /** The intended search finds number "101" in bitstream "0101" at bit 1. */
  lemma DoMatchIntendedExample()
    ensures Search("101", "0101").Match?
    ensures Search("101", "0101").location == 1
  {
    assert OccursAt("0101", "101", 1);
    assert "0101"[0..3][0] == '0';
  }
}
