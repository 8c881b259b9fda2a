/** The format of compressed data in plain numbers: the fixed codes, the layout of headers, and two streams byte for
    byte. */
module DeflateSamples {
  import opened Bits
  import opened BitStream
  import opened Canonical
  import opened Lz77
  import opened DeflateFormat
  import opened DeflateBlocks
  import opened ZBufs

  // ---- counting in lists made of runs ----

  lemma {:induction false} CountAppend(a: seq<nat>, b: seq<nat>, s: nat)
    ensures Count(a + b, s) == Count(a, s) + Count(b, s)
    decreases |b|
  {
    if b == [] {
      assert a + b == a;
    } else {
      CountAppend(a, b[..|b| - 1], s);
      assert (a + b)[..|a + b| - 1] == a + b[..|b| - 1];
    }
  }

  lemma {:induction false} CountConstant(v: nat, n: nat, s: nat)
    ensures Count(Constant(v, n), s) == if v == s then n else 0
    decreases n
  {
    if n > 0 {
      CountConstant(v, n - 1, s);
      assert Constant(v, n)[..n - 1] == Constant(v, n - 1);
    }
  }

  /** How often a length occurs in four runs. */
  lemma CountRuns(a: nat, k: nat, b: nat, m: nat, c: nat, n: nat, d: nat, o: nat, s: nat)
    ensures Count(Constant(a, k) + Constant(b, m) + Constant(c, n) + Constant(d, o), s)
         == (if a == s then k else 0) + (if b == s then m else 0) + (if c == s then n else 0)
            + (if d == s then o else 0)
  {
    CountConstant(a, k, s);
    CountConstant(b, m, s);
    CountConstant(c, n, s);
    CountConstant(d, o, s);
    CountAppend(Constant(a, k), Constant(b, m), s);
    CountAppend(Constant(a, k) + Constant(b, m), Constant(c, n), s);
    CountAppend(Constant(a, k) + Constant(b, m) + Constant(c, n), Constant(d, o), s);
  }

  lemma {:induction false} FirstOfEmpty(l: seq<nat>, s: nat)
    requires forall t :: 1 <= t < s ==> Count(l, t) == 0
    ensures First(l, s) == 0
    decreases s
  {
    if s > 1 { FirstOfEmpty(l, s - 1); }
  }

  // ---- the fixed codes (section 3.2.6 of RFC 1951) ----

  lemma FixedCounts(s: nat)
    ensures Count(FIXED_LENGTHS, s) == if s == 7 then 24 else if s == 8 then 152 else if s == 9 then 112 else 0
  {
    CountRuns(8, 144, 9, 112, 7, 24, 8, 8, s);
  }

  lemma FixedFirsts(seven: nat)
    requires seven == 7
    ensures First(FIXED_LENGTHS, seven) == 0
    ensures First(FIXED_LENGTHS, seven + 1) == 48 && First(FIXED_LENGTHS, seven + 2) == 400
  {
    forall t | 1 <= t < seven ensures Count(FIXED_LENGTHS, t) == 0 { FixedCounts(t); }
    FirstOfEmpty(FIXED_LENGTHS, seven);
    FixedCounts(seven);
    FixedCounts(seven + 1);
  }

  /** How many symbols before `i` have its length. */
  lemma FixedRank(i: nat)
    requires i < 288
    ensures |FIXED_LENGTHS| == 288
    ensures Rank(FIXED_LENGTHS, i)
         == if i < 144 then i else if i < 256 then i - 144 else if i < 280 then i - 256 else i - 136
  {
    var l := FIXED_LENGTHS;
    if i < 144 {
      CountRuns(8, i, 9, 0, 7, 0, 8, 0, 8);
      assert l[..i] == Constant(8, i) + Constant(9, 0) + Constant(7, 0) + Constant(8, 0);
    } else if i < 256 {
      CountRuns(8, 144, 9, i - 144, 7, 0, 8, 0, 9);
      assert l[..i] == Constant(8, 144) + Constant(9, i - 144) + Constant(7, 0) + Constant(8, 0);
    } else if i < 280 {
      CountRuns(8, 144, 9, 112, 7, i - 256, 8, 0, 7);
      assert l[..i] == Constant(8, 144) + Constant(9, 112) + Constant(7, i - 256) + Constant(8, 0);
    } else {
      CountRuns(8, 144, 9, 112, 7, 24, 8, i - 280, 8);
      assert l[..i] == Constant(8, 144) + Constant(9, 112) + Constant(7, 24) + Constant(8, i - 280);
    }
  }

  /** The table of the fixed literal and length code: eight bits from 00110000 for 0 to 143, nine from 110010000 for
      144 to 255, seven from 0000000 for 256 to 279, eight from 11000000 for 280 to 287. */
  lemma FixedCode(i: nat)
    requires i < 288
    ensures |FIXED_LENGTHS| == 288
    ensures i < 144 ==> FIXED_LENGTHS[i] == 8 && Code(FIXED_LENGTHS, i) == 0x30 + i
    ensures 144 <= i < 256 ==> FIXED_LENGTHS[i] == 9 && Code(FIXED_LENGTHS, i) == 0x190 + (i - 144)
    ensures 256 <= i < 280 ==> FIXED_LENGTHS[i] == 7 && Code(FIXED_LENGTHS, i) == i - 256
    ensures 280 <= i < 288 ==> FIXED_LENGTHS[i] == 8 && Code(FIXED_LENGTHS, i) == 0xC0 + (i - 280)
  {
    FixedRank(i);
    FixedFirsts(7);
  }

  /** Distances have five bits, in order. */
  lemma FixedDistanceCode(i: nat)
    requires i < 32
    ensures |FIXED_DISTANCES| == 32 && FIXED_DISTANCES[i] == 5 && Code(FIXED_DISTANCES, i) == i
  {
    var five := 5;
    forall t | 1 <= t < five ensures Count(FIXED_DISTANCES, t) == 0 { CountConstant(5, 32, t); }
    FirstOfEmpty(FIXED_DISTANCES, five);
    assert FIXED_DISTANCES[..i] == Constant(5, i);
    CountConstant(5, i, 5);
  }

  // ---- a stream with fixed codes: a letter and a copy of length 20 ----

  predicate IsFixedSample(input: seq<byte>) {
    |input| == 4 && input[0] == 75 && input[1] == 196 && input[2] == 6 && input[3] == 0
  }

  /** The final block, of type 1. */
  lemma FixedSampleStart(input: seq<byte>)
    requires IsFixedSample(input)
    ensures Val(Window(input, 0, 1)) == 1 && Val(Window(input, 1, 2)) == 1
  {
    var b, c := [true, true, false, true, false, false, true, false],
                [false, false, true, false, false, false, true, true];
    Piece(input, 0, b, c, 0, [true], 0);
    Piece(input, 0, b, c, 1, [true, false], 1);
    assert Val([true]) == 1 && Val([true, false]) == 1;
  }

  lemma FixedSampleLiteral(input: seq<byte>)
    requires IsFixedSample(input)
    ensures TokenAt(input, 3, FIXED_LENGTHS, FIXED_DISTANCES, Literal(97))
    ensures |TokenBits(FIXED_LENGTHS, FIXED_DISTANCES, Literal(97))| == 8
  {
    var b, c := [true, true, false, true, false, false, true, false],
                [false, false, true, false, false, false, true, true];
    var s := [true, false, false, true, false, false, false, true];
    FixedCode(97);
    Piece(input, 0, b, c, 3, s, 3);
    assert ToMsbBits(145, 8) == s;
  }

  lemma FixedSampleLength(input: seq<byte>)
    requires IsFixedSample(input)
    ensures At(input, 11, ToMsbBits(13, 7))
  {
    var b, c := [false, false, true, false, false, false, true, true],
                [false, true, true, false, false, false, false, false];
    var s := [false, false, false, true, true, false, true];
    Piece(input, 1, b, c, 3, s, 11);
    assert ToMsbBits(13, 7) == s;
  }

  lemma FixedSampleDistance(input: seq<byte>)
    requires IsFixedSample(input)
    ensures At(input, 18, ToBits(1, 2)) && At(input, 20, ToMsbBits(0, 5))
  {
    var b, c := [false, true, true, false, false, false, false, false],
                [false, false, false, false, false, false, false, false];
    var s, d := [true, false], [false, false, false, false, false];
    Piece(input, 2, b, c, 2, s, 18);
    Piece(input, 2, b, c, 4, d, 20);
    assert ToBits(1, 2) == s && ToMsbBits(0, 5) == d;
  }

  lemma FixedSampleCopy(input: seq<byte>, t: Token)
    requires IsFixedSample(input) && t == Copy(269, 1, 0, 0)
    ensures t.WellFormed() && TokenAt(input, 11, FIXED_LENGTHS, FIXED_DISTANCES, t)
    ensures |TokenBits(FIXED_LENGTHS, FIXED_DISTANCES, t)| == 14
  {
    FixedSampleLength(input);
    FixedSampleDistance(input);
    FixedCode(t.lsym);
    FixedDistanceCode(t.dsym);
    Pow2Value(2);
    FourAt(input, 11, ToMsbBits(13, 7), ToBits(1, 2), ToMsbBits(0, 5), [], 18, 20, 25);
    assert CodeBits(FIXED_LENGTHS, t.lsym) == ToMsbBits(13, 7) && CodeBits(FIXED_DISTANCES, t.dsym) == ToMsbBits(0, 5);
    assert ToBits(t.dextra, 0) == [];
  }

  lemma FixedSampleEnd(input: seq<byte>)
    requires IsFixedSample(input)
    ensures SymbolAt(input, 25, FIXED_LENGTHS, END_OF_BLOCK) && FIXED_LENGTHS[END_OF_BLOCK] == 7
  {
    var b, c := [false, true, true, false, false, false, false, false],
                [false, false, false, false, false, false, false, false];
    var s := [false, false, false, false, false, false, false];
    FixedCode(256);
    Piece(input, 2, b, c, 9, s, 25);
    assert ToMsbBits(0, 7) == s;
  }

  /** What the copy appends. */
  lemma FixedSampleExpands(t: Token) returns (out: seq<byte>)
    requires t == Copy(269, 1, 0, 0)
    ensures Applicable([97], t) && out == Apply([97], t)
    ensures |out| == 21 && forall i :: 0 <= i < |out| ==> out[i] == 97
  {
    FixedSampleFields(t);
    out := Apply([97], t);
    AllTheSame(out, 20);
  }

  lemma FixedSampleFields(t: Token)
    requires t == Copy(269, 1, 0, 0)
    ensures t.WellFormed() && t.Length() == 20 && t.Distance() == 1
  {
    Pow2Value(2);
    LengthTable(12);
    DistanceTable(0);
  }

  lemma {:induction false} AllTheSame(out: seq<byte>, n: nat)
    requires out == CopyBack([97], n, 1)
    ensures |out| == n + 1 && forall i :: 0 <= i < |out| ==> out[i] == 97
    decreases n
  {
    if n > 0 { AllTheSame(CopyBack([97], n - 1, 1), n - 1); }
  }

  lemma FixedSampleTokens(input: seq<byte>, t: Token)
    requires IsFixedSample(input) && t == Copy(269, 1, 0, 0)
    ensures TokensAt(input, 3, FIXED_LENGTHS, FIXED_DISTANCES, [Literal(97), t], 32)
  {
    FixedSampleLiteral(input);
    FixedSampleCopy(input, t);
    FixedSampleEnd(input);
    RunStart(input, 3, FIXED_LENGTHS, FIXED_DISTANCES);
    RunStep(input, 3, FIXED_LENGTHS, FIXED_DISTANCES, [], 3, Literal(97));
    assert [] + [Literal(97)] == [Literal(97)];
    RunStep(input, 3, FIXED_LENGTHS, FIXED_DISTANCES, [Literal(97)], 11, t);
    assert [Literal(97)] + [t] == [Literal(97), t];
    RunEnd(input, 3, FIXED_LENGTHS, FIXED_DISTANCES, [Literal(97), t], 25);
  }

  /** A stream of one block, which ends at `end` and stands for `out`. */
  lemma OneBlock(input: seq<byte>, b: Block, end: nat, out: seq<byte>, cap: nat)
    requires b.WellFormed() && BlockAt(input, 0, true, b) && b.End(0) == end <= 8 * |input|
    requires b.Expandable([]) && b.Expand([]) == out && |out| <= cap
    ensures StreamGoal(input, 0, [], cap, [b]) && ExpandBlocks([], [b]) == out
  {
    var none: seq<Block> := [];
    assert BlocksEnd(none, 0) == 0 && ExpandBlocks([], none) == [];
    BlocksStep(input, 0, [], none, true, b);
    assert none + [b] == [b];
  }

  lemma TwoTokens(first: byte, t: Token)
    requires Applicable([first], t)
    ensures Expandable([], [Literal(first), t]) && Expand([], [Literal(first), t]) == Apply([first], t)
  {
    ExpandStep([], [], Literal(first));
    assert [] + [Literal(first)] == [Literal(first)] && Apply([], Literal(first)) == [first];
    ExpandStep([], [Literal(first)], t);
    assert [Literal(first)] + [t] == [Literal(first), t];
  }

  /** The whole stream stands for the letter 21 times. */
  lemma FixedSample(input: seq<byte>) returns (b: Block)
    requires IsFixedSample(input)
    ensures StreamGoal(input, 0, [], 21, [b])
    ensures var out := ExpandBlocks([], [b]); |out| == 21 && forall i :: 0 <= i < 21 ==> out[i] == 97
  {
    var t := Copy(269, 1, 0, 0);
    b := Fixed([Literal(97), t]);
    FixedSampleStart(input);
    FixedSampleTokens(input, t);
    var out := FixedSampleExpands(t);
    TwoTokens(97, t);
    OneBlock(input, b, 32, out, 21);
  }

  method DecodeFixedSample() returns (r: Option<seq<byte>>)
    ensures r.Some? && |r.value| == 21 && forall i :: 0 <= i < 21 ==> r.value[i] == 97
  {
    var input := [75, 196, 6, 0];
    ghost var b := FixedSample(input);
    r := ZlibDecode(input, 21, false, false);
    assert StreamGoal(input, StreamStart(false), [], 21, [b]);
  }

  // ---- a stored block, and the two bytes in front of a stream ----

  /** Final block, type 0, to the next byte; the length, low byte first, its complement, and the data. */
  lemma StoredSample(input: seq<byte>)
    requires input == [1, 1, 0, 254, 255, 97]
    ensures StreamGoal(input, 0, [], 1, [Stored([97])]) && ExpandBlocks([], [Stored([97])]) == [97]
  {
    var b := [true, false, false, false, false, false, false, false];
    Piece(input, 0, b, b, 0, [true], 0);
    Piece(input, 0, b, b, 1, [false, false], 1);
    assert Val([true]) == 1 && Val([false, false]) == 0;
    assert input[5..6] == [97];
    OneBlock(input, Stored([97]), 48, [97], 1);
  }

  method DecodeStoredSample() returns (r: Option<seq<byte>>)
    ensures r == Some([97])
  {
    var input := [1, 1, 0, 254, 255, 97];
    StoredSample(input);
    r := ZlibDecode(input, 1, false, false);
    assert StreamGoal(input, StreamStart(false), [], 1, [Stored([97])]);
  }

  /** A header of RFC 1950: method 8 in the low half of the first byte, bit 5 of the second not set, and the two bytes,
      the first the more significant, a multiple of 31. */
  lemma HeaderIs(cmf: byte, flg: byte)
    ensures ZlibHeader(cmf, flg) <==> cmf % 16 == 8 && flg / 32 % 2 == 0 && (256 * cmf as int + flg as int) % 31 == 0
    ensures ZlibHeader(0x78, 0x9C) && !ZlibHeader(0x78, 0xBB) && !ZlibHeader(0x79, 0x9C)
  {
    var five := 5;
    BitOfShr(flg, five, 0);
    Pow2Value(five);
    BitOfShr(0xBB, five, 0);
  }
}
