/** A stream with dynamic codes, byte for byte: where its counts and code lengths stand, in which order, and what its
    runs and codes stand for (section 3.2.7 of RFC 1951). */
module DeflateDynamic {
  import opened Bits
  import opened BitStream
  import opened Canonical
  import opened Lz77
  import opened DeflateFormat
  import opened DeflateBlocks
  import opened DeflateRuns
  import opened DeflateSamples
  import opened ZBufs

  /** Codes for the letter `a` and the end of the block only, the letter twice. */
  predicate IsSample(input: seq<byte>) {
    && |input| == 13 && input[0] == 5 && input[1] == 192 && input[2] == 129 && input[3] == 8 && input[4] == 0
    && input[5] == 0 && input[6] == 0 && input[7] == 0 && input[8] == 32 && input[9] == 214 && input[10] == 253
    && input[11] == 37 && input[12] == 142
  }

  // ---- the header ----

  /** The final block, of type 2; 257 literal codes, one distance code, and 18 lengths for the code lengths. */
  lemma Start(input: seq<byte>)
    requires IsSample(input)
    ensures Val(Window(input, 0, 1)) == 1 && Val(Window(input, 1, 2)) == 2
  {
    var b := [true, false, true, false, false, false, false, false];
    var c := [false, false, false, false, false, false, true, true];
    Piece(input, 0, b, c, 0, [true], 0);
    Piece(input, 0, b, c, 1, [false, true], 1);
    assert Val([true]) == 1 && Val([false, true]) == 2;
  }

  lemma Counts(input: seq<byte>)
    requires IsSample(input)
    ensures Val(Window(input, 3, 5)) == 0 && Val(Window(input, 8, 5)) == 0 && Val(Window(input, 13, 4)) == 14
  {
    var b := [true, false, true, false, false, false, false, false];
    var c := [false, false, false, false, false, false, true, true];
    var d := [true, false, false, false, false, false, false, true];
    var none := [false, false, false, false, false];
    Piece(input, 0, b, c, 3, none, 3);
    Piece(input, 1, c, d, 0, none, 8);
    Piece(input, 1, c, d, 5, [false, true, true, true], 13);
    NoBits(none);
    ValOfFour([false, true, true, true]);
  }

  lemma {:induction false} NoBits(w: seq<bool>)
    requires forall i :: 0 <= i < |w| ==> !w[i]
    ensures Val(w) == 0
  {
    if w != [] { NoBits(w[1..]); }
  }

  /** The 18 lengths of three bits each: in this order, symbol 18 has length 1, symbols 0 and 1 have length 2. */
  function Sent(): (sent: seq<nat>)
    ensures |sent| == 18
    ensures forall i :: 0 <= i < 18 ==> sent[i] == if i == 2 then 1 else if i == 3 || i == 17 then 2 else 0
  {
    seq(18, i requires 0 <= i < 18 => if i == 2 then 1 else if i == 3 || i == 17 then 2 else 0)
  }

  /** Bits without a one. */
  lemma ZeroBits(input: seq<byte>, i: nat)
    requires IsSample(input) && (17 <= i < 23 || 29 <= i < 68)
    ensures !StreamBit(input, i)
  {
    if i < 23 {
      ByteBits(input, 2, [true, false, false, false, false, false, false, true]);
      assert StreamBit(input, i) == Window(input, 8 * 2, 8)[i - 16];
    } else if i < 32 {
      ByteBits(input, 3, [false, false, false, true, false, false, false, false]);
      assert StreamBit(input, i) == Window(input, 8 * 3, 8)[i - 24];
    } else if i < 64 {
      BitOfZero(i % 8);
    } else {
      ByteBits(input, 8, [false, false, false, false, false, true, false, false]);
      assert StreamBit(input, i) == Window(input, 8 * 8, 8)[i - 64];
    }
  }

  lemma SentLength(input: seq<byte>, n: nat, p: nat)
    requires IsSample(input) && n < 18 && p == 17 + 3 * n
    ensures Val(Window(input, p, 3)) == Sent()[n]
  {
    if n == 2 {
      var b := [true, false, false, false, false, false, false, true];
      Piece(input, 2, b, [false, false, false, true, false, false, false, false], 7, [true, false, false], p);
      NoBits([false, false]);
      assert [true, false, false][1..] == [false, false];
    } else if n == 3 {
      var c := [false, false, false, true, false, false, false, false];
      Piece(input, 3, c, [false, false, false, false, false, false, false, false], 2, [false, true, false], p);
      TwoOfThree();
    } else if n == 17 {
      var d := [false, false, false, false, false, true, false, false];
      Piece(input, 8, d, [false, true, true, false, true, false, true, true], 4, [false, true, false], p);
      TwoOfThree();
    } else {
      forall i: nat | i < 3 ensures !Window(input, p, 3)[i] { ZeroBits(input, p + i); }
      NoBits(Window(input, p, 3));
    }
  }

  lemma TwoOfThree()
    ensures Val([false, true, false]) == 2
  {
    assert [false, true, false][1..] == [true, false] && [true, false][1..] == [false];
    assert Val([true, false]) == 1;
  }

  lemma {:induction false} SentStands(input: seq<byte>, p: nat, sent: seq<nat>)
    requires forall n: nat :: n < |sent| ==> Val(Window(input, p + 3 * n, 3)) == sent[n]
    ensures SentAt(input, p, sent)
    decreases |sent|
  {
    if sent != [] { SentStands(input, p, sent[..|sent| - 1]); }
  }

  // ---- the code of the code lengths ----

  /** Symbol 18 has code 0, symbol 0 has 10, symbol 1 has 11. */
  lemma LengthCode(cl: seq<nat>)
    requires cl == CodeLengthLengths(Sent())
    ensures |cl| == 19
    ensures cl[18] == 1 && CodeBits(cl, 18) == [false]
    ensures cl[0] == 2 && CodeBits(cl, 0) == [true, false] && cl[1] == 2 && CodeBits(cl, 1) == [true, true]
  {
    LengthCodeNumbers(cl);
    assert ToMsbBits(0, 1) == [false] && ToMsbBits(2, 2) == [true, false] && ToMsbBits(3, 2) == [true, true];
  }

  lemma LengthCodeNumbers(cl: seq<nat>)
    requires cl == CodeLengthLengths(Sent())
    ensures |cl| == 19 && cl[0] == cl[1] == 2 && cl[18] == 1 && forall s :: 2 <= s < 18 ==> cl[s] == 0
    ensures Code(cl, 18) == 0 && Code(cl, 0) == 2 && Code(cl, 1) == 3
  {
    assert cl == Constant(2, 2) + Constant(0, 16) + Constant(1, 1) + Constant(0, 0);
    CountRuns(2, 2, 0, 16, 1, 1, 0, 0, 1);
    CountRuns(2, 1, 0, 0, 1, 0, 0, 0, 2);
    CountRuns(2, 2, 0, 16, 1, 0, 0, 0, 1);
    assert cl[..1] == Constant(2, 1) + Constant(0, 0) + Constant(1, 0) + Constant(0, 0);
    assert cl[..18] == Constant(2, 2) + Constant(0, 16) + Constant(1, 0) + Constant(0, 0);
    assert First(cl, 1) == 0 && First(cl, 2) == 2;
  }

  lemma LengthCodeFull(cl: seq<nat>)
    requires cl == CodeLengthLengths(Sent())
    ensures IsLengths(cl) && KraftSum(cl) == 0x8000
  {
    assert cl == Constant(2, 2) + Constant(0, 16) + Constant(1, 1) + Constant(0, 0);
    KraftOfRuns(2, 2, 16, 1, 1, 0);
    Pow2Value(13);
    Pow2Value(14);
  }

  lemma {:induction false} KraftAppendZeros(l: seq<nat>, n: nat)
    requires IsLengths(l)
    ensures IsLengths(l + Constant(0, n)) && KraftSum(l + Constant(0, n)) == KraftSum(l)
    decreases n
  {
    var s := l + Constant(0, n);
    if n == 0 {
      assert s == l;
    } else {
      KraftAppendZeros(l, n - 1);
      assert s[..|s| - 1] == l + Constant(0, n - 1);
    }
  }

  /** The share of the code space: a run, zeros, another run, zeros. */
  lemma KraftOfRuns(a: nat, k: nat, m: nat, b: nat, n: nat, o: nat)
    requires 1 <= a <= 15 && 1 <= b <= 15
    ensures var l := Constant(a, k) + Constant(0, m) + Constant(b, n) + Constant(0, o);
            IsLengths(l) && KraftSum(l) == k * Pow2(15 - a) + n * Pow2(15 - b)
  {
    KraftAppendConstant([], a, k);
    assert [] + Constant(a, k) == Constant(a, k);
    KraftAppendZeros(Constant(a, k), m);
    KraftAppendConstant(Constant(a, k) + Constant(0, m), b, n);
    KraftAppendZeros(Constant(a, k) + Constant(0, m) + Constant(b, n), o);
  }

  // ---- the symbols ----

  /** 97 zeros, a one, 158 zeros, a one, and a zero for the distances. */
  function Symbols(): seq<LengthSymbol> {
    [LongZeros(86), Len(1), LongZeros(127), LongZeros(9), Len(1), Len(0)]
  }

  /** Symbol 18 with its seven extra bits. */
  lemma LongZerosStand(input: seq<byte>, cl: seq<nat>, e: nat, x: seq<bool>, p: nat)
    requires cl == CodeLengthLengths(Sent()) && |x| == 8 && !x[7] && e == Num8(x)
    requires At(input, p, [false] + x[..7])
    ensures LengthSymbolAt(input, p, cl, LongZeros(e)) && |SymbolBits(cl, LongZeros(e))| == 8
  {
    var n := 7;
    LengthCode(cl);
    ValOfEight(x);
    ToBitsOfVal(x);
    ToBitsTake(e, n, n + 1);
  }

  lemma FirstSymbolStands(input: seq<byte>, cl: seq<nat>)
    requires IsSample(input) && cl == CodeLengthLengths(Sent())
    ensures LengthSymbolAt(input, 71, cl, LongZeros(86)) && |SymbolBits(cl, LongZeros(86))| == 8
  {
    var b := [false, false, false, false, false, true, false, false];
    var c := [false, true, true, false, true, false, true, true];
    var x := [false, true, true, false, true, false, true, false];
    Piece(input, 8, b, c, 7, [false] + x[..7], 71);
    LongZerosStand(input, cl, 86, x, 71);
  }

  lemma SecondSymbolStands(input: seq<byte>, cl: seq<nat>)
    requires IsSample(input) && cl == CodeLengthLengths(Sent())
    ensures LengthSymbolAt(input, 79, cl, Len(1)) && |SymbolBits(cl, Len(1))| == 2
  {
    LengthCode(cl);
    var c := [false, true, true, false, true, false, true, true];
    var d := [true, false, true, true, true, true, true, true];
    Piece(input, 9, c, d, 7, [true, true], 79);
    assert [true, true] + ToBits(0, 0) == [true, true];
  }

  lemma ThirdSymbolStands(input: seq<byte>, cl: seq<nat>)
    requires IsSample(input) && cl == CodeLengthLengths(Sent())
    ensures LengthSymbolAt(input, 81, cl, LongZeros(127)) && |SymbolBits(cl, LongZeros(127))| == 8
  {
    var b := [true, false, true, true, true, true, true, true];
    var c := [true, false, true, false, false, true, false, false];
    var x := [true, true, true, true, true, true, true, false];
    Piece(input, 10, b, c, 1, [false] + x[..7], 81);
    LongZerosStand(input, cl, 127, x, 81);
  }

  lemma FourthSymbolStands(input: seq<byte>, cl: seq<nat>)
    requires IsSample(input) && cl == CodeLengthLengths(Sent())
    ensures LengthSymbolAt(input, 89, cl, LongZeros(9)) && |SymbolBits(cl, LongZeros(9))| == 8
  {
    var c := [true, false, true, false, false, true, false, false];
    var d := [false, true, true, true, false, false, false, true];
    var x := [true, false, false, true, false, false, false, false];
    Piece(input, 11, c, d, 1, [false] + x[..7], 89);
    LongZerosStand(input, cl, 9, x, 89);
  }

  lemma LastSymbolsStand(input: seq<byte>, cl: seq<nat>)
    requires IsSample(input) && cl == CodeLengthLengths(Sent())
    ensures LengthSymbolAt(input, 97, cl, Len(1)) && |SymbolBits(cl, Len(1))| == 2
    ensures LengthSymbolAt(input, 99, cl, Len(0)) && |SymbolBits(cl, Len(0))| == 2
  {
    LengthCode(cl);
    var c := [true, false, true, false, false, true, false, false];
    var d := [false, true, true, true, false, false, false, true];
    Piece(input, 11, c, d, 9, [true, true], 97);
    Piece(input, 11, c, d, 11, [true, false], 99);
    assert [true, true] + ToBits(0, 0) == [true, true] && [true, false] + ToBits(0, 0) == [true, false];
  }

  lemma SymbolsStand(input: seq<byte>, cl: seq<nat>)
    requires IsSample(input) && cl == CodeLengthLengths(Sent())
    ensures SymbolsAt(input, 71, cl, Symbols(), 101)
  {
    FirstSymbolStands(input, cl);
    SecondSymbolStands(input, cl);
    ThirdSymbolStands(input, cl);
    FourthSymbolStands(input, cl);
    LastSymbolsStand(input, cl);
    SymbolsStart(input, 71, cl);
    var a, b, c, d, e := [LongZeros(86)], [LongZeros(86), Len(1)], [LongZeros(86), Len(1), LongZeros(127)],
                         [LongZeros(86), Len(1), LongZeros(127), LongZeros(9)],
                         [LongZeros(86), Len(1), LongZeros(127), LongZeros(9), Len(1)];
    NextStands(input, cl, [], 71, LongZeros(86), a, 79);
    NextStands(input, cl, a, 79, Len(1), b, 81);
    NextStands(input, cl, b, 81, LongZeros(127), c, 89);
    NextStands(input, cl, c, 89, LongZeros(9), d, 97);
    NextStands(input, cl, d, 97, Len(1), e, 99);
    NextStands(input, cl, e, 99, Len(0), Symbols(), 101);
  }

  lemma NextStands(input: seq<byte>, cl: seq<nat>, ss: seq<LengthSymbol>, q: nat, s: LengthSymbol,
                   ts: seq<LengthSymbol>, r: nat)
    requires SymbolsAt(input, 71, cl, ss, q) && LengthSymbolAt(input, q, cl, s) && r == q + |SymbolBits(cl, s)|
    requires ts == ss + [s]
    ensures SymbolsAt(input, 71, cl, ts, r)
  {
    SymbolsStep(input, 71, cl, ss, q, s);
  }

  /** What the symbols stand for. */
  predicate AreLengths(l: seq<nat>) {
    |l| == 258 && forall i :: 0 <= i < 258 ==> l[i] == if i == 97 || i == 256 then 1 else 0
  }

  lemma SymbolsMean()
    ensures RunsApply(Symbols()) && AreLengths(Runs(Symbols()))
  {
    var a, b, c, d, e := [LongZeros(86)], [LongZeros(86), Len(1)], [LongZeros(86), Len(1), LongZeros(127)],
                         [LongZeros(86), Len(1), LongZeros(127), LongZeros(9)],
                         [LongZeros(86), Len(1), LongZeros(127), LongZeros(9), Len(1)];
    NextMeans([], LongZeros(86), a);
    NextMeans(a, Len(1), b);
    NextMeans(b, LongZeros(127), c);
    NextMeans(c, LongZeros(9), d);
    NextMeans(d, Len(1), e);
    NextMeans(e, Len(0), Symbols());
  }

  lemma NextMeans(ss: seq<LengthSymbol>, s: LengthSymbol, ts: seq<LengthSymbol>)
    requires RunsApply(ss) && s.WellFormed() && !s.Repeat? && ts == ss + [s]
    ensures RunsApply(ts)
    ensures Runs(ts)
         == Runs(ss) + (if s.Len? then [s.n] else Constant(0, if s.Zeros? then s.extra + 3 else s.extra + 11))
  {
    RunsStep(ss, s);
  }

  // ---- the two codes and the data ----

  lemma LiteralCode(l: seq<nat>, ll: seq<nat>)
    requires AreLengths(l) && ll == l[..257]
    ensures IsLengths(ll) && KraftSum(ll) == 0x8000
    ensures ll[97] == 1 && CodeBits(ll, 97) == [false] && ll[256] == 1 && CodeBits(ll, 256) == [true]
  {
    LiteralKraft(ll);
    CountRuns(0, 97, 1, 0, 0, 0, 1, 0, 1);
    CountRuns(0, 97, 1, 1, 0, 158, 1, 0, 1);
    assert ll[..97] == Constant(0, 97) + Constant(1, 0) + Constant(0, 0) + Constant(1, 0);
    assert ll[..256] == Constant(0, 97) + Constant(1, 1) + Constant(0, 158) + Constant(1, 0);
    assert First(ll, 1) == 0 && Code(ll, 97) == 0 && Code(ll, 256) == 1;
    assert ToMsbBits(0, 1) == [false] && ToMsbBits(1, 1) == [true];
  }

  lemma LiteralKraft(ll: seq<nat>)
    requires |ll| == 257 && forall i :: 0 <= i < 257 ==> ll[i] == if i == 97 || i == 256 then 1 else 0
    ensures IsLengths(ll) && KraftSum(ll) == 0x8000
  {
    KraftAppendZeros([], 97);
    assert [] + Constant(0, 97) == Constant(0, 97);
    KraftAppendConstant(Constant(0, 97), 1, 1);
    KraftAppendZeros(Constant(0, 97) + Constant(1, 1), 158);
    KraftAppendConstant(Constant(0, 97) + Constant(1, 1) + Constant(0, 158), 1, 1);
    LiteralShape(ll);
    Pow2Value(14);
  }

  lemma LiteralShape(ll: seq<nat>)
    requires |ll| == 257 && forall i :: 0 <= i < 257 ==> ll[i] == if i == 97 || i == 256 then 1 else 0
    ensures ll == Constant(0, 97) + Constant(1, 1) + Constant(0, 158) + Constant(1, 1)
  {}

  lemma Data(input: seq<byte>, ll: seq<nat>, dl: seq<nat>, a: Token)
    requires IsSample(input) && |ll| == 257 && ll[97] == ll[256] == 1 && a == Literal(97)
    requires CodeBits(ll, 97) == [false] && CodeBits(ll, 256) == [true]
    ensures TokensAt(input, 101, ll, dl, [a, a], 104)
  {
    var c := [true, false, true, false, false, true, false, false];
    var d := [false, true, true, true, false, false, false, true];
    Piece(input, 11, c, d, 13, [false], 101);
    Piece(input, 11, c, d, 14, [false], 102);
    Piece(input, 11, c, d, 15, [true], 103);
    RunStart(input, 101, ll, dl);
    RunStep(input, 101, ll, dl, [], 101, a);
    assert [] + [a] == [a];
    RunStep(input, 101, ll, dl, [a], 102, a);
    assert [a] + [a] == [a, a];
    RunEnd(input, 101, ll, dl, [a, a], 103);
  }

  // ---- the whole stream ----

  lemma HeaderStands(input: seq<byte>) returns (h: DynamicHeader)
    requires IsSample(input)
    ensures HeaderAt(input, 3, h) && h.Size() == 98 && AreLengths(Runs(h.symbols)) && h.hlit == 257
  {
    h := DynamicHeader(257, 1, Sent(), Symbols());
    var cl := h.CodeLengthCode();
    Counts(input);
    forall n: nat | n < 18 ensures Val(Window(input, 17 + 3 * n, 3)) == Sent()[n] { SentLength(input, n, 17 + 3 * n); }
    SentStands(input, 17, Sent());
    LengthCodeFull(cl);
    SymbolsStand(input, cl);
    SymbolsMean();
    HeaderIsWellFormed(h);
  }

  lemma HeaderIsWellFormed(h: DynamicHeader)
    requires h.hlit == 257 && h.hdist == 1 && h.sent == Sent() && h.symbols == Symbols()
    requires SymbolsEncodable(h.CodeLengthCode(), h.symbols)
    ensures h.WellFormed()
  {
    SymbolsMean();
    LengthCodeFull(h.CodeLengthCode());
    var l := Runs(h.symbols);
    LiteralKraft(l[..257]);
    assert l[257..] == [0] && [0][..0] == [];
  }

  /** The stream stands for the letter twice. */
  lemma Sample(input: seq<byte>) returns (b: Block)
    requires IsSample(input)
    ensures StreamGoal(input, 0, [], 2, [b]) && ExpandBlocks([], [b]) == [97, 97]
  {
    var h := HeaderStands(input);
    var a := Literal(97);
    b := Dynamic(h, [a, a]);
    Start(input);
    LiteralCode(Runs(h.symbols), h.LiteralLengths());
    Data(input, h.LiteralLengths(), h.DistanceLengths(), a);
    TwoTokens(97, a);
    OneBlock(input, b, 104, [97, 97], 2);
  }

  method DecodeSample() returns (r: Option<seq<byte>>)
    ensures r == Some([97, 97])
  {
    var input := [5, 192, 129, 8, 0, 0, 0, 0, 32, 214, 253, 37, 142];
    ghost var b := Sample(input);
    r := ZlibDecode(input, 2, false, false);
    assert StreamGoal(input, StreamStart(false), [], 2, [b]);
  }
}
