/** The three kinds of block and whole streams (sections 3.2.3, 3.2.4 and 3.2.7 of RFC 1951). */
module DeflateBlocks {
  import opened Bits
  import opened BitStream
  import opened Canonical
  import opened Lz77
  import opened DeflateFormat

  // ---- stored blocks ----

  /** Byte `k` of the zero-padded buffer. */
  function ByteAt(input: seq<byte>, k: nat): byte {
    if k < |input| then input[k] else 0
  }

  /** The first byte boundary at or after bit `p`, in bytes. */
  function Aligned(p: nat): nat {
    (p + 7) / 8
  }

  /** A stored block's length, its complement and its data stand at the byte boundary after `p`. */
  predicate StoredAt(input: seq<byte>, p: nat, data: seq<byte>) {
    var k := Aligned(p);
    && |data| <= 0xFFFF && k + 4 + |data| <= |input|
    && (input[k + 1] as int) * 256 + (input[k] as int) == |data|
    && (input[k + 3] as int) * 256 + (input[k + 2] as int) == 0xFFFF - |data|
    && input[k + 4..k + 4 + |data|] == data
  }

  function StoredEnd(p: nat, data: seq<byte>): nat {
    8 * (Aligned(p) + 4 + |data|)
  }

  // ---- code lengths ----

  /** One symbol of the run-length coding of code lengths, with its extra bits. */
  datatype LengthSymbol = Len(n: nat) | Repeat(extra: nat) | Zeros(extra: nat) | LongZeros(extra: nat)
  {
    predicate WellFormed() {
      match this
      case Len(n) => n < 16
      case Repeat(e) => e < 4
      case Zeros(e) => e < 8
      case LongZeros(e) => e < 128
    }

    function Symbol(): nat {
      match this
      case Len(n) => n
      case Repeat(_) => 16
      case Zeros(_) => 17
      case LongZeros(_) => 18
    }

    function ExtraBits(): nat {
      match this
      case Len(_) => 0
      case Repeat(_) => 2
      case Zeros(_) => 3
      case LongZeros(_) => 7
    }

    function Extra(): nat {
      if Len? then 0 else extra
    }

    /** How many code lengths it stands for. */
    function Run(): nat {
      match this
      case Len(_) => 1
      case Repeat(e) => 3 + e
      case Zeros(e) => 3 + e
      case LongZeros(e) => 11 + e
    }
  }

  /** Repeating needs something to repeat. */
  predicate RunApplies(lens: seq<nat>, s: LengthSymbol) {
    s.WellFormed() && (s.Repeat? ==> lens != [])
  }

  function ApplyRun(lens: seq<nat>, s: LengthSymbol): seq<nat>
    requires RunApplies(lens, s)
  {
    match s
    case Len(n) => lens + [n]
    case Repeat(_) => lens + Constant(lens[|lens| - 1], s.Run())
    case Zeros(_) => lens + Constant(0, s.Run())
    case LongZeros(_) => lens + Constant(0, s.Run())
  }

  predicate RunsApply(ss: seq<LengthSymbol>)
    decreases |ss|, 0
  {
    ss == [] || (var n := |ss| - 1; RunsApply(ss[..n]) && RunApplies(Runs(ss[..n]), ss[n]))
  }

  /** The code lengths that a list of symbols stands for. */
  function Runs(ss: seq<LengthSymbol>): seq<nat>
    requires RunsApply(ss)
    decreases |ss|, 1
  {
    if ss == [] then [] else ApplyRun(Runs(ss[..|ss| - 1]), ss[|ss| - 1])
  }

  lemma RunsStep(ss: seq<LengthSymbol>, s: LengthSymbol)
    requires RunsApply(ss) && RunApplies(Runs(ss), s)
    ensures RunsApply(ss + [s]) && Runs(ss + [s]) == ApplyRun(Runs(ss), s)
  {
    assert (ss + [s])[..|ss|] == ss;
  }

  lemma {:induction false} RunsPrefix(ss: seq<LengthSymbol>, k: nat)
    requires RunsApply(ss) && k <= |ss|
    ensures RunsApply(ss[..k]) && |Runs(ss[..k])| <= |Runs(ss)|
    ensures k < |ss| ==> |Runs(ss[..k])| < |Runs(ss)|
    decreases |ss|
  {
    if k < |ss| {
      var n := |ss| - 1;
      RunsPrefix(ss[..n], k);
      assert ss[..n][..k] == ss[..k];
    } else {
      assert ss[..k] == ss;
    }
  }

  lemma {:induction false} RunsAreLengths(ss: seq<LengthSymbol>)
    requires RunsApply(ss)
    ensures IsLengths(Runs(ss))
  {
    if ss != [] { RunsAreLengths(ss[..|ss| - 1]); }
  }

  /** The symbol and its extra bits. */
  predicate SymbolEncodable(cl: seq<nat>, s: LengthSymbol) {
    s.WellFormed() && s.Symbol() < |cl| && cl[s.Symbol()] > 0
  }

  function SymbolBits(cl: seq<nat>, s: LengthSymbol): (b: seq<bool>)
    requires SymbolEncodable(cl, s)
    ensures |b| == cl[s.Symbol()] + s.ExtraBits()
  {
    CodeBits(cl, s.Symbol()) + ToBits(s.Extra(), s.ExtraBits())
  }

  predicate SymbolsEncodable(cl: seq<nat>, ss: seq<LengthSymbol>) {
    forall i :: 0 <= i < |ss| ==> SymbolEncodable(cl, ss[i])
  }

  function SymbolStrings(cl: seq<nat>, ss: seq<LengthSymbol>): seq<seq<bool>>
    requires SymbolsEncodable(cl, ss)
  {
    seq(|ss|, i requires 0 <= i < |ss| => SymbolBits(cl, ss[i]))
  }

  function SymbolsBits(cl: seq<nat>, ss: seq<LengthSymbol>): seq<bool>
    requires SymbolsEncodable(cl, ss)
  {
    Concat(SymbolStrings(cl, ss))
  }

  predicate LengthSymbolAt(input: seq<byte>, p: nat, cl: seq<nat>, s: LengthSymbol) {
    SymbolEncodable(cl, s) && At(input, p, SymbolBits(cl, s))
  }

  predicate SymbolsAt(input: seq<byte>, p: nat, cl: seq<nat>, ss: seq<LengthSymbol>, q: nat) {
    SymbolsEncodable(cl, ss) && At(input, p, SymbolsBits(cl, ss)) && q == p + |SymbolsBits(cl, ss)|
  }

  lemma SymbolsStart(input: seq<byte>, p: nat, cl: seq<nat>)
    ensures SymbolsAt(input, p, cl, [], p)
  {
    assert SymbolStrings(cl, []) == [];
  }

  lemma SymbolsFrom(cl: seq<nat>, ss: seq<LengthSymbol>, k: nat) returns (rest: seq<bool>)
    requires SymbolsEncodable(cl, ss) && k < |ss|
    ensures SymbolsBits(cl, ss) == SymbolsBits(cl, ss[..k]) + SymbolBits(cl, ss[k]) + rest
    ensures SymbolsBits(cl, ss[..k + 1]) == SymbolsBits(cl, ss[..k]) + SymbolBits(cl, ss[k])
  {
    rest := ConcatFrom(SymbolStrings(cl, ss), k);
    assert SymbolStrings(cl, ss[..k]) == SymbolStrings(cl, ss)[..k];
    assert SymbolStrings(cl, ss[..k + 1]) == SymbolStrings(cl, ss)[..k + 1];
  }

  lemma SymbolsAppend(cl: seq<nat>, ss: seq<LengthSymbol>, s: LengthSymbol)
    requires SymbolsEncodable(cl, ss) && SymbolEncodable(cl, s)
    ensures SymbolsEncodable(cl, ss + [s]) && SymbolsBits(cl, ss + [s]) == SymbolsBits(cl, ss) + SymbolBits(cl, s)
  {
    assert SymbolStrings(cl, ss + [s]) == SymbolStrings(cl, ss) + [SymbolBits(cl, s)];
    ConcatAppend(SymbolStrings(cl, ss), SymbolBits(cl, s));
  }

  lemma SymbolsStep(input: seq<byte>, p: nat, cl: seq<nat>, ss: seq<LengthSymbol>, q: nat, s: LengthSymbol)
    requires SymbolsAt(input, p, cl, ss, q) && LengthSymbolAt(input, q, cl, s)
    ensures SymbolsAt(input, p, cl, ss + [s], q + |SymbolBits(cl, s)|)
  {
    SymbolsAppend(cl, ss, s);
    AtAppend(input, p, SymbolsBits(cl, ss), SymbolBits(cl, s));
  }

  lemma SymbolsNext(input: seq<byte>, p: nat, cl: seq<nat>, ss: seq<LengthSymbol>, end: nat, k: nat, q: nat)
    requires SymbolsAt(input, p, cl, ss, end) && k < |ss| && SymbolsAt(input, p, cl, ss[..k], q)
    ensures LengthSymbolAt(input, q, cl, ss[k]) && q + |SymbolBits(cl, ss[k])| <= end
  {
    var rest := SymbolsFrom(cl, ss, k);
    PieceAt(input, p, SymbolsBits(cl, ss[..k]), SymbolBits(cl, ss[k]), rest, q);
  }

  lemma LengthSymbolParts(input: seq<byte>, p: nat, q: nat, cl: seq<nat>, s: LengthSymbol)
    requires SymbolEncodable(cl, s) && q == p + cl[s.Symbol()]
    ensures LengthSymbolAt(input, p, cl, s) <==>
            SymbolAt(input, p, cl, s.Symbol()) && Val(Window(input, q, s.ExtraBits())) == s.Extra()
  {
    AtAppend(input, p, CodeBits(cl, s.Symbol()), ToBits(s.Extra(), s.ExtraBits()));
    Pow2Value(s.ExtraBits());
    NumberAt(input, q, s.Extra(), s.ExtraBits());
  }

  /** A symbol read with its extra bits is what stands there. */
  lemma LengthSymbolRead(input: seq<byte>, p: nat, q: nat, cl: seq<nat>, s: LengthSymbol)
    requires IsLengths(cl) && Fits(cl) && s.WellFormed() && SymbolAt(input, p, cl, s.Symbol())
    requires q == p + cl[s.Symbol()] && Val(Window(input, q, s.ExtraBits())) == s.Extra()
    ensures LengthSymbolAt(input, p, cl, s)
    ensures forall t :: LengthSymbolAt(input, p, cl, t) ==> t == s
  {
    LengthSymbolParts(input, p, q, cl, s);
    forall t | LengthSymbolAt(input, p, cl, t) ensures t == s { LengthSymbolUnique(input, p, cl, s, t); }
  }

  lemma LengthSymbolStarts(input: seq<byte>, p: nat, cl: seq<nat>)
    ensures forall t :: LengthSymbolAt(input, p, cl, t) ==> SymbolAt(input, p, cl, t.Symbol())
  {
    forall t | LengthSymbolAt(input, p, cl, t) ensures SymbolAt(input, p, cl, t.Symbol()) {
      LengthSymbolParts(input, p, p + cl[t.Symbol()], cl, t);
    }
  }

  lemma LengthSymbolUnique(input: seq<byte>, p: nat, cl: seq<nat>, s: LengthSymbol, t: LengthSymbol)
    requires IsLengths(cl) && Fits(cl) && LengthSymbolAt(input, p, cl, s) && LengthSymbolAt(input, p, cl, t)
    ensures s == t
  {
    LengthSymbolParts(input, p, p + cl[s.Symbol()], cl, s);
    LengthSymbolParts(input, p, p + cl[t.Symbol()], cl, t);
    SymbolUnique(input, p, cl, s.Symbol(), t.Symbol());
  }

  /** A decoder on its way through the symbols `want`, which stand for `total` lengths, finds the next
      one there until it has all lengths. */
  lemma SymbolsTowards(input: seq<byte>, p: nat, cl: seq<nat>, want: seq<LengthSymbol>, end: nat,
                       ss: seq<LengthSymbol>, q: nat)
    returns (next: LengthSymbol)
    requires SymbolsAt(input, p, cl, want, end) && RunsApply(want)
    requires SymbolsAt(input, p, cl, ss, q) && RunsApply(ss) && ss <= want
    ensures |Runs(ss)| <= |Runs(want)|
    ensures ss == want ==> q == end
    ensures ss != want ==>
            && |Runs(ss)| < |Runs(want)| && LengthSymbolAt(input, q, cl, next)
            && q + |SymbolBits(cl, next)| <= end && RunApplies(Runs(ss), next)
            && |Runs(ss)| + next.Run() <= |Runs(want)| && ss + [next] <= want
  {
    var k := |ss|;
    assert want[..k] == ss;
    RunsPrefix(want, k);
    if k < |want| {
      next := want[k];
      SymbolsNext(input, p, cl, want, end, k, q);
      RunsPrefix(want, k + 1);
      assert want[..k + 1] == ss + [next];
      assert want[..k + 1][..k] == ss;
      assert |ApplyRun(Runs(ss), next)| == |Runs(ss)| + next.Run();
    } else {
      next := Len(0);
    }
  }

  /** Symbols that stand at `p`, end within the input and stand for `total` lengths. */
  ghost predicate LengthsGoal(input: seq<byte>, p: nat, cl: seq<nat>, total: nat, ss: seq<LengthSymbol>, end: nat) {
    SymbolsAt(input, p, cl, ss, end) && end <= 8 * |input| && RunsApply(ss) && |Runs(ss)| == total
  }

  /** How far the code lengths have been rebuilt: the symbols `ss` from `p` to `q` stand for `lens`. */
  ghost predicate LengthsProgress(input: seq<byte>, p: nat, cl: seq<nat>, ss: seq<LengthSymbol>, q: nat,
                                  lens: seq<nat>)
  {
    SymbolsAt(input, p, cl, ss, q) && RunsApply(ss) && lens == Runs(ss)
  }

  lemma LengthsStart(input: seq<byte>, p: nat, cl: seq<nat>)
    ensures LengthsProgress(input, p, cl, [], p, [])
  {
    SymbolsStart(input, p, cl);
  }

  lemma LengthsNext(input: seq<byte>, p: nat, cl: seq<nat>, ss: seq<LengthSymbol>, q: nat, lens: seq<nat>,
                    s: LengthSymbol)
    requires LengthsProgress(input, p, cl, ss, q, lens) && LengthSymbolAt(input, q, cl, s) && RunApplies(lens, s)
    ensures LengthsProgress(input, p, cl, ss + [s], q + |SymbolBits(cl, s)|, ApplyRun(lens, s))
  {
    SymbolsStep(input, p, cl, ss, q, s);
    RunsStep(ss, s);
  }

  lemma LengthsTowards(input: seq<byte>, p: nat, cl: seq<nat>, total: nat, want: seq<LengthSymbol>, end: nat,
                       ss: seq<LengthSymbol>, q: nat, lens: seq<nat>) returns (next: LengthSymbol)
    requires LengthsGoal(input, p, cl, total, want, end)
    requires LengthsProgress(input, p, cl, ss, q, lens) && ss <= want && |lens| < total
    ensures q <= 8 * |input| && LengthSymbolAt(input, q, cl, next) && RunApplies(lens, next)
    ensures |lens| + next.Run() <= total && ss + [next] <= want
  {
    next := SymbolsTowards(input, p, cl, want, end, ss, q);
  }

  // ---- the header of a dynamic block ----

  /** The order in which the lengths of the code length code are sent. */
  const DEZIGZAG: seq<nat> := [16, 17, 18, 0, 8, 7, 9, 6, 10, 5, 11, 4, 12, 3, 13, 2, 14, 1, 15]

  /** The place in the order above of the length of symbol `s`. */
  function SentAs(s: nat): nat {
    if s >= 16 then s - 16 else if s == 0 then 3 else if s < 8 then 19 - 2 * s else 2 * s - 12
  }

  lemma DezigzagIsSentAs(i: nat)
    requires i < 19
    ensures DEZIGZAG[i] < 19 && SentAs(DEZIGZAG[i]) == i
  {}

  method DezigzagAt(i: nat) returns (s: nat)
    requires i < 19
    ensures s < 19 && forall t :: 0 <= t < 19 ==> (SentAs(t) == i <==> t == s)
  {
    DezigzagIsSentAs(i);
    s := DEZIGZAG[i];
    forall t | 0 <= t < 19 && SentAs(t) == i ensures t == s { SentAsIsDezigzag(t); }
  }

  lemma SentAsIsDezigzag(s: nat)
    requires s < 19
    ensures SentAs(s) < 19 && DEZIGZAG[SentAs(s)] == s
  {}

  /** The code length code: lengths that are not sent are zero. */
  function CodeLengthLengths(sent: seq<nat>): (l: seq<nat>)
    ensures |l| == 19
  {
    seq(19, s requires 0 <= s < 19 => if SentAs(s) < |sent| then sent[SentAs(s)] else 0)
  }

  datatype DynamicHeader = DynamicHeader(hlit: nat, hdist: nat, sent: seq<nat>, symbols: seq<LengthSymbol>)
  {
    function CodeLengthCode(): seq<nat> {
      CodeLengthLengths(sent)
    }

    predicate WellFormed() {
      && 257 <= hlit <= 288 && 1 <= hdist <= 32
      && 4 <= |sent| <= 19 && (forall i :: 0 <= i < |sent| ==> sent[i] < 8)
      && IsLengths(CodeLengthCode()) && KraftSum(CodeLengthCode()) <= 0x8000
      && SymbolsEncodable(CodeLengthCode(), symbols)
      && RunsApply(symbols) && |Runs(symbols)| == hlit + hdist && IsLengths(Runs(symbols))
      && KraftSum(Runs(symbols)[..hlit]) <= 0x8000 && KraftSum(Runs(symbols)[hlit..]) <= 0x8000
    }

    function LiteralLengths(): seq<nat>
      requires WellFormed()
    {
      Runs(symbols)[..hlit]
    }

    function DistanceLengths(): seq<nat>
      requires WellFormed()
    {
      Runs(symbols)[hlit..]
    }

    function Size(): nat
      requires WellFormed()
    {
      14 + 3 * |sent| + |SymbolsBits(CodeLengthCode(), symbols)|
    }
  }

  /** The counts and the sent lengths stand from `p` to `q`. */
  predicate CountsAt(input: seq<byte>, p: nat, hlit: nat, hdist: nat, sent: seq<nat>, q: nat) {
    && Val(Window(input, p, 5)) + 257 == hlit
    && Val(Window(input, p + 5, 5)) + 1 == hdist
    && Val(Window(input, p + 10, 4)) + 4 == |sent|
    && SentAt(input, p + 14, sent) && q == p + 14 + 3 * |sent|
  }

  predicate SentAt(input: seq<byte>, p: nat, sent: seq<nat>) {
    sent == [] || (var n := |sent| - 1; SentAt(input, p, sent[..n]) && Val(Window(input, p + 3 * n, 3)) == sent[n])
  }

  lemma OneMoreSent(input: seq<byte>, p: nat, sent: seq<nat>, v: nat, q: nat)
    requires SentAt(input, p, sent) && q == p + 3 * |sent| && Val(Window(input, q, 3)) == v
    ensures SentAt(input, p, sent + [v])
  {
    assert (sent + [v])[..|sent|] == sent;
  }

  predicate HeaderAt(input: seq<byte>, p: nat, h: DynamicHeader) {
    && h.WellFormed()
    && CountsAt(input, p, h.hlit, h.hdist, h.sent, p + 14 + 3 * |h.sent|)
    && SymbolsAt(input, p + 14 + 3 * |h.sent|, h.CodeLengthCode(), h.symbols, p + h.Size())
  }

  lemma {:induction false} SentUnique(input: seq<byte>, p: nat, s: seq<nat>, t: seq<nat>)
    requires SentAt(input, p, s) && SentAt(input, p, t) && |s| == |t|
    ensures s == t
    decreases |s|
  {
    if s != [] {
      var n := |s| - 1;
      SentUnique(input, p, s[..n], t[..n]);
      assert s == s[..n] + [s[n]] && t == t[..n] + [t[n]];
    }
  }

  /** A header at `p` that ends within the input. */
  ghost predicate HeaderGoal(input: seq<byte>, p: nat, h: DynamicHeader) {
    HeaderAt(input, p, h) && p + h.Size() <= 8 * |input|
  }

  /** A run of symbols that stands for all the lengths is the whole run. */
  lemma WholeRun(ss: seq<LengthSymbol>, want: seq<LengthSymbol>)
    requires RunsApply(want) && RunsApply(ss) && ss <= want && |Runs(ss)| == |Runs(want)|
    ensures ss == want
  {
    RunsPrefix(want, |ss|);
    assert want[..|ss|] == ss;
  }

  /** What was read as counts and lengths is what an acceptable header has there. */
  lemma HeaderGoalParts(input: seq<byte>, p: nat, h: DynamicHeader, hlit: nat, hdist: nat, sent: seq<nat>, q: nat)
    requires HeaderGoal(input, p, h) && CountsAt(input, p, hlit, hdist, sent, q)
    ensures h.hlit == hlit && h.hdist == hdist && h.sent == sent
    ensures LengthsGoal(input, q, h.CodeLengthCode(), hlit + hdist, h.symbols, p + h.Size())
  {
    SentUnique(input, p + 14, sent, h.sent);
  }

  /** A header read from `p` over `q` to `end`, with the code lengths `l`, before the two codes are built. */
  ghost predicate HeaderRead(input: seq<byte>, p: nat, q: nat, h: DynamicHeader, end: nat, l: seq<nat>) {
    && 257 <= h.hlit <= 288 && 1 <= h.hdist <= 32
    && 4 <= |h.sent| <= 19 && (forall i :: 0 <= i < |h.sent| ==> h.sent[i] < 8)
    && CountsAt(input, p, h.hlit, h.hdist, h.sent, q)
    && IsLengths(h.CodeLengthCode()) && KraftSum(h.CodeLengthCode()) <= 0x8000
    && LengthsProgress(input, q, h.CodeLengthCode(), h.symbols, end, l)
    && |l| == h.hlit + h.hdist
  }

  lemma HeaderBuilt(input: seq<byte>, p: nat, q: nat, h: DynamicHeader, end: nat, l: seq<nat>)
    requires HeaderRead(input, p, q, h, end, l)
    ensures IsLengths(l)
    ensures KraftSum(l[..h.hlit]) <= 0x8000 && KraftSum(l[h.hlit..]) <= 0x8000 ==>
              && HeaderAt(input, p, h) && end == p + h.Size()
              && h.LiteralLengths() == l[..h.hlit] && h.DistanceLengths() == l[h.hlit..]
  {
    RunsAreLengths(h.symbols);
    if KraftSum(l[..h.hlit]) <= 0x8000 && KraftSum(l[h.hlit..]) <= 0x8000 {
      HeaderAccepted(input, p, q, h, end, l);
      HeaderCodes(h, l);
    }
  }

  lemma HeaderAccepted(input: seq<byte>, p: nat, q: nat, h: DynamicHeader, end: nat, l: seq<nat>)
    requires HeaderRead(input, p, q, h, end, l) && IsLengths(l)
    requires KraftSum(l[..h.hlit]) <= 0x8000 && KraftSum(l[h.hlit..]) <= 0x8000
    ensures HeaderAt(input, p, h) && end == p + h.Size() && Runs(h.symbols) == l
  {}

  lemma HeaderCodes(h: DynamicHeader, l: seq<nat>)
    requires h.WellFormed() && Runs(h.symbols) == l
    ensures h.LiteralLengths() == l[..h.hlit] && h.DistanceLengths() == l[h.hlit..]
  {}

  // ---- the fixed codes ----

  const FIXED_LENGTHS: seq<nat> := Constant(8, 144) + Constant(9, 112) + Constant(7, 24) + Constant(8, 8)
  const FIXED_DISTANCES: seq<nat> := Constant(5, 32)

  lemma {:induction false} KraftAppendConstant(l: seq<nat>, v: nat, n: nat)
    requires IsLengths(l) && 1 <= v <= 15
    ensures IsLengths(l + Constant(v, n)) && KraftSum(l + Constant(v, n)) == KraftSum(l) + n * Pow2(15 - v)
    decreases n
  {
    var s := l + Constant(v, n);
    if n == 0 {
      assert s == l;
    } else {
      KraftAppendConstant(l, v, n - 1);
      assert s[..|s| - 1] == l + Constant(v, n - 1);
      var p := Pow2(15 - v);
      assert n * p == (n - 1) * p + p by { MulDistribute(n - 1, 1, p); }
    }
  }

  /** The fixed codes use up the code space exactly. */
  lemma FixedCodesAccepted()
    ensures IsLengths(FIXED_LENGTHS) && KraftSum(FIXED_LENGTHS) == 0x8000 && |FIXED_LENGTHS| == 288
    ensures IsLengths(FIXED_DISTANCES) && KraftSum(FIXED_DISTANCES) == 0x8000 && |FIXED_DISTANCES| == 32
  {
    FixedDistancesAccepted();
    Pow2Value(15 - 7);
    Pow2Value(15 - 8);
    Pow2Value(15 - 9);
    var a := Constant(8, 144);
    var b := a + Constant(9, 112);
    var c := b + Constant(7, 24);
    KraftAppendConstant([], 8, 144);
    assert [] + Constant(8, 144) == a;
    KraftAppendConstant(a, 9, 112);
    KraftAppendConstant(b, 7, 24);
    KraftAppendConstant(c, 8, 8);
    assert FIXED_LENGTHS == c + Constant(8, 8);
  }

  lemma FixedDistancesAccepted()
    ensures IsLengths(FIXED_DISTANCES) && KraftSum(FIXED_DISTANCES) == 0x8000 && |FIXED_DISTANCES| == 32
  {
    Pow2Value(15 - 5);
    KraftAppendConstant([], 5, 32);
    assert Constant(5, 32) == [] + Constant(5, 32);
  }

  // ---- blocks and streams ----

  datatype Block =
    | Stored(data: seq<byte>)
    | Fixed(tokens: seq<Token>)
    | Dynamic(header: DynamicHeader, tokens: seq<Token>)
  {
    predicate WellFormed() {
      match this
      case Stored(_) => true
      case Fixed(ts) => BlockEncodable(FIXED_LENGTHS, FIXED_DISTANCES, ts)
      case Dynamic(h, ts) => h.WellFormed() && BlockEncodable(h.LiteralLengths(), h.DistanceLengths(), ts)
    }

    function Type(): nat {
      match this
      case Stored(_) => 0
      case Fixed(_) => 1
      case Dynamic(_, _) => 2
    }

    /** Where the block ends when it starts at bit `p`. */
    function End(p: nat): nat
      requires WellFormed()
    {
      match this
      case Stored(data) => StoredEnd(p + 3, data)
      case Fixed(ts) => p + 3 + |BlockBits(FIXED_LENGTHS, FIXED_DISTANCES, ts)|
      case Dynamic(h, ts) => p + 3 + h.Size() + |BlockBits(h.LiteralLengths(), h.DistanceLengths(), ts)|
    }

    predicate Expandable(out: seq<byte>) {
      !Stored? ==> Lz77.Expandable(out, tokens)
    }

    function Expand(out: seq<byte>): seq<byte>
      requires Expandable(out)
    {
      if Stored? then out + data else Lz77.Expand(out, tokens)
    }
  }

  /** The three bits that start a block. */
  predicate BlockHeaderAt(input: seq<byte>, p: nat, last: bool, b: Block) {
    Val(Window(input, p, 1)) == (if last then 1 else 0) && Val(Window(input, p + 1, 2)) == b.Type()
  }

  /** Block `b` stands at bit `p`, with the final bit `last`. */
  predicate BlockAt(input: seq<byte>, p: nat, last: bool, b: Block) {
    match b
    case Stored(data) =>
      BlockHeaderAt(input, p, last, b) && StoredAt(input, p + 3, data)
    case Fixed(ts) =>
      b.WellFormed() && BlockHeaderAt(input, p, last, b)
      && TokensAt(input, p + 3, FIXED_LENGTHS, FIXED_DISTANCES, ts, b.End(p))
    case Dynamic(h, ts) =>
      b.WellFormed() && BlockHeaderAt(input, p, last, b) && DynamicAt(input, p + 3, h, ts, b.End(p))
  }

  predicate DynamicAt(input: seq<byte>, q: nat, h: DynamicHeader, ts: seq<Token>, end: nat) {
    HeaderAt(input, q, h) && TokensAt(input, q + h.Size(), h.LiteralLengths(), h.DistanceLengths(), ts, end)
  }

  predicate AllWellFormed(bs: seq<Block>) {
    forall i :: 0 <= i < |bs| ==> bs[i].WellFormed()
  }

  function BlocksEnd(bs: seq<Block>, p: nat): nat
    requires AllWellFormed(bs)
  {
    if bs == [] then p else bs[|bs| - 1].End(BlocksEnd(bs[..|bs| - 1], p))
  }

  /** The blocks stand one after the other from bit `p` on, none of them marked final. */
  predicate BlocksAt(input: seq<byte>, p: nat, bs: seq<Block>)
  {
    bs == [] ||
    (var n := |bs| - 1;
     AllWellFormed(bs) && BlocksAt(input, p, bs[..n]) && BlockAt(input, BlocksEnd(bs[..n], p), false, bs[n]))
  }

  /** A whole stream: like `BlocksAt`, but the last block is marked final. */
  predicate StreamAt(input: seq<byte>, p: nat, bs: seq<Block>) {
    bs != [] &&
    (var n := |bs| - 1;
     AllWellFormed(bs) && BlocksAt(input, p, bs[..n]) && BlockAt(input, BlocksEnd(bs[..n], p), true, bs[n]))
  }

  predicate BlocksExpandable(out: seq<byte>, bs: seq<Block>)
    decreases |bs|, 0
  {
    bs == [] || (var n := |bs| - 1; BlocksExpandable(out, bs[..n]) && bs[n].Expandable(ExpandBlocks(out, bs[..n])))
  }

  function ExpandBlocks(out: seq<byte>, bs: seq<Block>): seq<byte>
    requires BlocksExpandable(out, bs)
    decreases |bs|, 1
  {
    if bs == [] then out else bs[|bs| - 1].Expand(ExpandBlocks(out, bs[..|bs| - 1]))
  }

  /** The stream at `p` is well formed, ends within the input, refers only to output that is there
      and fits the output: what a decompressor has to accept. */
  ghost predicate StreamGoal(input: seq<byte>, p: nat, out: seq<byte>, cap: nat, bs: seq<Block>) {
    && StreamAt(input, p, bs) && BlocksEnd(bs, p) <= 8 * |input|
    && BlocksExpandable(out, bs) && |ExpandBlocks(out, bs)| <= cap
  }

  /** A block with which the output goes on acceptably. */
  ghost predicate NextGoal(input: seq<byte>, p: nat, out: seq<byte>, cap: nat, last: bool, b: Block) {
    && BlockAt(input, p, last, b) && b.End(p) <= 8 * |input|
    && b.Expandable(out) && |b.Expand(out)| <= cap
  }

  /** A block starts within the input: some bit of its type, or of its complement, is one. */
  lemma BlockStartsWithin(input: seq<byte>, p: nat, last: bool, b: Block)
    requires BlockAt(input, p, last, b)
    ensures p < 8 * |input| && p < b.End(p)
  {
    if b.Stored? {
      StoredBeyond(input, p + 3, b.data);
    } else {
      CompressedStarts(input, p, p + 1, last, b);
    }
  }

  lemma CompressedStarts(input: seq<byte>, p: nat, q1: nat, last: bool, b: Block)
    requires BlockAt(input, p, last, b) && !b.Stored? && q1 == p + 1
    ensures p < 8 * |input| && p < b.End(p)
  {
    TypeWithin(input, p, q1, b);
  }

  lemma StoredBeyond(input: seq<byte>, q: nat, data: seq<byte>)
    requires StoredAt(input, q, data)
    ensures q < 8 * |input| && q < StoredEnd(q, data)
  {}

  lemma TypeWithin(input: seq<byte>, p: nat, q1: nat, b: Block)
    requires q1 == p + 1 && Val(Window(input, q1, 2)) == b.Type() != 0
    ensures p < 8 * |input|
  {
    if 8 * |input| <= p { WindowPastEnd(input, q1, 2); }
  }

  /** A block moves both the position and the output forward. */
  lemma BlockGrows(input: seq<byte>, p: nat, last: bool, b: Block, out: seq<byte>)
    requires BlockAt(input, p, last, b) && b.Expandable(out)
    ensures p < b.End(p) && |out| <= |b.Expand(out)|
  {
    BlockStartsWithin(input, p, last, b);
    if !b.Stored? {
      ExpandPrefix(out, b.tokens, 0);
      assert b.tokens[..0] == [];
    }
  }

  lemma BlocksInit(input: seq<byte>, p: nat, out: seq<byte>, bs: seq<Block>, init: seq<Block>)
    requires BlocksAt(input, p, bs) && BlocksExpandable(out, bs) && bs != [] && init == bs[..|bs| - 1]
    ensures AllWellFormed(bs) && AllWellFormed(init) && BlocksAt(input, p, init) && BlocksExpandable(out, init)
    ensures BlocksEnd(init, p) <= BlocksEnd(bs, p) && |ExpandBlocks(out, init)| <= |ExpandBlocks(out, bs)|
  {
    BlockGrows(input, BlocksEnd(init, p), false, bs[|bs| - 1], ExpandBlocks(out, init));
  }

  lemma {:induction false} BlocksPrefix(input: seq<byte>, p: nat, out: seq<byte>, bs: seq<Block>, k: nat)
    requires BlocksAt(input, p, bs) && BlocksExpandable(out, bs) && k <= |bs|
    ensures AllWellFormed(bs) && AllWellFormed(bs[..k]) && BlocksAt(input, p, bs[..k]) && BlocksExpandable(out, bs[..k])
    ensures BlocksEnd(bs[..k], p) <= BlocksEnd(bs, p)
    ensures |ExpandBlocks(out, bs[..k])| <= |ExpandBlocks(out, bs)|
    decreases |bs|
  {
    if k < |bs| {
      var init := bs[..|bs| - 1];
      BlocksInit(input, p, out, bs, init);
      assert init[..k] == bs[..k];
      BlocksPrefix(input, p, out, init, k);
    } else {
      assert bs[..k] == bs;
    }
  }

  lemma BlocksStep(input: seq<byte>, p: nat, out: seq<byte>, bs: seq<Block>, last: bool, b: Block)
    requires BlocksAt(input, p, bs) && AllWellFormed(bs) && BlocksExpandable(out, bs)
    requires BlockAt(input, BlocksEnd(bs, p), last, b) && b.Expandable(ExpandBlocks(out, bs))
    ensures AllWellFormed(bs + [b]) && BlocksEnd(bs + [b], p) == b.End(BlocksEnd(bs, p))
    ensures if last then StreamAt(input, p, bs + [b]) else BlocksAt(input, p, bs + [b])
    ensures BlocksExpandable(out, bs + [b]) && ExpandBlocks(out, bs + [b]) == b.Expand(ExpandBlocks(out, bs))
  {
    assert (bs + [b])[..|bs|] == bs;
  }

  /** How far a stream has been decompressed. */
  ghost predicate StreamProgress(input: seq<byte>, p: nat, out: seq<byte>, bs: seq<Block>, q: nat, now: seq<byte>) {
    && AllWellFormed(bs) && BlocksAt(input, p, bs) && q == BlocksEnd(bs, p)
    && BlocksExpandable(out, bs) && now == ExpandBlocks(out, bs)
  }

  /** The last of several blocks, seen from where the ones before it end. */
  lemma BlocksLast(input: seq<byte>, p: nat, out: seq<byte>, bs: seq<Block>, init: seq<Block>, b: Block, q: nat,
                   now: seq<byte>)
    requires bs == init + [b] && BlocksAt(input, p, bs) && BlocksExpandable(out, bs)
    requires StreamProgress(input, p, out, init, q, now)
    ensures BlockAt(input, q, false, b) && AllWellFormed(bs) && b.End(q) == BlocksEnd(bs, p)
    ensures b.Expandable(now) && b.Expand(now) == ExpandBlocks(out, bs)
  {
    assert bs[..|bs| - 1] == init;
  }

  /** A block that is not the last of an acceptable stream is acceptable where the ones before it end. */
  lemma InnerBlock(input: seq<byte>, p: nat, out: seq<byte>, cap: nat, init: seq<Block>, last: Block,
                   bs: seq<Block>, b: Block, q: nat, now: seq<byte>)
    requires StreamGoal(input, p, out, cap, init + [last]) && bs + [b] <= init
    requires StreamProgress(input, p, out, bs, q, now)
    ensures NextGoal(input, q, now, cap, false, b)
  {
    var all, k := init + [last], |bs| + 1;
    assert all[..|init|] == init && init[..k] == bs + [b];
    BlocksPrefix(input, p, out, init, k);
    BlockGrows(input, BlocksEnd(init, p), true, last, ExpandBlocks(out, init));
    BlocksLast(input, p, out, bs + [b], bs, b, q, now);
  }

  /** On the way to an acceptable stream the next block is acceptable, and final exactly at the end. */
  lemma StreamTowards(input: seq<byte>, p: nat, out: seq<byte>, cap: nat, want: seq<Block>, bs: seq<Block>, q: nat,
                      now: seq<byte>)
    returns (last: bool, b: Block)
    requires StreamGoal(input, p, out, cap, want) && StreamProgress(input, p, out, bs, q, now) && bs < want
    ensures NextGoal(input, q, now, cap, last, b) && bs + [b] <= want && (last <==> bs + [b] == want)
  {
    var k, n := |bs|, |want| - 1;
    b, last := want[k], k == n;
    NextOfPrefix(bs, want);
    if !last {
      InnerBlock(input, p, out, cap, want[..n], want[n], bs, b, q, now);
    }
  }

  lemma NextOfPrefix<T>(a: seq<T>, b: seq<T>)
    requires a < b
    ensures b == b[..|b| - 1] + [b[|b| - 1]] && a + [b[|a|]] <= b
    ensures |a| == |b| - 1 ==> b[..|b| - 1] == a && a + [b[|a|]] == b
    ensures |a| != |b| - 1 ==> a + [b[|a|]] <= b[..|b| - 1] && a + [b[|a|]] != b
  {}

  // ---- a block put together from what was read at `p`, `q1 == p + 1` and `q == p + 3` ----

  predicate StartRead(input: seq<byte>, p: nat, q1: nat, q: nat, last: bool, t: nat) {
    && q1 == p + 1 && q == p + 3
    && Val(Window(input, p, 1)) == (if last then 1 else 0) && Val(Window(input, q1, 2)) == t
  }

  lemma StoredBlock(input: seq<byte>, p: nat, q1: nat, q: nat, last: bool, data: seq<byte>)
    requires StartRead(input, p, q1, q, last, 0) && StoredAt(input, q, data)
    ensures BlockAt(input, p, last, Stored(data)) && Stored(data).End(p) == StoredEnd(q, data)
  {}

  lemma FixedBlock(input: seq<byte>, p: nat, q1: nat, q: nat, last: bool, ts: seq<Token>, end: nat)
    requires StartRead(input, p, q1, q, last, 1) && TokensAt(input, q, FIXED_LENGTHS, FIXED_DISTANCES, ts, end)
    ensures BlockAt(input, p, last, Fixed(ts)) && Fixed(ts).End(p) == end
  {}

  lemma DynamicBlock(input: seq<byte>, p: nat, q1: nat, q: nat, mid: nat, last: bool, h: DynamicHeader, ts: seq<Token>,
                     end: nat)
    requires StartRead(input, p, q1, q, last, 2) && HeaderAt(input, q, h) && mid == q + h.Size()
    requires TokensAt(input, mid, h.LiteralLengths(), h.DistanceLengths(), ts, end)
    ensures BlockAt(input, p, last, Dynamic(h, ts)) && Dynamic(h, ts).End(p) == end
  {
    assert q == p + 3 && mid == p + 3 + h.Size();
    assert DynamicAt(input, q, h, ts, end);
  }

  /** What an acceptable block has at `q`. */
  ghost predicate ContentsGoal(input: seq<byte>, q: nat, mid: nat, end: nat, out: seq<byte>, cap: nat, b: Block) {
    match b
    case Stored(data) => StoredAt(input, q, data) && |out| + |data| <= cap
    case Fixed(ts) => BlockGoal(input, q, FIXED_LENGTHS, FIXED_DISTANCES, out, cap, ts, end)
    case Dynamic(h, ts) =>
      HeaderGoal(input, q, h) && mid == q + h.Size() && BlockGoal(input, mid, h.LiteralLengths(), h.DistanceLengths(),
                                                                  out, cap, ts, end)
  }

  lemma NextGoalStart(input: seq<byte>, p: nat, q1: nat, q: nat, out: seq<byte>, cap: nat, last: bool, b: Block)
    requires NextGoal(input, p, out, cap, last, b) && q1 == p + 1 && q == p + 3
    ensures StartRead(input, p, q1, q, last, b.Type())
  {
    BlockHeaderOf(input, p, last, b);
  }

  lemma BlockHeaderOf(input: seq<byte>, p: nat, last: bool, b: Block)
    requires BlockAt(input, p, last, b)
    ensures BlockHeaderAt(input, p, last, b)
  {}

  lemma NextGoalContents(input: seq<byte>, p: nat, q: nat, mid: nat, out: seq<byte>, cap: nat, last: bool, b: Block)
    requires NextGoal(input, p, out, cap, last, b) && q == p + 3
    requires b.Dynamic? ==> mid == p + 3 + b.header.Size()
    ensures ContentsGoal(input, q, mid, b.End(p), out, cap, b)
  {
    match b
    case Stored(_) =>
    case Fixed(_) =>
    case Dynamic(h, ts) =>
      DynamicGoal(input, p, q, mid, out, cap, last, h, ts, b.End(p));
  }

  lemma DynamicGoal(input: seq<byte>, p: nat, q: nat, mid: nat, out: seq<byte>, cap: nat, last: bool, h: DynamicHeader,
                    ts: seq<Token>, end: nat)
    requires Dynamic(h, ts).WellFormed() && q == p + 3 && mid == p + 3 + h.Size()
    requires end == Dynamic(h, ts).End(p) <= 8 * |input|
    requires BlockAt(input, p, last, Dynamic(h, ts)) && Lz77.Expandable(out, ts) && |Lz77.Expand(out, ts)| <= cap
    ensures HeaderGoal(input, q, h) && mid == q + h.Size()
    ensures BlockGoal(input, mid, h.LiteralLengths(), h.DistanceLengths(), out, cap, ts, end)
  {
    assert HeaderAt(input, q, h);
    assert TokensAt(input, mid, h.LiteralLengths(), h.DistanceLengths(), ts, end);
    TokensEnd(input, mid, h.LiteralLengths(), h.DistanceLengths(), ts, end);
  }

  lemma TokensEnd(input: seq<byte>, p: nat, ll: seq<nat>, dl: seq<nat>, ts: seq<Token>, end: nat)
    requires TokensAt(input, p, ll, dl, ts, end)
    ensures p <= end
  {}

  lemma NextGoalParts(input: seq<byte>, p: nat, q1: nat, q: nat, out: seq<byte>, cap: nat, last: bool, b: Block)
    returns (mid: nat, end: nat)
    requires NextGoal(input, p, out, cap, last, b) && q1 == p + 1 && q == p + 3
    ensures StartRead(input, p, q1, q, last, b.Type()) && ContentsGoal(input, q, mid, end, out, cap, b)
  {
    end := b.End(p);
    mid := if b.Dynamic? then p + 3 + b.header.Size() else 0;
    NextGoalStart(input, p, q1, q, out, cap, last, b);
    NextGoalContents(input, p, q, mid, out, cap, last, b);
  }

  // ---- the zlib header (section 2.2 of RFC 1950) ----

  /** Compression method 8, no preset dictionary, and a valid check. */
  predicate ZlibHeader(cmf: byte, flg: byte) {
    ((cmf as int) * 256 + (flg as int)) % 31 == 0 && !Bit(flg, 5) && cmf % 16 == 8
  }

  /** A zlib header, and something after it. */
  predicate ZlibHeaderAt(input: seq<byte>) {
    |input| >= 3 && ZlibHeader(input[0], input[1])
  }

  // ---- a stream can be read in one way only ----

  lemma RunsOfPrefixes(a: seq<LengthSymbol>, b: seq<LengthSymbol>)
    requires a <= b && RunsApply(b)
    ensures RunsApply(a) && |Runs(a)| <= |Runs(b)| && (|Runs(a)| == |Runs(b)| ==> a == b)
  {
    RunsPrefix(b, |a|);
    assert b[..|a|] == a;
  }

  lemma {:induction false} LengthsUniqueFrom(input: seq<byte>, p: nat, cl: seq<nat>, total: nat, ss: seq<LengthSymbol>,
                                             end: nat, us: seq<LengthSymbol>, end': nat, common: seq<LengthSymbol>,
                                             q: nat, lens: seq<nat>)
    requires IsLengths(cl) && Fits(cl)
    requires LengthsGoal(input, p, cl, total, ss, end) && LengthsGoal(input, p, cl, total, us, end')
    requires common <= ss && common <= us && LengthsProgress(input, p, cl, common, q, lens)
    ensures ss == us
    decreases |ss| - |common|
  {
    RunsOfPrefixes(common, ss);
    RunsOfPrefixes(common, us);
    if |lens| < total {
      var s := LengthsTowards(input, p, cl, total, ss, end, common, q, lens);
      var u := LengthsTowards(input, p, cl, total, us, end', common, q, lens);
      LengthSymbolUnique(input, q, cl, s, u);
      LengthsNext(input, p, cl, common, q, lens, s);
      LengthsUniqueFrom(input, p, cl, total, ss, end, us, end', common + [s], q + |SymbolBits(cl, s)|,
                        ApplyRun(lens, s));
    }
  }

  lemma HeaderUnique(input: seq<byte>, p: nat, h: DynamicHeader, g: DynamicHeader)
    requires HeaderGoal(input, p, h) && HeaderGoal(input, p, g)
    ensures h == g
  {
    var q := p + 14 + 3 * |h.sent|;
    HeaderGoalParts(input, p, g, h.hlit, h.hdist, h.sent, q);
    HeaderGoalParts(input, p, h, h.hlit, h.hdist, h.sent, q);
    FitsIffKraft(h.CodeLengthCode());
    LengthsStart(input, q, h.CodeLengthCode());
    LengthsUniqueFrom(input, q, h.CodeLengthCode(), h.hlit + h.hdist, h.symbols, p + h.Size(), g.symbols,
                      p + g.Size(), [], q, []);
  }

  lemma StoredUnique(input: seq<byte>, q: nat, d: seq<byte>, e: seq<byte>)
    requires StoredAt(input, q, d) && StoredAt(input, q, e)
    ensures d == e
  {}

  lemma FixedUnique(input: seq<byte>, q: nat, ts: seq<Token>, end: nat, us: seq<Token>, end': nat)
    requires TokensAt(input, q, FIXED_LENGTHS, FIXED_DISTANCES, ts, end)
    requires TokensAt(input, q, FIXED_LENGTHS, FIXED_DISTANCES, us, end')
    ensures ts == us
  {
    FixedCodesAccepted();
    AcceptedTokensUnique(input, q, FIXED_LENGTHS, FIXED_DISTANCES, ts, end, us, end');
  }

  lemma DynamicUnique(input: seq<byte>, q: nat, m: nat, h: DynamicHeader, ts: seq<Token>, end: nat,
                      m': nat, g: DynamicHeader, us: seq<Token>, end': nat)
    requires HeaderGoal(input, q, h) && HeaderGoal(input, q, g) && m == q + h.Size() && m' == q + g.Size()
    requires TokensAt(input, m, h.LiteralLengths(), h.DistanceLengths(), ts, end)
    requires TokensAt(input, m', g.LiteralLengths(), g.DistanceLengths(), us, end')
    ensures h == g && ts == us
  {
    HeaderUnique(input, q, h, g);
    assert m == m';
    AcceptedTokensUnique(input, m, h.LiteralLengths(), h.DistanceLengths(), ts, end, us, end');
  }

  lemma ContentsUnique(input: seq<byte>, q: nat, m: nat, end: nat, m': nat, end': nat, out: seq<byte>, cap: nat,
                       b: Block, c: Block)
    requires b.Type() == c.Type()
    requires ContentsGoal(input, q, m, end, out, cap, b) && ContentsGoal(input, q, m', end', out, cap, c)
    ensures b == c
  {
    match b
    case Stored(data) => StoredUnique(input, q, data, c.data);
    case Fixed(ts) => FixedUnique(input, q, ts, end, c.tokens, end');
    case Dynamic(h, ts) => DynamicUnique(input, q, m, h, ts, end, m', c.header, c.tokens, end');
  }

  lemma AcceptedTokensUnique(input: seq<byte>, p: nat, ll: seq<nat>, dl: seq<nat>, ts: seq<Token>, end: nat,
                             us: seq<Token>, end': nat)
    requires IsLengths(ll) && KraftSum(ll) <= 0x8000 && IsLengths(dl) && KraftSum(dl) <= 0x8000
    requires TokensAt(input, p, ll, dl, ts, end) && TokensAt(input, p, ll, dl, us, end')
    ensures ts == us && end == end'
  {
    FitsIffKraft(ll);
    FitsIffKraft(dl);
    TokensUnique(input, p, ll, dl, ts, end, us, end');
  }

  lemma NextUnique(input: seq<byte>, p: nat, out: seq<byte>, cap: nat, last: bool, b: Block, last': bool, c: Block)
    requires NextGoal(input, p, out, cap, last, b) && NextGoal(input, p, out, cap, last', c)
    ensures last == last' && b == c
  {
    NextUniqueAt(input, p, p + 1, p + 3, out, cap, last, b, last', c);
  }

  lemma NextUniqueAt(input: seq<byte>, p: nat, q1: nat, q: nat, out: seq<byte>, cap: nat, last: bool, b: Block,
                     last': bool, c: Block)
    requires q1 == p + 1 && q == p + 3
    requires NextGoal(input, p, out, cap, last, b) && NextGoal(input, p, out, cap, last', c)
    ensures last == last' && b == c
  {
    var m, e := NextGoalParts(input, p, q1, q, out, cap, last, b);
    var m', e' := NextGoalParts(input, p, q1, q, out, cap, last', c);
    ContentsUnique(input, q, m, e, m', e', out, cap, b, c);
  }

  lemma {:induction false} StreamUniqueFrom(input: seq<byte>, p: nat, out: seq<byte>, cap: nat, bs: seq<Block>,
                                            cs: seq<Block>, common: seq<Block>, q: nat, now: seq<byte>)
    requires StreamGoal(input, p, out, cap, bs) && StreamGoal(input, p, out, cap, cs)
    requires common < bs && common < cs && StreamProgress(input, p, out, common, q, now)
    ensures bs == cs
    decreases |bs| - |common|
  {
    var last, b := StreamTowards(input, p, out, cap, bs, common, q, now);
    var last', c := StreamTowards(input, p, out, cap, cs, common, q, now);
    NextUnique(input, q, now, cap, last, b, last', c);
    if !last {
      BlocksStep(input, p, out, common, last, b);
      StreamUniqueFrom(input, p, out, cap, bs, cs, common + [b], b.End(q), b.Expand(now));
    }
  }

  /** Two acceptable streams that stand at the same place are the same. */
  lemma StreamUnique(input: seq<byte>, p: nat, out: seq<byte>, cap: nat, bs: seq<Block>, cs: seq<Block>)
    requires StreamGoal(input, p, out, cap, bs) && StreamGoal(input, p, out, cap, cs)
    ensures bs == cs
  {
    StreamUniqueFrom(input, p, out, cap, bs, cs, [], p, out);
  }
}
