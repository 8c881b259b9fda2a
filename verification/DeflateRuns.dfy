/** The run-length coding of code lengths (section 3.2.7 of RFC 1951) in plain numbers, and an encoder for any list. */
module DeflateRuns {
  import opened Bits
  import opened Canonical
  import opened DeflateBlocks

  // ---- what the symbols stand for ----

  /** `n` more of the same. */
  predicate Extended(before: seq<nat>, after: seq<nat>, v: nat, n: nat) {
    |after| == |before| + n && after[..|before|] == before && forall i :: |before| <= i < |after| ==> after[i] == v
  }

  /** Symbols 0 to 15 are one length; 16 repeats the last one 3 to 6 times, after two extra bits; 17 is 3 to 10 zeros,
      after three; 18 is 11 to 138 zeros, after seven. */
  lemma SymbolsStandFor(lens: seq<nat>, s: LengthSymbol, n: nat)
    requires RunApplies(lens, s)
    ensures s.Symbol() <= 15 && s.ExtraBits() == 0 && n == 1 ==> Extended(lens, ApplyRun(lens, s), s.Symbol(), n)
    ensures s.Symbol() == 16 && s.ExtraBits() == 2 && 0 <= s.Extra() == n - 3 ==>
              3 <= n <= 6 && lens != [] && Extended(lens, ApplyRun(lens, s), lens[|lens| - 1], n)
    ensures s.Symbol() == 17 && s.ExtraBits() == 3 && 0 <= s.Extra() == n - 3 ==>
              3 <= n <= 10 && Extended(lens, ApplyRun(lens, s), 0, n)
    ensures s.Symbol() == 18 && s.ExtraBits() == 7 && 0 <= s.Extra() == n - 11 ==>
              11 <= n <= 138 && Extended(lens, ApplyRun(lens, s), 0, n)
    ensures (s.Symbol() <= 15 && s.ExtraBits() == 0) || (s.Symbol() == 16 && s.ExtraBits() == 2)
            || (s.Symbol() == 17 && s.ExtraBits() == 3) || (s.Symbol() == 18 && s.ExtraBits() == 7)
  {}

  /** And every such run has its symbol. */
  lemma RunsHaveSymbols(lens: seq<nat>, n: nat)
    ensures 3 <= n <= 10 ==> RunApplies(lens, Zeros(n - 3)) && Extended(lens, ApplyRun(lens, Zeros(n - 3)), 0, n)
    ensures 11 <= n <= 138 ==>
              RunApplies(lens, LongZeros(n - 11)) && Extended(lens, ApplyRun(lens, LongZeros(n - 11)), 0, n)
    ensures 3 <= n <= 6 && lens != [] ==>
              RunApplies(lens, Repeat(n - 3)) && Extended(lens, ApplyRun(lens, Repeat(n - 3)), lens[|lens| - 1], n)
  {}

  // ---- an encoder ----

  /** Copies of one symbol. */
  function Copies(s: LengthSymbol, n: nat): (ss: seq<LengthSymbol>)
    ensures |ss| == n
  {
    if n == 0 then [] else Copies(s, n - 1) + [s]
  }

  /** `n` zeros. */
  function EncodeZeros(n: nat): seq<LengthSymbol> {
    if n < 3 then Copies(Len(0), n)
    else if n <= 10 then [Zeros(n - 3)]
    else if n <= 138 then [LongZeros(n - 11)]
    else [LongZeros(127)] + EncodeZeros(n - 138)
  }

  /** `n` more of a length that was just sent. */
  function EncodeMore(v: nat, n: nat): seq<LengthSymbol> {
    if n < 3 then Copies(Len(v), n) else if n <= 6 then [Repeat(n - 3)] else [Repeat(3)] + EncodeMore(v, n - 6)
  }

  /** A run of one length. */
  function EncodeRun(v: nat, n: nat): seq<LengthSymbol>
    requires n > 0
  {
    if v == 0 then EncodeZeros(n) else [Len(v)] + EncodeMore(v, n - 1)
  }

  /** How many equal lengths a list starts with. */
  function FirstRun(lens: seq<nat>): (n: nat)
    requires lens != []
    ensures 1 <= n <= |lens| && forall i :: 0 <= i < n ==> lens[i] == lens[0]
  {
    if |lens| > 1 && lens[1] == lens[0] then 1 + FirstRun(lens[1..]) else 1
  }

  function Encode(lens: seq<nat>): seq<LengthSymbol>
    decreases |lens|
  {
    if lens == [] then [] else EncodeRun(lens[0], FirstRun(lens)) + Encode(lens[FirstRun(lens)..])
  }

  // ---- and back ----

  /** Behind the symbols `ss`, the symbols `more` add `lens`. */
  ghost predicate Adds(ss: seq<LengthSymbol>, more: seq<LengthSymbol>, lens: seq<nat>) {
    RunsApply(ss) && RunsApply(ss + more) && Runs(ss + more) == Runs(ss) + lens
  }

  lemma AddsThen(ss: seq<LengthSymbol>, a: seq<LengthSymbol>, b: seq<LengthSymbol>, x: seq<nat>, y: seq<nat>)
    requires Adds(ss, a, x) && Adds(ss + a, b, y)
    ensures Adds(ss, a + b, x + y)
  {
    assert ss + (a + b) == ss + a + b;
    assert Runs(ss) + x + y == Runs(ss) + (x + y);
  }

  lemma AddsNothing(ss: seq<LengthSymbol>)
    requires RunsApply(ss)
    ensures Adds(ss, [], [])
  {
    assert ss + [] == ss;
  }

  /** One symbol, in terms of what it stands for. */
  lemma AddsOne(ss: seq<LengthSymbol>, s: LengthSymbol, v: nat, n: nat)
    requires RunsApply(ss) && RunApplies(Runs(ss), s) && Extended(Runs(ss), ApplyRun(Runs(ss), s), v, n)
    ensures Adds(ss, [s], Constant(v, n))
  {
    RunsStep(ss, s);
    assert ApplyRun(Runs(ss), s) == Runs(ss) + Constant(v, n);
  }

  lemma ConstantParts(v: nat, m: nat, n: nat)
    ensures Constant(v, m) + Constant(v, n) == Constant(v, m + n)
  {}

  lemma {:induction false} CopiesAdd(ss: seq<LengthSymbol>, v: nat, n: nat)
    requires RunsApply(ss) && v < 16
    ensures Adds(ss, Copies(Len(v), n), Constant(v, n))
    decreases n
  {
    if n == 0 {
      AddsNothing(ss);
      assert Constant(v, 0) == [];
    } else {
      CopiesAdd(ss, v, n - 1);
      AddsOne(ss + Copies(Len(v), n - 1), Len(v), v, 1);
      AddsThen(ss, Copies(Len(v), n - 1), [Len(v)], Constant(v, n - 1), Constant(v, 1));
      ConstantParts(v, n - 1, 1);
    }
  }

  lemma {:induction false} ZerosAdd(ss: seq<LengthSymbol>, n: nat)
    requires RunsApply(ss)
    ensures Adds(ss, EncodeZeros(n), Constant(0, n))
    decreases n
  {
    RunsHaveSymbols(Runs(ss), n);
    if n < 3 {
      CopiesAdd(ss, 0, n);
    } else if n <= 10 {
      AddsOne(ss, Zeros(n - 3), 0, n);
    } else if n <= 138 {
      AddsOne(ss, LongZeros(n - 11), 0, n);
    } else {
      var m := 138;
      RunsHaveSymbols(Runs(ss), m);
      AddsOne(ss, LongZeros(127), 0, m);
      ZerosAdd(ss + [LongZeros(127)], n - m);
      AddsThen(ss, [LongZeros(127)], EncodeZeros(n - m), Constant(0, m), Constant(0, n - m));
      ConstantParts(0, m, n - m);
    }
  }

  lemma {:induction false} MoreAdd(ss: seq<LengthSymbol>, v: nat, n: nat)
    requires RunsApply(ss) && v < 16 && Runs(ss) != [] && Runs(ss)[|Runs(ss)| - 1] == v
    ensures Adds(ss, EncodeMore(v, n), Constant(v, n))
    decreases n
  {
    RunsHaveSymbols(Runs(ss), n);
    if n < 3 {
      CopiesAdd(ss, v, n);
    } else if n <= 6 {
      AddsOne(ss, Repeat(n - 3), v, n);
    } else {
      var m := 6;
      RunsHaveSymbols(Runs(ss), m);
      AddsOne(ss, Repeat(3), v, m);
      MoreAdd(ss + [Repeat(3)], v, n - m);
      AddsThen(ss, [Repeat(3)], EncodeMore(v, n - m), Constant(v, m), Constant(v, n - m));
      ConstantParts(v, m, n - m);
    }
  }

  lemma RunAdds(ss: seq<LengthSymbol>, v: nat, n: nat)
    requires RunsApply(ss) && v < 16 && n > 0
    ensures Adds(ss, EncodeRun(v, n), Constant(v, n))
  {
    if v == 0 {
      ZerosAdd(ss, n);
    } else {
      AddsOne(ss, Len(v), v, 1);
      MoreAdd(ss + [Len(v)], v, n - 1);
      AddsThen(ss, [Len(v)], EncodeMore(v, n - 1), Constant(v, 1), Constant(v, n - 1));
      ConstantParts(v, 1, n - 1);
    }
  }

  lemma {:induction false} EncodeAdds(ss: seq<LengthSymbol>, lens: seq<nat>)
    requires RunsApply(ss) && IsLengths(lens)
    ensures Adds(ss, Encode(lens), lens)
    decreases |lens|
  {
    if lens == [] {
      AddsNothing(ss);
    } else {
      var n := FirstRun(lens);
      RunAdds(ss, lens[0], n);
      EncodeAdds(ss + EncodeRun(lens[0], n), lens[n..]);
      AddsThen(ss, EncodeRun(lens[0], n), Encode(lens[n..]), Constant(lens[0], n), lens[n..]);
      assert Constant(lens[0], n) + lens[n..] == lens;
    }
  }

  /** Every list of code lengths can be coded with runs, and is read back. */
  lemma RunsOfEncode(lens: seq<nat>)
    requires IsLengths(lens)
    ensures RunsApply(Encode(lens)) && Runs(Encode(lens)) == lens
  {
    EncodeAdds([], lens);
    assert [] + Encode(lens) == Encode(lens) && Runs([]) + lens == lens;
  }
}
