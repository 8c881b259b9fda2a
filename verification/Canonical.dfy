/** The canonical Huffman code of a list of code lengths (section 3.2.2 of RFC 1951). */
module Canonical {
  import opened Bits

  /** Code lengths by symbol; 0 means the symbol is unused. */
  predicate IsLengths(l: seq<nat>) {
    forall i :: 0 <= i < |l| ==> l[i] <= 15
  }

  /** How many symbols have length `s`. */
  function Count(l: seq<nat>, s: nat): (c: nat)
    ensures c <= |l|
  {
    if l == [] then 0 else Count(l[..|l| - 1], s) + (if l[|l| - 1] == s then 1 else 0)
  }

  /** The smallest code of length `s`. */
  function First(l: seq<nat>, s: nat): nat {
    if s <= 1 then 0 else 2 * (First(l, s - 1) + Count(l, s - 1))
  }

  /** One past the largest code of length `s`. */
  function End(l: seq<nat>, s: nat): nat {
    First(l, s) + Count(l, s)
  }

  /** How many used symbols have a length below `s`. */
  function FirstSymbol(l: seq<nat>, s: nat): nat {
    if s <= 1 then 0 else FirstSymbol(l, s - 1) + Count(l, s - 1)
  }

  /** How many symbols before `i` have the same length as `i`. */
  function Rank(l: seq<nat>, i: nat): nat
    requires i < |l|
  {
    Count(l[..i], l[i])
  }

  function Code(l: seq<nat>, i: nat): nat
    requires i < |l|
  {
    First(l, l[i]) + Rank(l, i)
  }

  /** The code of symbol `i` as it appears in a stream: most significant bit first. */
  function CodeBits(l: seq<nat>, i: nat): (b: seq<bool>)
    requires i < |l|
    ensures |b| == l[i]
  {
    ToMsbBits(Code(l, i), l[i])
  }

  /** The code of every length fits in that many bits: the lengths are not over-subscribed. */
  ghost predicate Fits(l: seq<nat>) {
    forall s :: 1 <= s <= 15 ==> End(l, s) <= Pow2(s)
  }

  // ---- counting ----

  lemma {:induction false} CountMonotone(l: seq<nat>, i: nat, j: nat, s: nat)
    requires i <= j <= |l|
    ensures Count(l[..i], s) <= Count(l[..j], s)
    decreases j
  {
    if i < j {
      assert l[..j][..j - 1] == l[..j - 1];
      CountMonotone(l, i, j - 1, s);
    }
  }

  lemma CountStep(l: seq<nat>, i: nat, s: nat)
    requires i < |l|
    ensures Count(l[..i + 1], s) == Count(l[..i], s) + (if l[i] == s then 1 else 0)
  {
    assert l[..i + 1][..i] == l[..i];
  }

  lemma RankBelowCount(l: seq<nat>, i: nat)
    requires i < |l|
    ensures Rank(l, i) < Count(l, l[i])
  {
    CountStep(l, i, l[i]);
    CountMonotone(l, i + 1, |l|, l[i]);
    assert l[..|l|] == l;
  }

  lemma RankInjective(l: seq<nat>, i: nat, j: nat)
    requires i < |l| && j < |l| && l[i] == l[j] && Rank(l, i) == Rank(l, j)
    ensures i == j
  {
    if i < j {
      CountStep(l, i, l[i]);
      CountMonotone(l, i + 1, j, l[i]);
    } else if j < i {
      CountStep(l, j, l[j]);
      CountMonotone(l, j + 1, i, l[j]);
    }
  }

  /** Every rank below the count is some symbol's. */
  lemma {:induction false} SymbolOfRank(l: seq<nat>, n: nat, s: nat, r: nat) returns (i: nat)
    requires n <= |l| && r < Count(l[..n], s)
    ensures i < n && l[i] == s && Rank(l, i) == r
    decreases n
  {
    assert l[..n][..n - 1] == l[..n - 1];
    if r < Count(l[..n - 1], s) {
      i := SymbolOfRank(l, n - 1, s, r);
    } else {
      i := n - 1;
    }
  }

  lemma {:induction false} FirstSymbolStep(l: seq<nat>, s: nat, t: nat)
    requires 1 <= s < t
    ensures FirstSymbol(l, s) + Count(l, s) <= FirstSymbol(l, t)
    decreases t
  {
    if s < t - 1 { FirstSymbolStep(l, s, t - 1); }
  }

  lemma {:induction false} FirstSymbolAppend(l: seq<nat>, x: nat, t: nat)
    ensures FirstSymbol(l + [x], t) == FirstSymbol(l, t) + (if 1 <= x < t then 1 else 0)
    decreases t
  {
    if t > 1 {
      FirstSymbolAppend(l, x, t - 1);
      assert (l + [x])[..|l|] == l;
    }
  }

  lemma {:induction false} FirstSymbolBound(l: seq<nat>, t: nat)
    ensures FirstSymbol(l, t) <= |l|
    decreases |l|
  {
    if l == [] {
      FirstSymbolOfEmpty(t);
    } else {
      var n := |l| - 1;
      FirstSymbolBound(l[..n], t);
      assert l == l[..n] + [l[n]];
      FirstSymbolAppend(l[..n], l[n], t);
    }
  }

  lemma {:induction false} FirstSymbolOfEmpty(t: nat)
    ensures FirstSymbol([], t) == 0
  {
    if t > 1 { FirstSymbolOfEmpty(t - 1); }
  }

  // ---- codes of different lengths ----

  /** Left-aligned, the codes of length `s` end where the longer ones start, or before. */
  lemma {:induction false} Tiling(l: seq<nat>, s: nat, t: nat)
    requires 1 <= s < t
    ensures End(l, s) * Pow2(t - s) <= First(l, t)
    ensures t == s + 1 ==> End(l, s) * Pow2(t - s) == First(l, t)
    decreases t
  {
    TwiceAsMuch(End(l, s), Pow2(t - 1 - s), Pow2(t - s));
    if s < t - 1 { Tiling(l, s, t - 1); }
  }

  lemma TwiceAsMuch(e: nat, p: nat, q: nat)
    requires q == 2 * p
    ensures e * q == 2 * (e * p)
  {}

  lemma CodeBounds(l: seq<nat>, i: nat)
    requires Fits(l) && i < |l| && 1 <= l[i] <= 15
    ensures First(l, l[i]) <= Code(l, i) < End(l, l[i]) <= Pow2(l[i])
  {
    RankBelowCount(l, i);
  }

  /** A code starts a bit string exactly when its value is that of the leading bits. */
  lemma CodeStarts(l: seq<nat>, i: nat, w: seq<bool>)
    requires Fits(l) && i < |l| && 1 <= l[i] <= 15 && l[i] <= |w|
    ensures CodeBits(l, i) <= w <==> MsbVal(w[..l[i]]) == Code(l, i)
  {
    var s := l[i];
    CodeBounds(l, i);
    MsbValOfToMsbBits(Code(l, i), s);
    ToMsbBitsOfMsbVal(w[..s]);
    assert CodeBits(l, i) <= w <==> CodeBits(l, i) == w[..s];
  }

  /** No code is a prefix of another symbol's code: a bit string starts with at most one. */
  lemma PrefixFree(l: seq<nat>, i: nat, j: nat, w: seq<bool>)
    requires Fits(l) && IsLengths(l)
    requires i < |l| && 1 <= l[i] && CodeBits(l, i) <= w
    requires j < |l| && 1 <= l[j] && CodeBits(l, j) <= w
    ensures i == j
  {
    if l[i] <= l[j] { PrefixFreeOrdered(l, i, j, w); } else { PrefixFreeOrdered(l, j, i, w); }
  }

  lemma PrefixFreeOrdered(l: seq<nat>, i: nat, j: nat, w: seq<bool>)
    requires Fits(l) && IsLengths(l)
    requires i < |l| && j < |l| && 1 <= l[i] <= l[j]
    requires CodeBits(l, i) <= w && CodeBits(l, j) <= w
    ensures i == j
  {
    var s, t := l[i], l[j];
    CodeStarts(l, i, w);
    CodeStarts(l, j, w);
    if s == t {
      RankInjective(l, i, j);
    } else {
      MsbValPrefix(w[..t], s);
      assert w[..t][..s] == w[..s];
      Tiling(l, s, t);
      CodeBounds(l, i);
      CodeBounds(l, j);
      // the leading s bits of code j are at least End(s), while they are code i
      DivAtLeast(Code(l, j), Pow2(t - s), End(l, s));
    }
  }

  // ---- reading a code off a window of bits ----

  /** In windows of `n` bits the codes of length `t` start where those of length `t - 1` end. */
  lemma EndIsNextFirst(l: seq<nat>, t: nat, n: nat)
    requires 2 <= t <= n
    ensures End(l, t - 1) * Pow2(n - (t - 1)) == First(l, t) * Pow2(n - t)
  {
    var e, p := End(l, t - 1), Pow2(n - t);
    assert e * (2 * p) == 2 * e * p;
  }

  lemma {:induction false} EndMonotone(l: seq<nat>, s: nat, t: nat, n: nat)
    requires 1 <= s <= t <= n
    ensures End(l, s) * Pow2(n - s) <= End(l, t) * Pow2(n - t)
    decreases t
  {
    if s < t {
      EndMonotone(l, s, t - 1, n);
      EndIsNextFirst(l, t, n);
      MulMonotone(First(l, t), End(l, t), Pow2(n - t));
    }
  }

  /** Below the end of length `t` a window starts with the code of some symbol no longer than `t`. */
  lemma {:induction false} Covered(l: seq<nat>, w: seq<bool>, t: nat) returns (i: nat)
    requires Fits(l) && 1 <= t <= 15 && t <= |w|
    requires MsbVal(w) < End(l, t) * Pow2(|w| - t)
    ensures i < |l| && 1 <= l[i] <= t && CodeBits(l, i) <= w
    decreases t
  {
    if MsbVal(w) < First(l, t) * Pow2(|w| - t) {
      if t == 1 { assert false; }
      EndIsNextFirst(l, t, |w|);
      i := Covered(l, w, t - 1);
    } else {
      i := SymbolOfWindow(l, w, t);
    }
  }

  /** The symbol of length `t` whose code starts a window that lies between the bounds of length `t`. */
  lemma SymbolOfWindow(l: seq<nat>, w: seq<bool>, t: nat) returns (i: nat)
    requires Fits(l) && 1 <= t <= 15 && t <= |w|
    requires First(l, t) * Pow2(|w| - t) <= MsbVal(w) < End(l, t) * Pow2(|w| - t)
    ensures First(l, t) <= Shr(MsbVal(w), |w| - t)
    ensures i < |l| && l[i] == t && CodeBits(l, i) <= w
    ensures Code(l, i) == Shr(MsbVal(w), |w| - t)
  {
    DivAtLeast(MsbVal(w), Pow2(|w| - t), First(l, t));
    DivAtLeast(MsbVal(w), Pow2(|w| - t), End(l, t));
    assert l[..|l|] == l;
    i := SymbolOfRank(l, |l|, t, Shr(MsbVal(w), |w| - t) - First(l, t));
    CodeStarts(l, i, w);
    MsbValPrefix(w, t);
  }

  lemma LeadingBelow(l: seq<nat>, w: seq<bool>, i: nat, s: nat)
    requires Fits(l) && i < |l| && s == l[i] && 1 <= s <= 15 && s <= |w| && CodeBits(l, i) <= w
    ensures MsbVal(w) < End(l, s) * Pow2(|w| - s)
  {
    CodeStarts(l, i, w);
    CodeBounds(l, i);
    MsbValPrefix(w, s);
    QuotientBelow(MsbVal(w), Pow2(|w| - s), Code(l, i), End(l, s));
  }

  lemma QuotientBelow(v: nat, d: nat, q: nat, e: nat)
    requires d > 0 && v / d == q < e
    ensures v < e * d
  {
    DivAtLeast(v, d, e);
  }

  lemma MatchIsCoveredBy(l: seq<nat>, w: seq<bool>, i: nat, s: nat, t: nat, n: nat)
    requires Fits(l) && i < |l| && s == l[i] && n == |w| && 1 <= s <= t <= 15 && t <= n && CodeBits(l, i) <= w
    ensures MsbVal(w) < End(l, t) * Pow2(n - t)
  {
    var d: nat := End(l, s) * Pow2(n - s);
    assert MsbVal(w) < d by { LeadingBelow(l, w, i, s); }
    assert d <= End(l, t) * Pow2(n - t) by { EndMonotone(l, s, t, n); }
  }

  /** A window that starts with the code of a symbol no longer than `t` is below the end of length `t`. */
  lemma MatchIsCovered(l: seq<nat>, w: seq<bool>, i: nat, t: nat)
    requires Fits(l) && i < |l| && 1 <= l[i] <= t <= 15 && t <= |w| && CodeBits(l, i) <= w
    ensures MsbVal(w) < End(l, t) * Pow2(|w| - t)
  {
    MatchIsCoveredBy(l, w, i, l[i], t, |w|);
  }

  // ---- the Kraft inequality ----

  /** The share of the code space each used symbol takes, in units of 2^-15. */
  function KraftSum(l: seq<nat>): nat
    requires IsLengths(l)
  {
    if l == [] then 0
    else var x := l[|l| - 1]; KraftSum(l[..|l| - 1]) + (if x == 0 then 0 else Pow2(15 - x))
  }

  /** The same sum, gathered by length. */
  function KraftByLength(l: seq<nat>, s: nat): nat
    requires s <= 15
  {
    if s == 0 then 0 else KraftByLength(l, s - 1) + Count(l, s) * Pow2(15 - s)
  }

  lemma {:induction false} KraftByLengthIsEnd(l: seq<nat>, s: nat)
    requires 1 <= s <= 15
    ensures KraftByLength(l, s) == End(l, s) * Pow2(15 - s)
    decreases s
  {
    if s == 1 {
      assert KraftByLength(l, 0) == 0;
    } else {
      KraftByLengthIsEnd(l, s - 1);
      var p := Pow2(15 - s);
      assert Pow2(15 - (s - 1)) == 2 * p;
      MulAssociate(2, End(l, s - 1), p);
      TwiceAsMuch(End(l, s - 1), p, 2 * p);
      MulDistribute(First(l, s), Count(l, s), p);
    }
  }

  lemma {:induction false} KraftByLengthAppend(l: seq<nat>, x: nat, s: nat)
    requires s <= 15 && x <= 15
    ensures KraftByLength(l + [x], s) == KraftByLength(l, s) + (if 1 <= x <= s then Pow2(15 - x) else 0)
    decreases s
  {
    if s > 0 {
      KraftByLengthAppend(l, x, s - 1);
      assert (l + [x])[..|l|] == l;
      var p := Pow2(15 - s);
      assert (Count(l, s) + 1) * p == Count(l, s) * p + p;
    }
  }

  lemma {:induction false} KraftByLengthOfEmpty(s: nat)
    requires s <= 15
    ensures KraftByLength([], s) == 0
  {
    if s > 0 { KraftByLengthOfEmpty(s - 1); }
  }

  lemma {:induction false} KraftSumByLength(l: seq<nat>, m: nat)
    requires IsLengths(l) && m == 15
    ensures KraftSum(l) == KraftByLength(l, m)
    decreases |l|
  {
    if l == [] {
      KraftByLengthOfEmpty(m);
    } else {
      var n := |l| - 1;
      KraftSumByLength(l[..n], m);
      assert l == l[..n] + [l[n]];
      KraftByLengthAppend(l[..n], l[n], m);
    }
  }

  lemma {:induction false} KraftByLengthMonotone(l: seq<nat>, s: nat, t: nat)
    requires s <= t <= 15
    ensures KraftByLength(l, s) <= KraftByLength(l, t)
    decreases t
  {
    if s < t {
      KraftByLengthMonotone(l, s, t - 1);
      MulMonotone(0, Count(l, t), Pow2(15 - t));
    }
  }

  /** The code fits at every length exactly when the lengths meet the Kraft inequality. */
  lemma FitsIffKraft(l: seq<nat>)
    requires IsLengths(l)
    ensures Fits(l) <==> KraftSum(l) <= 0x8000
  {
    var m := 15;
    Pow2Value(m);
    KraftSumByLength(l, m);
    KraftByLengthIsEnd(l, m);
    assert Pow2(0) == 1;
    assert KraftSum(l) == End(l, m);
    if KraftSum(l) <= 0x8000 {
      forall s | 1 <= s <= 15 ensures End(l, s) <= Pow2(s) {
        KraftByLengthIsEnd(l, s);
        KraftByLengthMonotone(l, s, m);
        Pow2Add(s, 15 - s);
        MulCancel(End(l, s), Pow2(s), Pow2(15 - s));
      }
    }
  }
}
