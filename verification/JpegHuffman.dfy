/** JPEG's Huffman tables (Annex C of ITU-T T.81): symbols in order of their code lengths, a table for codes of up
    to nine bits and a search for the longer ones. */
module JpegHuffman {
  import opened Bits

  const FAST_BITS: nat := 9
  const FAST_SIZE: nat := 512
  const WINDOW: nat := 0x1_0000

  // ---- the code ----

  /** The code lengths of the symbols, in the order of the symbols' numbers: ascending, from 1 to 16. */
  predicate IsSizes(s: seq<nat>) {
    (forall i :: 0 <= i < |s| ==> 1 <= s[i] <= 16) && forall i, j :: 0 <= i < j < |s| ==> s[i] <= s[j]
  }

  /** Where the codes of symbol `k` start among the 16-bit words: each symbol takes up the words that its code
      starts, right behind the symbol before. */
  function Start(s: seq<nat>, k: nat): nat
    requires IsSizes(s) && k <= |s|
  {
    if k == 0 then 0 else Start(s, k - 1) + Pow2(16 - s[k - 1])
  }

  predicate Accepted(s: seq<nat>) {
    IsSizes(s) && |s| <= 256 && Start(s, |s|) <= WINDOW
  }

  /** Symbol `k`'s code starts the word. */
  predicate Matches(s: seq<nat>, k: nat, w: nat)
    requires IsSizes(s)
  {
    k < |s| && Start(s, k) <= w < Start(s, k + 1)
  }

  /** How many symbols have codes shorter than `j`. */
  function Below(s: seq<nat>, j: nat): (n: nat)
    ensures n <= |s|
  {
    if s == [] || s[|s| - 1] < j then |s| else Below(s[..|s| - 1], j)
  }

  lemma {:induction false} BelowSplits(s: seq<nat>, j: nat, k: nat)
    requires IsSizes(s) && k < |s|
    ensures k < Below(s, j) <==> s[k] < j
    decreases |s|
  {
    if s[|s| - 1] >= j && k < |s| - 1 { BelowSplits(s[..|s| - 1], j, k); }
  }

  lemma {:induction false} StartMonotone(s: seq<nat>, i: nat, k: nat)
    requires IsSizes(s) && i <= k <= |s|
    ensures Start(s, i) <= Start(s, k) && (i < k ==> Start(s, i) < Start(s, k))
    decreases k
  {
    if i < k { StartMonotone(s, i, k - 1); }
  }

  /** No code starts another: a word has at most one match. */
  lemma MatchUnique(s: seq<nat>, i: nat, k: nat, w: nat)
    requires IsSizes(s) && Matches(s, i, w) && Matches(s, k, w)
    ensures i == k
  {
    if i < k { StartMonotone(s, i + 1, k); }
    if k < i { StartMonotone(s, k + 1, i); }
  }

  /** And below the end of the last code it has one. */
  lemma {:induction false} MatchExists(s: seq<nat>, n: nat, w: nat) returns (k: nat)
    requires IsSizes(s) && n <= |s| && w < Start(s, n)
    ensures k < n && Matches(s, k, w)
    decreases n
  {
    if w >= Start(s, n - 1) { k := n - 1; } else { k := MatchExists(s, n - 1, w); }
  }

  lemma NoMatch(s: seq<nat>, w: nat)
    requires IsSizes(s) && Start(s, |s|) <= w
    ensures forall k: nat :: !Matches(s, k, w)
  {
    forall k: nat | k < |s| ensures !Matches(s, k, w) { StartMonotone(s, k + 1, |s|); }
  }

  /** The code of a symbol, as a number of `s[k]` bits. */
  function Code(s: seq<nat>, k: nat): nat
    requires IsSizes(s) && k < |s|
  {
    QuotientNonNegative(Start(s, k), Pow2(16 - s[k]));
    Start(s, k) / Pow2(16 - s[k])
  }

  /** Up to size `j` codes are whole multiples of what codes of that size take up. */
  lemma {:induction false} StartAligned(s: seq<nat>, k: nat, j: nat) returns (q: nat)
    requires IsSizes(s) && k <= |s| && 1 <= j <= 16 && (k > 0 ==> s[k - 1] <= j)
    ensures Start(s, k) == q * Pow2(16 - j)
    decreases k
  {
    if k == 0 {
      q := 0;
    } else {
      var p := StartAligned(s, k - 1, j);
      var e := j - s[k - 1];
      Pow2Add(e, 16 - j);
      MulDistribute(p, Pow2(e), Pow2(16 - j));
      q := p + Pow2(e);
    }
  }

  lemma CodeIs(s: seq<nat>, k: nat)
    requires IsSizes(s) && k < |s|
    ensures Start(s, k) == Code(s, k) * Pow2(16 - s[k]) && Start(s, k + 1) == (Code(s, k) + 1) * Pow2(16 - s[k])
  {
    var q := StartAligned(s, k, s[k]);
    QuotientUnique(Start(s, k), Pow2(16 - s[k]), q, 0);
    MulDistribute(q, 1, Pow2(16 - s[k]));
  }

  /** Symbols of one size have consecutive codes, and the code of the symbol matched is the word's leading bits. */
  lemma MatchIsLeading(s: seq<nat>, k: nat, w: nat)
    requires IsSizes(s) && k < |s|
    ensures Matches(s, k, w) <==> w / Pow2(16 - s[k]) == Code(s, k)
  {
    CodeIs(s, k);
    DivAtLeast(w, Pow2(16 - s[k]), Code(s, k));
    DivAtLeast(w, Pow2(16 - s[k]), Code(s, k) + 1);
  }

  /** For codes of up to nine bits the first nine bits of a word decide. */
  lemma NineBitsDecide(s: seq<nat>, k: nat, w: nat, c: nat)
    requires IsSizes(s) && k < |s| && s[k] <= FAST_BITS && c == w / 128
    ensures Matches(s, k, w) <==> Matches(s, k, 128 * c)
  {
    CodeIs(s, k);
    Pow2Add(FAST_BITS - s[k], 7);
    Pow2Value(7);
    MulAssociate(Code(s, k), Pow2(FAST_BITS - s[k]), 128);
    MulAssociate(Code(s, k) + 1, Pow2(FAST_BITS - s[k]), 128);
  }

  /** Where the search for longer codes stops, and what it finds there. */
  lemma SearchStops(s: seq<nat>, k: nat, w: nat, j: nat)
    requires IsSizes(s) && Matches(s, k, w) && 1 <= j <= 16
    ensures w < Start(s, Below(s, j + 1)) <==> s[k] <= j
  {
    BelowSplits(s, j + 1, k);
    if s[k] <= j { StartMonotone(s, k + 1, Below(s, j + 1)); } else { StartMonotone(s, Below(s, j + 1), k); }
  }

  lemma SearchPasses(s: seq<nat>, w: nat, j: nat)
    requires IsSizes(s) && Start(s, |s|) <= w && 1 <= j <= 16
    ensures Start(s, Below(s, j + 1)) <= w
  {
    StartMonotone(s, Below(s, j + 1), |s|);
  }

  /** The leading bits of a word and the offset of their length give the symbol's number. */
  lemma NumberFound(s: seq<nat>, k: nat, w: nat)
    requires IsSizes(s) && Matches(s, k, w)
    ensures w / Pow2(16 - s[k]) + (Below(s, s[k]) - Start(s, Below(s, s[k])) / Pow2(16 - s[k])) == k
  {
    var j, i := s[k], Below(s, s[k]);
    BelowSplits(s, j, k);
    BelowSplits(s, j, i);
    assert s[i] <= s[k];
    MatchIsLeading(s, k, w);
    CodesConsecutive(s, i, k);
  }

  lemma {:induction false} CodesConsecutive(s: seq<nat>, i: nat, k: nat)
    requires IsSizes(s) && i <= k < |s| && s[i] == s[k]
    ensures Code(s, k) == Code(s, i) + (k - i)
    decreases k
  {
    if i < k {
      assert s[i] <= s[k - 1] <= s[k];
      CodesConsecutive(s, i, k - 1);
      CodeIs(s, k - 1);
      QuotientUnique(Start(s, k), Pow2(16 - s[k]), Code(s, k - 1) + 1, 0);
    }
  }

  // ---- building the tables ----

  /** The lengths that the counts of codes by length stand for. */
  function SizesOf(count: seq<nat>, n: nat): (s: seq<nat>)
    requires n <= |count|
    ensures forall i :: 0 <= i < |s| ==> 1 <= s[i] <= n
    ensures forall i, j :: 0 <= i < j < |s| ==> s[i] <= s[j]
  {
    if n == 0 then [] else SizesOf(count, n - 1) + Constant(n, count[n - 1])
  }

  lemma {:induction false} SizesGrow(count: seq<nat>, m: nat, n: nat)
    requires m <= n <= |count|
    ensures |SizesOf(count, m)| <= |SizesOf(count, n)|
    decreases n
  {
    if m < n { SizesGrow(count, m, n - 1); }
  }

  class Huffman {
    const fast: array<nat>
    const code: array<nat>
    const size: array<nat>
    const maxcode: array<nat>
    const delta: array<int>
    /** The symbols, which are read after the tables are built. */
    const values: array<byte>

    ghost predicate Shape() {
      && fast.Length == FAST_SIZE && code.Length == 256 && size.Length == 257 && maxcode.Length == 18
      && delta.Length == 17 && values.Length == 256
      && fast != code && fast != size && fast != maxcode && code != size && code != maxcode && size != maxcode
    }

    constructor ()
      ensures Shape() && fresh(fast) && fresh(code) && fresh(size) && fresh(maxcode) && fresh(delta) && fresh(values)
    {
      fast := new nat[FAST_SIZE];
      code := new nat[256];
      size := new nat[257];
      maxcode := new nat[18];
      delta := new int[17];
      values := new byte[256];
    }

    // ---- what the tables say ----

    ghost predicate SizeTable(s: seq<nat>)
      requires Shape() && |s| <= 256
      reads size
    {
      size[..|s|] == s && size[|s|] == 0
    }

    ghost predicate CodeTable(s: seq<nat>, n: nat)
      requires Shape() && IsSizes(s) && n <= |s| <= 256
      reads code
    {
      forall k :: 0 <= k < n ==> code[k] == Code(s, k)
    }

    /** For each length below `n`, where the words of longer codes start, and what turns a code of that
        length into its symbol's number. */
    ghost predicate LengthTables(s: seq<nat>, n: nat)
      requires Shape() && IsSizes(s) && n <= 17
      reads maxcode, delta
    {
      forall j :: 1 <= j < n ==> maxcode[j] == Start(s, Below(s, j + 1)) && delta[j] == DeltaOf(s, j)
    }

    static ghost function DeltaOf(s: seq<nat>, j: nat): int
      requires IsSizes(s) && 1 <= j <= 16
    {
      Below(s, j) - Start(s, Below(s, j)) / Pow2(16 - j)
    }

    ghost predicate FastTable(s: seq<nat>, n: nat)
      requires Shape() && IsSizes(s) && n <= |s|
      reads fast
    {
      FastRight(fast[..], s, n)
    }

    /** An index of the fast table has the symbol whose code, of up to nine bits, starts it, or 255. */
    static ghost predicate FastRight(f: seq<nat>, s: seq<nat>, n: nat)
      requires |f| == FAST_SIZE && IsSizes(s) && n <= |s|
    {
      && (forall c: nat :: c < FAST_SIZE && f[c] != 255 ==>
            f[c] < n && s[f[c]] <= FAST_BITS && Matches(s, f[c], 128 * c))
      && (forall c: nat, i: nat :: c < FAST_SIZE && i < n && s[i] <= FAST_BITS && Matches(s, i, 128 * c) ==>
            f[c] == i)
    }

    /** The tables decode the code with these lengths. */
    ghost predicate Describes(s: seq<nat>)
      reads fast, size, maxcode, delta
    {
      && Shape() && Accepted(s) && SizeTable(s) && LengthTables(s, 17) && maxcode[17] == 0xFFFF_FFFF
      && FastTable(s, |s|)
    }

    /** Builds the tables; accepts exactly up to 256 symbols whose codes fit. */
    method Build(count: seq<nat>) returns (ok: bool)
      requires Shape() && |count| == 16
      modifies fast, code, size, maxcode, delta
      ensures ok <==> Accepted(SizesOf(count, 16))
      ensures ok ==> Describes(SizesOf(count, 16))
    {
      ghost var s := SizesOf(count, 16);
      var k;
      ok, k := ListSizes(count);
      if !ok { return; }
      ok := AssignCodes(s);
      if !ok { return; }
      maxcode[17] := 0xFFFF_FFFF;
      EnterFast(s, k);
    }

    /** The list of lengths, with a zero behind it. */
    method ListSizes(count: seq<nat>) returns (ok: bool, k: nat)
      requires Shape() && |count| == 16
      modifies size
      ensures ok <==> |SizesOf(count, 16)| <= 256
      ensures ok ==> k == |SizesOf(count, 16)| && SizeTable(SizesOf(count, 16))
    {
      k := 0;
      for i := 0 to 16
        invariant k <= 256 && size[..k] == SizesOf(count, i)
      {
        ok, k := ListSize(count, i, k);
        if !ok {
          SizesGrow(count, i + 1, 16);
          return;
        }
      }
      size[k] := 0;
      ok := true;
    }

    method ListSize(count: seq<nat>, i: nat, k0: nat) returns (ok: bool, k: nat)
      requires Shape() && |count| == 16 && i < 16 && k0 <= 256 && size[..k0] == SizesOf(count, i)
      modifies size
      ensures ok <==> |SizesOf(count, i + 1)| <= 256
      ensures ok ==> k <= 256 && size[..k] == SizesOf(count, i + 1)
    {
      k := k0;
      for j := 0 to count[i]
        invariant k == k0 + j <= 256 && size[..k] == SizesOf(count, i) + Constant(i + 1, j)
      {
        size[k] := i + 1;
        k := k + 1;
        if k >= 257 { return false, k; }
        assert Constant(i + 1, j + 1) == Constant(i + 1, j) + [i + 1];
      }
      ok := true;
    }

    /** The codes, length by length. */
    method AssignCodes(ghost s: seq<nat>) returns (ok: bool)
      requires Shape() && IsSizes(s) && |s| <= 256 && SizeTable(s)
      modifies code, maxcode, delta
      ensures ok <==> Accepted(s)
      ensures ok ==> CodeTable(s, |s|) && LengthTables(s, 17)
    {
      var next, k := 0, 0;
      BelowNone(s);
      for j := 1 to 17
        invariant k == Below(s, j) && Start(s, k) <= WINDOW
        invariant j <= 16 ==> Start(s, k) == next * Pow2(16 - j)
        invariant CodeTable(s, k) && LengthTables(s, j)
      {
        ok, next, k := AssignSize(s, j, next, k);
        if !ok { return; }
      }
      BelowAll(s);
      ok := true;
    }

    static lemma BelowNone(s: seq<nat>)
      requires IsSizes(s)
      ensures Below(s, 1) == 0
    {
      if s != [] { BelowSplits(s, 1, 0); }
    }

    static lemma BelowAll(s: seq<nat>)
      requires IsSizes(s)
      ensures Below(s, 17) == |s|
    {}

    /** The codes of one length. */
    method AssignSize(ghost s: seq<nat>, j: nat, next0: nat, k0: nat) returns (ok: bool, next: nat, k: nat)
      requires Shape() && IsSizes(s) && |s| <= 256 && SizeTable(s) && 1 <= j <= 16
      requires k0 == Below(s, j) && Start(s, k0) == next0 * Pow2(16 - j) <= WINDOW
      requires CodeTable(s, k0) && LengthTables(s, j)
      modifies code, maxcode, delta
      ensures !ok ==> !Accepted(s)
      ensures ok ==> k == Below(s, j + 1) && Start(s, k) <= WINDOW && CodeTable(s, k) && LengthTables(s, j + 1)
      ensures ok && j < 16 ==> Start(s, k) == next * Pow2(16 - (j + 1))
    {
      QuotientUnique(Start(s, k0), Pow2(16 - j), next0, 0);
      delta[j] := k0 - next0;
      next, k := AssignRun(s, j, next0, k0);
      RunEnds(s, j, k);
      if k > k0 && next - 1 >= Shl(1, j) {
        Oversubscribed(s, j, next, k);
        return false, next, k;
      }
      RunFits(s, j, next, k);
      RunCodes(s, j, next0, k0, k);
      maxcode[j] := Shl(next, 16 - j);
      next := Shl(next, 1);
      ok := true;
    }

    /** Consecutive codes for the symbols of one length; the field of 16 bits holds those that are accepted. */
    method AssignRun(ghost s: seq<nat>, j: nat, next0: nat, k0: nat) returns (next: nat, k: nat)
      requires Shape() && IsSizes(s) && |s| <= 256 && SizeTable(s) && 1 <= j <= 16
      requires k0 == Below(s, j) && Start(s, k0) == next0 * Pow2(16 - j)
      modifies code
      ensures k0 <= k <= |s| && (k < |s| ==> s[k] != j) && forall i :: k0 <= i < k ==> s[i] == j
      ensures next == next0 + (k - k0) && Start(s, k) == next * Pow2(16 - j)
      ensures forall i :: 0 <= i < k0 ==> code[i] == old(code[i])
      ensures forall i :: k0 <= i < k ==> code[i] == (next0 + (i - k0)) % WINDOW
    {
      next, k := next0, k0;
      while size[k] == j
        invariant k0 <= k <= |s| && next == next0 + (k - k0) && Start(s, k) == next * Pow2(16 - j)
        invariant forall i :: k0 <= i < k ==> s[i] == j
        invariant forall i :: 0 <= i < k0 ==> code[i] == old(code[i])
        invariant forall i :: k0 <= i < k ==> code[i] == (next0 + (i - k0)) % WINDOW
        decreases |s| - k
      {
        SizeAt(s, k);
        code[k] := next % WINDOW;
        MulDistribute(next, 1, Pow2(16 - j));
        k, next := k + 1, next + 1;
      }
      SizeAt(s, k);
    }

    /** The list of lengths ends with a zero, which is none. */
    lemma SizeAt(s: seq<nat>, k: nat)
      requires Shape() && IsSizes(s) && |s| <= 256 && SizeTable(s) && k <= |s|
      ensures size[k] == if k < |s| then s[k] else 0
    {
      if k < |s| { assert size[..|s|][k] == size[k]; }
    }

    /** All symbols of a length are numbered together. */
    static lemma RunEnds(s: seq<nat>, j: nat, k: nat)
      requires IsSizes(s) && 1 <= j <= 16 && Below(s, j) <= k <= |s|
      requires (k < |s| ==> s[k] != j) && forall i :: Below(s, j) <= i < k ==> s[i] == j
      ensures k == Below(s, j + 1)
    {
      if k < |s| {
        BelowSplits(s, j, k);
        BelowSplits(s, j + 1, k);
      }
      if k > 0 {
        BelowSplits(s, j, k - 1);
        BelowSplits(s, j + 1, k - 1);
      }
    }

    static lemma Oversubscribed(s: seq<nat>, j: nat, next: nat, k: nat)
      requires IsSizes(s) && 1 <= j <= 16 && k <= |s| && Start(s, k) == next * Pow2(16 - j) && next > Shl(1, j)
      ensures !Accepted(s)
    {
      Pow2Add(j, 16 - j);
      Pow2Value(16);
      MulMonotone(Pow2(j) + 1, next, Pow2(16 - j));
      MulDistribute(Pow2(j), 1, Pow2(16 - j));
      StartMonotone(s, k, |s|);
    }

    static lemma RunFits(s: seq<nat>, j: nat, next: nat, k: nat)
      requires IsSizes(s) && 1 <= j <= 16 && k <= |s| && Start(s, k) == next * Pow2(16 - j)
      requires Start(s, k) <= WINDOW || next <= Shl(1, j)
      ensures Start(s, k) <= WINDOW && (j < 16 ==> Start(s, k) == Shl(next, 1) * Pow2(16 - (j + 1)))
    {
      Pow2Add(j, 16 - j);
      Pow2Value(16);
      if next <= Pow2(j) { MulMonotone(next, Pow2(j), Pow2(16 - j)); }
      if j < 16 { HalfSteps(next, 16 - j); }
    }

    /** Codes that were accepted fit the field that holds them. */
    static lemma RunCodes(s: seq<nat>, j: nat, next0: nat, k0: nat, k: nat)
      requires IsSizes(s) && 1 <= j <= 16 && k0 <= k <= |s| && forall i :: k0 <= i < k ==> s[i] == j
      requires Start(s, k0) == next0 * Pow2(16 - j) && (k > k0 ==> next0 + (k - k0) <= Shl(1, j))
      ensures forall i :: k0 <= i < k ==> (next0 + (i - k0)) % WINDOW == Code(s, i)
    {
      Pow2Value(16);
      Pow2Monotone(j, 16);
      forall i | k0 <= i < k ensures (next0 + (i - k0)) % WINDOW == Code(s, i) {
        CodeInRun(s, j, next0, k0, i);
        QuotientUnique(Code(s, i), WINDOW, 0, Code(s, i));
      }
    }

    static lemma CodeInRun(s: seq<nat>, j: nat, next0: nat, k0: nat, i: nat)
      requires IsSizes(s) && 1 <= j <= 16 && k0 <= i < |s| && s[k0] == s[i] == j && Start(s, k0) == next0 * Pow2(16 - j)
      ensures Code(s, i) == next0 + (i - k0)
    {
      CodesConsecutive(s, k0, i);
      QuotientUnique(Start(s, k0), Pow2(16 - j), next0, 0);
    }

    static lemma HalfSteps(n: nat, e: nat)
      requires e > 0
      ensures n * Pow2(e) == Shl(n, 1) * Pow2(e - 1)
    {
      Pow2Value(1);
      MulAssociate(n, 2, Pow2(e - 1));
    }

    // ---- the fast table ----

    /** Every code of up to nine bits enters at the indices that it starts. */
    method EnterFast(ghost s: seq<nat>, n: nat)
      requires Shape() && Accepted(s) && n == |s| && SizeTable(s) && CodeTable(s, n)
      modifies fast
      ensures FastTable(s, n)
    {
      forall c | 0 <= c < FAST_SIZE { fast[c] := 255; }
      for i := 0 to n
        invariant FastTable(s, i)
      {
        SizeAt(s, i);
        if size[i] <= FAST_BITS { EnterSymbol(s, i); }
      }
    }

    method EnterSymbol(ghost s: seq<nat>, i: nat)
      requires Shape() && Accepted(s) && i < |s| && size[i] == s[i] <= FAST_BITS && code[i] == Code(s, i)
      requires FastTable(s, i)
      modifies fast
      ensures FastTable(s, i + 1)
    {
      var c, m := Shl(code[i], FAST_BITS - size[i]), Shl(1, FAST_BITS - size[i]);
      IndicesOf(s, i, c, m);
      ghost var before := fast[..];
      FillRun(i, c, m);
      FastEntered(before, fast[..], s, i, c, m);
    }

    method FillRun(i: nat, c: nat, m: nat)
      requires Shape() && c + m <= FAST_SIZE
      modifies fast
      ensures forall d :: 0 <= d < FAST_SIZE ==> fast[d] == if c <= d < c + m then i else old(fast[d])
    {
      for j := 0 to m
        invariant forall d :: 0 <= d < FAST_SIZE ==> fast[d] == if c <= d < c + j then i else old(fast[d])
      {
        fast[c + j] := i;
      }
    }

    static lemma FastEntered(before: seq<nat>, after: seq<nat>, s: seq<nat>, i: nat, c: nat, m: nat)
      requires IsSizes(s) && |before| == |after| == FAST_SIZE && i < |s| && s[i] <= FAST_BITS && c + m <= FAST_SIZE
      requires FastRight(before, s, i) && forall d: nat :: Matches(s, i, 128 * d) <==> c <= d < c + m
      requires forall d :: 0 <= d < FAST_SIZE ==> after[d] == if c <= d < c + m then i else before[d]
      ensures FastRight(after, s, i + 1)
    {
      forall d: nat, k: nat | d < FAST_SIZE && k < i + 1 && s[k] <= FAST_BITS && Matches(s, k, 128 * d)
        ensures after[d] == k
      {
        if c <= d < c + m {
          assert Matches(s, i, 128 * d);
          MatchUnique(s, i, k, 128 * d);
        }
      }
      forall d: nat | d < FAST_SIZE && after[d] != 255
        ensures after[d] < i + 1 && s[after[d]] <= FAST_BITS && Matches(s, after[d], 128 * d)
      {
        if c <= d < c + m { assert Matches(s, i, 128 * d); }
      }
    }

    /** The indices of the fast table that a symbol's code starts. */
    static lemma IndicesOf(s: seq<nat>, i: nat, c: nat, m: nat)
      requires Accepted(s) && i < |s| && s[i] <= FAST_BITS
      requires c == Shl(Code(s, i), FAST_BITS - s[i]) && m == Shl(1, FAST_BITS - s[i])
      ensures c + m <= FAST_SIZE && forall d: nat :: Matches(s, i, 128 * d) <==> c <= d < c + m
    {
      CodeIs(s, i);
      StartMonotone(s, i + 1, |s|);
      var e := FAST_BITS - s[i];
      Pow2Add(e, 7);
      Pow2Value(7);
      MulAssociate(Code(s, i), Pow2(e), 128);
      MulAssociate(Code(s, i) + 1, Pow2(e), 128);
      MulDistribute(Code(s, i), 1, Pow2(e));
    }
  }
}
