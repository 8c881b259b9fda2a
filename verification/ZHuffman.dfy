/** The decoder tables of one Huffman code and how they are built from its lengths. */
module ZHuffman {
  import opened Bits
  import opened BitReverse
  import opened Canonical

  const FAST_BITS: nat := 9
  const FAST_SIZE: nat := 512
  const NSYMS: nat := 288

  /** The conversion to a 16-bit field. */
  function U16(x: nat): nat {
    x % 0x1_0000
  }

  /** Index `j` of the fast table ends in the code of symbol `i`. */
  predicate FastMatch(l: seq<nat>, i: nat, j: nat)
    requires i < |l|
  {
    1 <= l[i] <= FAST_BITS && j % Pow2(l[i]) == Val(CodeBits(l, i))
  }

  function FastValue(l: seq<nat>, i: nat): nat
    requires i < |l|
  {
    l[i] * 512 + i
  }

  /** Where symbol `i` stands when the used symbols are ordered by length, then by value. */
  function Slot(l: seq<nat>, i: nat): nat
    requires i < |l|
  {
    FirstSymbol(l, l[i]) + Rank(l, i)
  }

  lemma SlotBound(l: seq<nat>, i: nat)
    requires i < |l| && l[i] > 0
    ensures Slot(l, i) < |l|
  {
    RankBelowCount(l, i);
    FirstSymbolBound(l, l[i] + 1);
  }

  lemma SlotInjective(l: seq<nat>, i: nat, j: nat)
    requires i < |l| && j < |l| && l[i] > 0 && l[j] > 0 && Slot(l, i) == Slot(l, j)
    ensures i == j
  {
    RankBelowCount(l, i);
    RankBelowCount(l, j);
    if l[i] == l[j] {
      RankInjective(l, i, j);
    } else if l[i] < l[j] {
      FirstSymbolStep(l, l[i], l[j]);
    } else {
      FirstSymbolStep(l, l[j], l[i]);
    }
  }

  /** The end of the codes of length `s`, moved to the top of 16 bits. */
  function PreshiftedEnd(l: seq<nat>, s: nat): nat
    requires s <= 16
  {
    Shl(End(l, s), 16 - s)
  }

  class Table {
    const fast: array<nat>
    const firstcode: array<nat>
    const maxcode: array<nat>
    const firstsymbol: array<nat>
    const size: array<nat>
    const value: array<nat>
    /** The lengths the tables were last built from. */
    ghost var lengths: seq<nat>

    ghost const Arrays: set<array<nat>> := {fast, firstcode, maxcode, firstsymbol, size, value}

    ghost predicate Shape() {
      && fast.Length == FAST_SIZE && firstcode.Length == 16 && maxcode.Length == 17
      && firstsymbol.Length == 16 && size.Length == NSYMS && value.Length == NSYMS
      && fast != firstcode && fast != maxcode && fast != firstsymbol && fast != size && fast != value
      && firstcode != maxcode && firstcode != firstsymbol && firstcode != size && firstcode != value
      && maxcode != firstsymbol && maxcode != size && maxcode != value
      && firstsymbol != size && firstsymbol != value && size != value
    }

    constructor ()
      ensures Shape() && fresh(Arrays)
    {
      fast := new nat[FAST_SIZE];
      firstcode := new nat[16];
      maxcode := new nat[17];
      firstsymbol := new nat[16];
      size := new nat[NSYMS];
      value := new nat[NSYMS];
      lengths := [];
    }

    // ---- what the tables say about the code ----

    /** The per-length tables hold for the lengths below `n`. */
    ghost predicate LengthTables(l: seq<nat>, n: nat)
      requires Shape() && n <= 16
      reads firstcode, maxcode, firstsymbol
    {
      forall s :: 1 <= s < n ==>
        && firstcode[s] == First(l, s)
        && firstsymbol[s] == FirstSymbol(l, s)
        && maxcode[s] == PreshiftedEnd(l, s)
    }

    /** The per-symbol tables hold for the symbols below `n`. */
    ghost predicate SymbolTables(l: seq<nat>, n: nat)
      requires Shape() && n <= |l| <= NSYMS
      reads size, value
    {
      forall i :: 0 <= i < n && l[i] > 0 ==>
        Slot(l, i) < |l| && size[Slot(l, i)] == l[i] && value[Slot(l, i)] == i
    }

    /** An entry of the fast table is zero when no symbol below `n` matches its index,
        and otherwise names the symbol that does, with its length. */
    ghost predicate FastTable(l: seq<nat>, n: nat)
      requires Shape() && n <= |l|
      reads fast
    {
      && (forall i, j :: 0 <= i < n && 0 <= j < FAST_SIZE && FastMatch(l, i, j) ==> fast[j] == FastValue(l, i))
      && (forall j :: 0 <= j < FAST_SIZE && fast[j] != 0 ==>
           fast[j] % 512 < n && FastMatch(l, fast[j] % 512, j) && fast[j] == FastValue(l, fast[j] % 512))
    }

    ghost predicate Ready()
      reads this, Arrays
    {
      && Shape()
      && IsLengths(lengths) && |lengths| <= NSYMS && Fits(lengths)
      && LengthTables(lengths, 16) && maxcode[16] == 0x1_0000
      && SymbolTables(lengths, |lengths|)
      && FastTable(lengths, |lengths|)
    }

    /** The lengths of the code that the tables decode, if they decode one. */
    ghost function Described(): Option<seq<nat>>
      reads this, Arrays
    {
      if Ready() then Some(lengths) else None
    }

    twostate lemma Kept()
      requires unchanged(this) && unchanged(fast) && unchanged(firstcode) && unchanged(maxcode)
      requires unchanged(firstsymbol) && unchanged(size) && unchanged(value)
      ensures Described() == old(Described())
    {}

    /** Builds the tables; accepts exactly the lengths that meet the Kraft inequality. */
    method Build(sizelist: seq<nat>) returns (ok: bool)
      requires Shape() && IsLengths(sizelist) && |sizelist| <= NSYMS
      modifies this`lengths, Arrays
      ensures ok <==> KraftSum(sizelist) <= 0x8000
      ensures ok ==> Described() == Some(sizelist)
    {
      FitsIffKraft(sizelist);
      forall j | 0 <= j < FAST_SIZE { fast[j] := 0; }
      var sizes := CountSizes(sizelist);
      var nextCode := new nat[16];
      ok := SizesPlausible(sizelist, sizes);
      if !ok { return; }
      ok := AssignCodes(sizelist, sizes, nextCode);
      if !ok { return; }
      maxcode[16] := 0x1_0000;
      lengths := sizelist;
      EnterSymbols(sizelist, nextCode);
    }

    static method CountSizes(sizelist: seq<nat>) returns (sizes: array<nat>)
      requires IsLengths(sizelist)
      ensures fresh(sizes) && sizes.Length == 17 && sizes[0] == 0
      ensures forall s :: 1 <= s <= 15 ==> sizes[s] == Count(sizelist, s)
    {
      sizes := new nat[17](_ => 0);
      for i := 0 to |sizelist|
        invariant forall s :: 0 <= s <= 15 ==> sizes[s] == Count(sizelist[..i], s)
      {
        forall s ensures Count(sizelist[..i + 1], s) == Count(sizelist[..i], s) + (if sizelist[i] == s then 1 else 0) {
          CountStep(sizelist, i, s);
        }
        sizes[sizelist[i]] := sizes[sizelist[i]] + 1;
      }
      assert sizelist[..|sizelist|] == sizelist;
      sizes[0] := 0;
    }

    /** The first check: no length is used by more symbols than it has codes. */
    static method SizesPlausible(ghost l: seq<nat>, sizes: array<nat>) returns (ok: bool)
      requires sizes.Length == 17 && forall s :: 1 <= s <= 15 ==> sizes[s] == Count(l, s)
      ensures !ok ==> !Fits(l)
    {
      for i := 1 to 16 {
        if sizes[i] > Shl(1, i) {
          Oversubscribed(l, i);
          return false;
        }
      }
      return true;
    }

    /** The code-assignment loop: first codes, first symbols and preshifted ends by length. */
    method AssignCodes(ghost l: seq<nat>, sizes: array<nat>, nextCode: array<nat>) returns (ok: bool)
      requires Shape() && |l| <= NSYMS
      requires sizes.Length == 17 && nextCode.Length == 16
      requires nextCode != firstcode && nextCode != maxcode && nextCode != firstsymbol
      requires sizes != firstcode && sizes != maxcode && sizes != firstsymbol && sizes != nextCode
      requires forall s :: 1 <= s <= 15 ==> sizes[s] == Count(l, s)
      modifies firstcode, maxcode, firstsymbol, nextCode
      ensures ok <==> Fits(l)
      ensures ok ==> LengthTables(l, 16) && forall s :: 1 <= s <= 15 ==> nextCode[s] == First(l, s)
    {
      var code, k := 0, 0;
      for i := 1 to 16
        invariant AssignedBelow(l, nextCode, i, code, k)
      {
        ok, code, k := AssignLength(l, i, sizes[i], code, k, nextCode);
        if !ok { return; }
      }
      ok := true;
    }

    /** The state of the loop above before length `i`: the shorter lengths fit and are entered. */
    ghost predicate AssignedBelow(l: seq<nat>, nextCode: array<nat>, i: nat, code: nat, k: nat)
      requires Shape() && nextCode.Length == 16 && 1 <= i <= 16
      reads nextCode, firstcode, maxcode, firstsymbol
    {
      && code == First(l, i) <= Pow2(i) && k == FirstSymbol(l, i)
      && (forall s :: 1 <= s < i ==> End(l, s) <= Pow2(s))
      && (forall s :: 1 <= s < i ==> nextCode[s] == First(l, s))
      && LengthTables(l, i)
    }

    method AssignLength(ghost l: seq<nat>, i: nat, n: nat, code: nat, k: nat, nextCode: array<nat>)
      returns (ok: bool, code': nat, k': nat)
      requires Shape() && |l| <= NSYMS && 1 <= i <= 15 && nextCode.Length == 16 && n == Count(l, i)
      requires nextCode != firstcode && nextCode != maxcode && nextCode != firstsymbol
      requires AssignedBelow(l, nextCode, i, code, k)
      modifies firstcode, maxcode, firstsymbol, nextCode
      ensures !ok ==> !Fits(l)
      ensures ok ==> AssignedBelow(l, nextCode, i + 1, code', k')
    {
      code', k' := code + n, k + n;
      if n > 0 && code' - 1 >= Shl(1, i) {
        Oversubscribed(l, i);
        return false, code', k';
      }
      CodeStep(l, i);
      EnterCodes(l, i, code, k, code', nextCode);
      code' := Shl(code', 1);
      ok := true;
    }

    /** The first code of length `i`, and what else is kept of that length. */
    method EnterCodes(ghost l: seq<nat>, i: nat, code: nat, k: nat, end: nat, nextCode: array<nat>)
      requires Shape() && |l| <= NSYMS && 1 <= i <= 15 && nextCode.Length == 16
      requires nextCode != firstcode && nextCode != maxcode && nextCode != firstsymbol
      requires AssignedBelow(l, nextCode, i, code, k) && end == End(l, i) <= Pow2(i)
      modifies firstcode, maxcode, firstsymbol, nextCode
      ensures LengthTables(l, i + 1)
      ensures forall s :: 1 <= s < i + 1 ==> End(l, s) <= Pow2(s) && nextCode[s] == First(l, s)
    {
      EnterLength(l, i, code, k, end);
      nextCode[i] := code;
    }

    /** The three per-length fields of length `i`. */
    method EnterLength(ghost l: seq<nat>, i: nat, code: nat, k: nat, end: nat)
      requires Shape() && |l| <= NSYMS && 1 <= i <= 15
      requires code == First(l, i) <= Pow2(i) && k == FirstSymbol(l, i) && end == End(l, i)
      requires LengthTables(l, i)
      modifies firstcode, maxcode, firstsymbol
      ensures LengthTables(l, i + 1)
    {
      NoTruncation(l, i);
      firstcode[i] := U16(code);
      firstsymbol[i] := U16(k);
      maxcode[i] := Shl(end, 16 - i);
    }

    static lemma Oversubscribed(l: seq<nat>, i: nat)
      requires 1 <= i <= 15 && End(l, i) > Shl(1, i)
      ensures !Fits(l)
    {
      assert End(l, i) > Pow2(i);
    }

    static lemma CodeStep(l: seq<nat>, i: nat)
      requires 1 <= i <= 15 && First(l, i) <= Pow2(i)
      requires Count(l, i) > 0 ==> End(l, i) - 1 < Shl(1, i)
      ensures End(l, i) <= Pow2(i)
      ensures Shl(End(l, i), 1) == First(l, i + 1) <= Pow2(i + 1)
      ensures FirstSymbol(l, i + 1) == FirstSymbol(l, i) + Count(l, i)
    {
      assert Pow2(1) == 2;
    }

    /** The fields of 16 bits hold first codes and first symbols without loss. */
    static lemma NoTruncation(l: seq<nat>, s: nat)
      requires 1 <= s <= 15 && First(l, s) <= Pow2(s) && |l| <= NSYMS
      ensures U16(First(l, s)) == First(l, s) && U16(FirstSymbol(l, s)) == FirstSymbol(l, s)
    {
      FirstSymbolBound(l, s);
      assert Pow2(s) < 0x1_0000 by { Pow2Value(s); }
      Fits16(First(l, s));
      Fits16(FirstSymbol(l, s));
    }

    static lemma Fits16(x: nat)
      requires x < 0x1_0000
      ensures U16(x) == x
    {}

    /** One symbol. */
    method EnterSymbol(l: seq<nat>, nextCode: array<nat>, i: nat)
      requires Shape() && IsLengths(l) && i < |l| <= NSYMS && Fits(l)
      requires nextCode.Length == 16 && LengthTables(l, 16)
      requires nextCode != firstcode && nextCode != maxcode && nextCode != firstsymbol
      requires nextCode != fast && nextCode != size && nextCode != value
      requires NextCodes(l, nextCode, i) && SymbolTables(l, i) && FastTable(l, i)
      modifies fast, size, value, nextCode
      ensures NextCodes(l, nextCode, i + 1) && SymbolTables(l, i + 1) && FastTable(l, i + 1)
    {
      var s := l[i];
      if s > 0 {
        var code := nextCode[s];
        var c := code - firstcode[s] + firstsymbol[s];
        EnterSlot(l, i, c, s);
        if s <= FAST_BITS {
          EnterFast(l, i, code, s);
        } else {
          NoFastEntry(l, i);
        }
        Advance(l, nextCode, i, s);
      } else {
        NoFastEntry(l, i);
        NextCodesSkip(l, nextCode, i);
      }
    }

    /** The symbol loop: every used symbol enters the per-symbol tables and, when its code is
        short enough, every entry of the fast table that ends in its code. */
    method EnterSymbols(l: seq<nat>, nextCode: array<nat>)
      requires Shape() && IsLengths(l) && |l| <= NSYMS && Fits(l)
      requires nextCode.Length == 16 && LengthTables(l, 16)
      requires nextCode != firstcode && nextCode != maxcode && nextCode != firstsymbol
      requires nextCode != fast && nextCode != size && nextCode != value
      requires NextCodes(l, nextCode, 0)
      requires forall j :: 0 <= j < FAST_SIZE ==> fast[j] == 0
      modifies fast, size, value, nextCode
      ensures SymbolTables(l, |l|) && FastTable(l, |l|)
    {
      for i := 0 to |l|
        invariant NextCodes(l, nextCode, i)
        invariant LengthTables(l, 16)
        invariant SymbolTables(l, i)
        invariant FastTable(l, i)
      {
        EnterSymbol(l, nextCode, i);
      }
    }

    /** The next code of every length, once the symbols below `i` have theirs. */
    static ghost predicate NextCodes(l: seq<nat>, nextCode: array<nat>, i: nat)
      requires nextCode.Length == 16 && i <= |l|
      reads nextCode
    {
      forall s :: 1 <= s <= 15 ==> nextCode[s] == First(l, s) + Count(l[..i], s)
    }

    static lemma NextCodesSkip(l: seq<nat>, nextCode: array<nat>, i: nat)
      requires nextCode.Length == 16 && i < |l| && l[i] == 0 && NextCodes(l, nextCode, i)
      ensures NextCodes(l, nextCode, i + 1)
    {
      forall s | 1 <= s <= 15 ensures nextCode[s] == First(l, s) + Count(l[..i + 1], s) {
        CountStep(l, i, s);
      }
    }

    static method Advance(ghost l: seq<nat>, nextCode: array<nat>, ghost i: nat, s: nat)
      requires nextCode.Length == 16 && i < |l| && 1 <= s == l[i] <= 15 && NextCodes(l, nextCode, i)
      modifies nextCode
      ensures NextCodes(l, nextCode, i + 1)
    {
      forall t ensures Count(l[..i + 1], t) == Count(l[..i], t) + (if l[i] == t then 1 else 0) {
        CountStep(l, i, t);
      }
      nextCode[s] := nextCode[s] + 1;
    }

    lemma NoFastEntry(l: seq<nat>, i: nat)
      requires Shape() && i < |l| <= NSYMS && FastTable(l, i)
      requires l[i] == 0 || l[i] > FAST_BITS
      ensures FastTable(l, i + 1)
    {
      forall j ensures !FastMatch(l, i, j) {}
    }

    method EnterSlot(ghost l: seq<nat>, i: nat, c: nat, s: nat)
      requires Shape() && IsLengths(l) && i < |l| <= NSYMS && s == l[i] > 0
      requires c == Slot(l, i) && SymbolTables(l, i)
      modifies size, value
      ensures SymbolTables(l, i + 1)
    {
      SlotBound(l, i);
      forall j | 0 <= j < i && l[j] > 0 && Slot(l, j) == c ensures false { SlotInjective(l, i, j); }
      size[c] := s;
      value[c] := U16(i);
    }

    /** Stores symbol `i` at every index that ends in its code. */
    method EnterFast(ghost l: seq<nat>, i: nat, code: nat, s: nat)
      requires Shape() && IsLengths(l) && i < |l| <= NSYMS && Fits(l)
      requires 1 <= s == l[i] <= FAST_BITS && code == Code(l, i) && FastTable(l, i)
      modifies fast
      ensures FastTable(l, i + 1)
    {
      var fastv := FastEntry(i, s);
      FastIndex(l, i);
      forall m, j | 0 <= m < i && 0 <= j < FAST_SIZE && FastMatch(l, m, j) && FastMatch(l, i, j) ensures false {
        FastMatchUnique(l, m, i, j);
      }
      FillStride(ReverseCode(code, s), s, fastv);
    }

    /** The inner loop: every 2^s-th entry from `rev` on. */
    method FillStride(rev: nat, s: nat, fastv: nat)
      requires Shape() && rev < Pow2(s)
      modifies fast
      ensures forall m :: 0 <= m < FAST_SIZE ==> fast[m] == if m % Pow2(s) == rev then fastv else old(fast[m])
    {
      var j := rev;
      forall m | 0 <= m <= j ensures m % Pow2(s) == m { QuotientUnique(m, Pow2(s), 0, m); }
      while j < FAST_SIZE
        invariant j % Pow2(s) == rev
        invariant forall m :: 0 <= m < FAST_SIZE ==>
                    fast[m] == if m < j && m % Pow2(s) == rev then fastv else old(fast[m])
      {
        fast[j] := fastv;
        NextIndex(j, Pow2(s));
        j := j + Shl(1, s);
      }
    }

    static lemma FastIndex(l: seq<nat>, i: nat)
      requires IsLengths(l) && i < |l| <= NSYMS && Fits(l) && 1 <= l[i] <= FAST_BITS
      ensures ReverseCode(Code(l, i), l[i]) == Val(CodeBits(l, i)) == Val(CodeBits(l, i)) % Pow2(l[i])
      ensures Val(CodeBits(l, i)) < Pow2(l[i]) <= FAST_SIZE
    {
      CodeBounds(l, i);
      ReverseCodeValue(Code(l, i), l[i]);
      QuotientUnique(Val(CodeBits(l, i)), Pow2(l[i]), 0, Val(CodeBits(l, i)));
      ShortPow2(l[i]);
    }

    static lemma ShortPow2(s: nat)
      requires s <= FAST_BITS
      ensures Pow2(s) <= FAST_SIZE
    {
      Pow2Value(s);
    }

    /** The 16-bit entry for a symbol and its length: `s << 9 | i`. */
    static method FastEntry(i: nat, s: nat) returns (v: nat)
      requires i < 512 && s <= FAST_BITS
      ensures v == s * 512 + i && v % 512 == i && v / 512 == s
    {
      var n := 9;
      Pow2Value(n);
      OrIsAdd(i, s, n);
      Fits16(s * 512 + i);
      QuotientUnique(s * 512 + i, 512, s, i);
      v := U16(BitOr(i, Shl(s, n)));
    }

    static lemma NextIndex(j: nat, p: nat)
      requires p > 0
      ensures (j + p) % p == j % p
      ensures forall m :: j < m < j + p ==> m % p != j % p
    {
      ModStep(j + p, p);
      forall m | j < m < j + p ensures m % p != j % p {
        var q, r, q' := j / p, j % p, m / p;
        assert j == q * p + r && m == q' * p + m % p;
        if m % p == r {
          assert (q' - q) * p == m - j;
          SmallMultiple(q' - q, p);
        }
      }
    }

    /** Matching the index is the same as the code starting the index's bits. */
    static lemma FastMatchStarts(l: seq<nat>, i: nat, j: nat, n: nat)
      requires i < |l| && l[i] <= n
      ensures j % Pow2(l[i]) == Val(CodeBits(l, i)) <==> CodeBits(l, i) <= ToBits(j, n)
    {
      ToBitsTake(j, l[i], n);
      ValOfToBits(j, l[i]);
      assert CodeBits(l, i) <= ToBits(j, n) <==> CodeBits(l, i) == ToBits(j, l[i]);
      if Val(CodeBits(l, i)) == Val(ToBits(j, l[i])) { ValInjective(CodeBits(l, i), ToBits(j, l[i])); }
    }

    static lemma FastMatchUnique(l: seq<nat>, m: nat, i: nat, j: nat)
      requires IsLengths(l) && Fits(l) && m < |l| && i < |l|
      requires FastMatch(l, m, j) && FastMatch(l, i, j)
      ensures m == i
    {
      var n := FAST_BITS;
      FastMatchStarts(l, m, j, n);
      FastMatchStarts(l, i, j, n);
      PrefixFree(l, m, i, ToBits(j, n));
    }
  }
}
