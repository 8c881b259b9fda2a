/** The dictionary of GIF's variable-length-code LZW compression (Appendix F of GIF89a), and the stream
    of codes. */
module GifLzw {
  import opened Bits
  import opened BitStream

  const MAX_CODES: nat := 8192

  // ---- what codes mean ----

  /** Codes sent since the last clear code: each is a root, or an entry that exists by then. Entry
      `clear + 2 + j` is complete once code j + 1 is known, which may be that entry itself. */
  predicate Legal(clear: nat, cs: seq<nat>) {
    forall k :: 0 <= k < |cs| ==> cs[k] < clear || clear + 2 <= cs[k] < clear + 2 + k
  }

  /** A code that has a word. */
  predicate Known(clear: nat, cs: seq<nat>, c: nat) {
    c < clear || clear + 2 <= c < clear + 1 + |cs|
  }

  /** The first pixel of a code's word: the entry made after code j starts like code j. */
  function First(clear: nat, cs: seq<nat>, c: nat): byte
    requires Legal(clear, cs) && (c < clear || clear + 2 <= c < clear + 2 + |cs|)
    decreases c
  {
    if c < clear then c % 256 else First(clear, cs, cs[c - clear - 2])
  }

  /** The word of a code: a root is one pixel; the entry made after code j is the word of code j and
      one pixel more, the first of the word of code j + 1. */
  function Word(clear: nat, cs: seq<nat>, c: nat): (w: seq<byte>)
    requires Legal(clear, cs) && Known(clear, cs, c)
    ensures w != []
    decreases c
  {
    if c < clear then [c % 256]
    else
      var j := c - clear - 2;
      Word(clear, cs, cs[j]) + [First(clear, cs, cs[j + 1])]
  }

  /** `First` is the first pixel of the word. */
  lemma {:induction false} FirstOfWord(clear: nat, cs: seq<nat>, c: nat)
    requires Legal(clear, cs) && Known(clear, cs, c)
    ensures First(clear, cs, c) == Word(clear, cs, c)[0]
    decreases c
  {
    if c >= clear { FirstOfWord(clear, cs, cs[c - clear - 2]); }
  }

  /** Appendix F: every new entry is the previous code's word and the first pixel of the current
      code's, also when the current code is the entry being defined. */
  lemma NewEntry(clear: nat, cs: seq<nat>, j: nat)
    requires Legal(clear, cs) && j + 1 < |cs|
    ensures Known(clear, cs, cs[j]) && Known(clear, cs, cs[j + 1])
    ensures Word(clear, cs, clear + 2 + j) == Word(clear, cs, cs[j]) + [Word(clear, cs, cs[j + 1])[0]]
  {
    FirstOfWord(clear, cs, cs[j + 1]);
  }

  /** Later codes do not change earlier words. */
  lemma {:induction false} FirstStays(clear: nat, cs: seq<nat>, more: seq<nat>, c: nat)
    requires Legal(clear, cs) && Legal(clear, cs + more) && (c < clear || clear + 2 <= c < clear + 2 + |cs|)
    ensures First(clear, cs + more, c) == First(clear, cs, c)
    decreases c
  {
    if c >= clear { FirstStays(clear, cs, more, cs[c - clear - 2]); }
  }

  lemma {:induction false} WordStays(clear: nat, cs: seq<nat>, more: seq<nat>, c: nat)
    requires Legal(clear, cs) && Legal(clear, cs + more) && Known(clear, cs, c)
    ensures Word(clear, cs + more, c) == Word(clear, cs, c)
    decreases c
  {
    if c >= clear {
      var j := c - clear - 2;
      WordStays(clear, cs, more, cs[j]);
      FirstStays(clear, cs, more, cs[j + 1]);
    }
  }

  /** Code k of a parse: a root for a word of one pixel, or an earlier word and the first pixel of the
      word after it. */
  predicate ParsedAt(clear: nat, cs: seq<nat>, ws: seq<seq<byte>>, k: nat)
    requires k < |cs| == |ws|
  {
    && ws[k] != []
    && (cs[k] < clear ==> ws[k] == [cs[k] % 256])
    && (cs[k] >= clear ==>
          clear + 2 <= cs[k] < clear + 2 + k && ws[cs[k] - clear - 1] != [] &&
          ws[k] == ws[cs[k] - clear - 2] + [ws[cs[k] - clear - 1][0]])
  }

  /** An encoder's parse of the pixels into dictionary words, with a code for each. */
  predicate Parses(clear: nat, cs: seq<nat>, ws: seq<seq<byte>>) {
    |cs| == |ws| && forall k :: 0 <= k < |cs| ==> ParsedAt(clear, cs, ws, k)
  }

  lemma ParseIsLegal(clear: nat, cs: seq<nat>, ws: seq<seq<byte>>)
    requires Parses(clear, cs, ws)
    ensures Legal(clear, cs)
  {
    forall k | 0 <= k < |cs|
      ensures cs[k] < clear || clear + 2 <= cs[k] < clear + 2 + k { assert ParsedAt(clear, cs, ws, k); }
  }

  /** Whatever dictionary words an encoder picks, the decoder's words are the same. */
  lemma {:induction false} WordsOfParse(clear: nat, cs: seq<nat>, ws: seq<seq<byte>>, k: nat)
    requires Parses(clear, cs, ws) && Legal(clear, cs) && k < |cs|
    ensures Known(clear, cs, cs[k]) && Word(clear, cs, cs[k]) == ws[k]
    decreases k
  {
    assert ParsedAt(clear, cs, ws, k);
    if cs[k] >= clear {
      var j := cs[k] - clear - 2;
      assert ParsedAt(clear, cs, ws, j);
      WordsOfParse(clear, cs, ws, j);
      FirstOfWord(clear, cs, cs[j]);
      if j + 1 < k {
        WordsOfParse(clear, cs, ws, j + 1);
        NewEntry(clear, cs, j);
      } else {
        assert ws[k][0] == ws[j][0];
        assert First(clear, cs, cs[k]) == First(clear, cs, cs[j]);
      }
    }
  }

  // ---- how wide codes are ----

  /** The next entry to be defined after `n` codes since the clear code. */
  function AvailAfter(rootBits: nat, n: nat): nat {
    Pow2(rootBits) + 2 + (if n == 0 then 0 else n - 1)
  }

  /** How often a positive number can be halved. */
  function Log2(a: nat): (e: nat)
    requires a > 0
    ensures Pow2(e) <= a < Pow2(e + 1)
  {
    if a == 1 then 0 else Log2(a / 2) + 1
  }

  lemma Log2Is(a: nat, e: nat)
    requires Pow2(e) <= a < Pow2(e + 1)
    ensures Log2(a) == e
  {
    if e < Log2(a) { Pow2Monotone(e + 1, Log2(a)); }
    if Log2(a) < e { Pow2Monotone(Log2(a) + 1, e); }
  }

  function Capped(avail: nat): nat {
    if avail <= 0x0FFF then avail else 0x0FFF
  }

  /** The width of a code when `avail` is the next entry: what that needs, up to twelve bits. One-bit roots start
      with the two bits that suffice there, the largest roots always take thirteen, and roots of no bits are a bit
      behind. */
  function WidthAt(rootBits: nat, avail: nat, first: bool): nat
    requires avail > 0
  {
    if rootBits == 0 then Log2(Capped(avail))
    else if rootBits == 12 then 13
    else if rootBits == 1 && first then 2
    else Log2(Capped(avail)) + 1
  }

  /** The width of the code behind `n` codes since the clear code. */
  function WidthAfter(rootBits: nat, n: nat): nat {
    WidthAt(rootBits, AvailAfter(rootBits, n), n == 0)
  }

  lemma WidthAtStart(rootBits: nat)
    requires rootBits <= 12
    ensures WidthAfter(rootBits, 0) == rootBits + 1
  {
    Pow2Value(rootBits);
    if rootBits == 0 {
      ThreeStays(AvailAfter(rootBits, 0));
    } else if 2 <= rootBits < 12 {
      StartingLog(rootBits, AvailAfter(rootBits, 0));
    }
  }

  lemma StartingLog(rootBits: nat, a: nat)
    requires 2 <= rootBits < 12 && a == Pow2(rootBits) + 2
    ensures a <= 0x0FFF && Log2(a) == rootBits
  {
    Pow2Value(rootBits);
    Log2Is(a, rootBits);
  }

  /** A number up to `k + 1` times `d` and above `k` times. */
  lemma Multiple(b: nat, d: nat, k: nat)
    requires d > 0 && k * d < b <= (k + 1) * d
    ensures b % d == 0 <==> b == (k + 1) * d
  {
    MulDistribute(k, 1, d);
    if b == (k + 1) * d { QuotientUnique(b, d, k + 1, 0); } else { QuotientUnique(b, d, k, b - k * d); }
  }

  /** The code size is raised exactly where this width is. */
  lemma WidthGrows(rootBits: nat, n: nat)
    requires rootBits <= 12
    ensures Widen(WidthAfter(rootBits, n), AvailAfter(rootBits, n + 1)) == WidthAfter(rootBits, n + 1)
  {
    Pow2Value(rootBits);
    WidthGrowsFrom(rootBits, AvailAfter(rootBits, n), AvailAfter(rootBits, n + 1), n == 0);
  }

  lemma WidthGrowsFrom(rootBits: nat, a: nat, b: nat, first: bool)
    requires 0 < a <= b == (if first then a else a + 1) && (rootBits == 12 ==> a > 0x0FFF)
    requires first ==> (rootBits == 0 ==> a == 3) && (rootBits == 1 ==> a == 4)
    ensures Widen(WidthAt(rootBits, a, first), b) == WidthAt(rootBits, b, false)
  {
    if b > 0x0FFF {
      StaysAtMost(rootBits, a, b, first);
    } else if rootBits == 0 {
      if first { ThreeStays(a); } else { ZeroRootsGrow(Log2(a), a, b); }
    } else if rootBits == 1 && first {
      FourGrows(b);
    } else {
      SmallGrows(rootBits, a, b, first, Log2(a));
    }
  }

  lemma StaysAtMost(rootBits: nat, a: nat, b: nat, first: bool)
    requires 0 < a <= b && b > 0x0FFF && Capped(a) == Capped(b) && (first ==> rootBits > 1)
    ensures Widen(WidthAt(rootBits, a, first), b) == WidthAt(rootBits, b, false)
  {}

  lemma SmallGrows(rootBits: nat, a: nat, b: nat, first: bool, e: nat)
    requires 0 < a <= b <= a + 1 && b <= 0x0FFF && e == Log2(a) && 1 <= rootBits != 12 && !(rootBits == 1 && first)
    ensures Widen(WidthAt(rootBits, a, first), b) == WidthAt(rootBits, b, false)
  {
    NextGrows(e + 1, a, b);
  }

  lemma ThreeStays(a: nat)
    requires a == 3
    ensures Log2(a) == 1 && Widen(Log2(a), a) == Log2(a)
  {
    var one := 1;
    Pow2Value(one);
    Pow2Value(one + 1);
    Log2Is(a, one);
  }

  lemma FourGrows(b: nat)
    requires b == 4
    ensures Widen(2, b) == Log2(b) + 1
  {
    var two := 2;
    Pow2Value(two);
    Pow2Value(two + 1);
    Log2Is(b, two);
  }

  lemma NextGrows(w: nat, a: nat, b: nat)
    requires w >= 1 && Pow2(w - 1) <= a < Pow2(w) && a <= b <= a + 1 && b <= 0x0FFF
    ensures Widen(w, b) == Log2(b) + 1
  {
    Multiple(b, Pow2(w), 0);
    Log2Is(b, if b == Pow2(w) then w else w - 1);
  }

  lemma ZeroRootsGrow(w: nat, a: nat, b: nat)
    requires Pow2(w) <= a < Pow2(w + 1) && b == a + 1 <= 0x0FFF
    ensures Widen(w, b) == Log2(b)
  {
    Multiple(b, Pow2(w), 1);
    Log2Is(b, if b == Pow2(w + 1) then w + 1 else w);
  }

  /** The largest code that can be written: of twelve bits, or thirteen for the largest roots. */
  function LargestCode(rootBits: nat): nat {
    if rootBits == 12 then 0x1FFF else 0x0FFF
  }

  /** From one-bit roots on, every code that exists when it is sent fits, up to the largest. */
  lemma CodesFit(rootBits: nat, n: nat, code: nat)
    requires 1 <= rootBits <= 12 && code <= AvailAfter(rootBits, n) && (n == 0 ==> code < AvailAfter(rootBits, n))
    ensures code < Pow2(WidthAfter(rootBits, n)) <==> code <= LargestCode(rootBits)
  {
    var a := AvailAfter(rootBits, n);
    Pow2Value(12);
    Pow2Value(13);
    Pow2Value(rootBits);
    Pow2Value(2);
    if rootBits < 12 && a > 0x0FFF {
      Pow2Value(11);
      Log2Is(0x0FFF, 11);
    }
  }

  /** In plain numbers, for two- to eleven-bit roots: as many bits as the next entry needs, never more than twelve. */
  lemma WidthInNumbers(rootBits: nat, n: nat, w: nat, next: nat)
    requires 2 <= rootBits <= 11 && w == WidthAfter(rootBits, n)
    requires next == Pow2(rootBits) + 2 + if n == 0 then 0 else n - 1
    ensures w >= 3 && (next < 4096 ==> Pow2(w - 1) <= next < Pow2(w)) && (next >= 4096 ==> w == 12)
  {
    LogInNumbers(rootBits, next, 2, 11);
  }

  lemma LogInNumbers(rootBits: nat, next: nat, two: nat, eleven: nat)
    requires two == 2 && eleven == 11 && two <= rootBits && Pow2(rootBits) <= next
    ensures Log2(Capped(next)) >= 2 && (next >= 4096 ==> Log2(Capped(next)) == 11)
  {
    Pow2Monotone(two, rootBits);
    Pow2Value(two);
    Pow2Value(eleven);
    Pow2Value(eleven + 1);
    if next >= 4096 {
      Log2Is(0x0FFF, eleven);
    } else if Log2(next) < two {
      Pow2Monotone(Log2(next) + 1, two);
    }
  }

  /** Roots and the clear code always fit. */
  lemma RootsFit(rootBits: nat, n: nat)
    requires rootBits <= 12
    ensures Pow2(rootBits) < Pow2(WidthAfter(rootBits, n))
  {
    if rootBits == 0 {
      Pow2Value(0);
      Pow2Value(1);
      Pow2Monotone(1, WidthAfter(0, n));
    } else {
      Pow2Value(rootBits);
      CodesFit(rootBits, n, Pow2(rootBits));
    }
  }

  /** The end code fits but for roots of no bits and fewer than two codes. */
  lemma EndFits(rootBits: nat, n: nat)
    requires rootBits <= 12
    ensures Pow2(rootBits) + 1 < Pow2(WidthAfter(rootBits, n)) <==> rootBits >= 1 || n >= 2
  {
    Pow2Value(rootBits);
    if rootBits >= 1 {
      CodesFit(rootBits, n, Pow2(rootBits) + 1);
    } else {
      Pow2Value(1);
      Pow2Value(2);
      if n < 2 {
        Log2Is(3, 1);
      } else {
        if WidthAfter(0, n) < 2 { Pow2Monotone(WidthAfter(0, n) + 1, 2); }
        Pow2Monotone(2, WidthAfter(0, n));
      }
    }
  }

  // ---- the stream of codes ----

  datatype Outcome = Finished | NoClearCode | TooManyCodes | IllegalCode | BadCodeSize

  /** The decoder between codes: the root size, the codes since the last clear code, whether there was
      one, and the width of the next code. */
  datatype Lzw = Lzw(rootBits: nat, cs: seq<nat>, started: bool, width: nat)
  {
    function Clear(): (c: nat)
      ensures c >= 1
    {
      Pow2(rootBits)
    }

    /** The next entry to be defined. */
    function Avail(): nat {
      AvailAfter(rootBits, |cs|)
    }

    ghost predicate Valid() {
      rootBits <= 12 && Legal(Clear(), cs) && Avail() <= MAX_CODES && 1 <= width <= 13
    }
  }

  datatype Step = Next(st: Lzw) | Stop(outcome: Outcome)

  function Initial(rootBits: nat): Lzw {
    Lzw(rootBits, [], false, rootBits + 1)
  }

  /** Codes grow by a bit when the next entry no longer fits, up to twelve bits. */
  function Widen(width: nat, avail: nat): nat {
    if avail % Pow2(width) == 0 && avail <= 0x0FFF then width + 1 else width
  }

  /** One code. */
  function StepOf(st: Lzw, code: nat): Step {
    if code == st.Clear() then Next(Lzw(st.rootBits, [], true, st.rootBits + 1))
    else if code == st.Clear() + 1 then Stop(Finished)
    else if code > st.Avail() then Stop(IllegalCode)
    else if !st.started then Stop(NoClearCode)
    else if st.cs != [] && st.Avail() + 1 > MAX_CODES then Stop(TooManyCodes)
    else if st.cs == [] && code == st.Avail() then Stop(IllegalCode)
    else
      var grown := st.(cs := st.cs + [code]);
      Next(grown.(width := Widen(st.width, grown.Avail())))
  }

  /** What holds between codes: the width is the one that the codes since the last clear code lead to. */
  predicate WidthFits(st: Lzw) {
    st.width == WidthAfter(st.rootBits, |st.cs|)
  }

  lemma InitialWidth(rootBits: nat, started: bool)
    requires rootBits <= 12
    ensures Lzw(rootBits, [], started, rootBits + 1).Valid() && WidthFits(Lzw(rootBits, [], started, rootBits + 1))
  {
    Pow2Value(rootBits);
    WidthAtStart(rootBits);
  }

  lemma WidenBound(width: nat, avail: nat)
    requires avail > 0
    ensures width <= Widen(width, avail) <= width + 1
    ensures Widen(width, avail) > width ==> width < 12
  {
    if width >= 12 && avail <= 0x0FFF {
      Pow2Monotone(12, width);
      Pow2Value(12);
      QuotientUnique(avail, Pow2(width), 0, avail);
    }
  }

  /** Every code keeps the codes since the last clear code legal and within the table. */
  lemma StepKeepsValid(st: Lzw, code: nat)
    requires st.Valid() && StepOf(st, code).Next?
    ensures StepOf(st, code).st.Valid()
    ensures code != st.Clear() ==>
              Legal(st.Clear(), StepOf(st, code).st.cs) && Known(st.Clear(), StepOf(st, code).st.cs, code)
  {
    if code == st.Clear() {
      InitialWidth(st.rootBits, true);
    } else {
      WidenBound(st.width, StepOf(st, code).st.Avail());
    }
  }

  /** And the width the one above. */
  lemma StepKeepsWidth(st: Lzw, code: nat)
    requires st.Valid() && WidthFits(st) && StepOf(st, code).Next?
    ensures WidthFits(StepOf(st, code).st)
  {
    if code == st.Clear() {
      InitialWidth(st.rootBits, true);
    } else {
      WidthGrows(st.rootBits, |st.cs|);
      DataStep(st, code, StepOf(st, code).st);
    }
  }

  /** What a code that is not the clear code makes of the state. */
  lemma DataStep(st: Lzw, code: nat, next: Lzw)
    requires code != st.Clear() && StepOf(st, code) == Next(next)
    ensures next.rootBits == st.rootBits && |next.cs| == |st.cs| + 1 && next.width == Widen(st.width, next.Avail())
  {}

  /** While entries have up to twelve bits, the next one fits the width exactly if roots have bits. */
  lemma RootsDecide(st: Lzw)
    requires st.Valid() && WidthFits(st) && st.cs != [] && st.Avail() <= 0x0FFF
    ensures st.Avail() < Pow2(st.width) <==> st.rootBits >= 1
  {
    if st.rootBits >= 1 { CodesFit(st.rootBits, |st.cs|, st.Avail()); }
  }

  /** Roots of no bits fall behind: after the codes 0 and 0 the decoder would take code 4, but reads two bits. */
  lemma ZeroRootsFallBehind() returns (st: Lzw, st': Lzw)
    ensures StepOf(Lzw(0, [], true, 1), 0) == Next(st) && StepOf(st, 0) == Next(st') && st'.Valid()
    ensures st'.Avail() == 4 && st'.width == 2 && StepOf(st', 4).Next? && 4 >= Pow2(st'.width)
  {
    var n := 0;
    Pow2Value(n);
    Pow2Value(n + 1);
    Pow2Value(n + 2);
    st := Lzw(n, [0], true, 1);
    st' := Lzw(n, [0, 0], true, 2);
    assert [0] + [0] == [0, 0];
  }

  /** What decoding yields: the colour indices, and how it ended. */
  datatype Decoded = Decoded(pixels: seq<byte>, outcome: Outcome)

  function Before(pixels: seq<byte>, rest: Decoded): Decoded {
    Decoded(pixels + rest.pixels, rest.outcome)
  }

  /** The word that a code stands for in the dictionary it leads to; the clear code stands for nothing. */
  function WordOf(st: Lzw, code: nat): seq<byte>
    requires st.Valid() && StepOf(st, code).Next?
  {
    if code == st.Clear() then []
    else
      StepKeepsValid(st, code);
      Word(st.Clear(), StepOf(st, code).st.cs, code)
  }

  /** Decoding the bits of `payload` from `at` on; running out of bits ends it like the end code. */
  function Decode(payload: seq<byte>, at: nat, st: Lzw): Decoded
    requires st.Valid()
    decreases 8 * |payload| - at
  {
    if at + st.width > 8 * |payload| then Decoded([], Finished)
    else
      var code := Val(Window(payload, at, st.width));
      match StepOf(st, code)
      case Stop(outcome) => Decoded([], outcome)
      case Next(next) =>
        StepKeepsValid(st, code);
        Before(WordOf(st, code), Decode(payload, at + st.width, next))
  }

  // ---- encoding and back ----

  /** The bits of a run of codes, each as wide as the decoder expects it. */
  function CodeBits(st: Lzw, codes: seq<nat>): seq<bool>
    decreases |codes|
  {
    if codes == [] then []
    else
      var step := StepOf(st, codes[0]);
      ToBits(codes[0], st.width) + if step.Next? then CodeBits(step.st, codes[1..]) else []
  }

  /** A run of codes of which none stops the decoder before the last, which stops it with `outcome`, and each fits
      its width. */
  predicate Sendable(st: Lzw, codes: seq<nat>, outcome: Outcome)
    decreases |codes|
  {
    && codes != [] && codes[0] < Pow2(st.width)
    && var step := StepOf(st, codes[0]);
       if step.Next? then Sendable(step.st, codes[1..], outcome) else step.outcome == outcome && |codes| == 1
  }

  /** The pixels that a run of codes stands for. */
  function Pixels(st: Lzw, codes: seq<nat>): seq<byte>
    requires st.Valid()
    decreases |codes|
  {
    if codes == [] || StepOf(st, codes[0]).Stop? then []
    else
      StepKeepsValid(st, codes[0]);
      WordOf(st, codes[0]) + Pixels(StepOf(st, codes[0]).st, codes[1..])
  }

  /** The bits of a run of codes stand within the payload. */
  predicate Standing(payload: seq<byte>, at: nat, st: Lzw, codes: seq<nat>) {
    match st
    case Lzw(_, _, _, _) => Found(payload, at, CodeBits(st, codes)) && at + |CodeBits(st, codes)| <= 8 * |payload|
  }

  /** One code in front of a run. */
  lemma SendFirst(st: Lzw, code: nat, next: Lzw, more: seq<nat>, codes: seq<nat>, outcome: Outcome)
    requires codes == [code] + more && StepOf(st, code) == Next(next)
    ensures codes[0] == code && codes[1..] == more
    ensures Sendable(st, codes, outcome) <==> code < Pow2(st.width) && Sendable(next, more, outcome)
    ensures CodeBits(st, codes) == ToBits(code, st.width) + CodeBits(next, more)
  {}

  lemma PixelsFirst(st: Lzw, code: nat, next: Lzw, more: seq<nat>, codes: seq<nat>, outcome: Outcome)
    requires codes == [code] + more && StepOf(st, code) == Next(next) && st.Valid() && Sendable(st, codes, outcome)
    ensures next.Valid()
    ensures Sendable(next, more, outcome) && Pixels(st, codes) == WordOf(st, code) + Pixels(next, more)
  {
    SendFirst(st, code, next, more, codes, outcome);
    StepKeepsValid(st, code);
  }

  /** The first code of a run, found in the stream. */
  lemma FirstCode(payload: seq<byte>, at: nat, width: nat, code: nat, more: seq<bool>, s: seq<bool>)
    requires code < Pow2(width) && s == ToBits(code, width) + more && Found(payload, at, s)
    ensures Val(Window(payload, at, width)) == code && Found(payload, at + width, more)
  {
    FoundParts(payload, at, ToBits(code, width), more);
    ValOfToBits(code, width);
    QuotientUnique(code, Pow2(width), 0, code);
  }

  /** Decoding one code that is there. */
  lemma DecodeStep(payload: seq<byte>, at: nat, st: Lzw, code: nat)
    requires st.Valid() && at + st.width <= 8 * |payload| && Val(Window(payload, at, st.width)) == code
    ensures match StepOf(st, code)
            case Stop(outcome) => Decode(payload, at, st) == Decoded([], outcome)
            case Next(next) =>
              next.Valid() &&
              Decode(payload, at, st) == Before(WordOf(st, code), Decode(payload, at + st.width, next))
  {
    if StepOf(st, code).Next? { StepKeepsValid(st, code); }
  }

  lemma BitsFirst(payload: seq<byte>, at: nat, st: Lzw, code: nat, next: Lzw, more: seq<nat>, codes: seq<nat>,
                  outcome: Outcome)
    requires codes == [code] + more && StepOf(st, code) == Next(next) && Sendable(st, codes, outcome)
    requires Found(payload, at, CodeBits(st, codes))
    ensures Val(Window(payload, at, st.width)) == code && Found(payload, at + st.width, CodeBits(next, more))
    ensures |CodeBits(st, codes)| == st.width + |CodeBits(next, more)|
  {
    SendFirst(st, code, next, more, codes, outcome);
    FirstCode(payload, at, st.width, code, CodeBits(next, more), CodeBits(st, codes));
  }

  lemma StandFirst(payload: seq<byte>, at: nat, st: Lzw, code: nat, next: Lzw, more: seq<nat>, codes: seq<nat>,
                   outcome: Outcome) returns (behind: nat)
    requires codes == [code] + more && StepOf(st, code) == Next(next) && Sendable(st, codes, outcome)
    requires Standing(payload, at, st, codes)
    ensures behind == at + st.width <= 8 * |payload| && Val(Window(payload, at, st.width)) == code
    ensures Standing(payload, behind, next, more)
  {
    BitsFirst(payload, at, st, code, next, more, codes, outcome);
    behind := at + st.width;
  }

  lemma DecodeTo(payload: seq<byte>, at: nat, st: Lzw, code: nat, next: Lzw, behind: nat)
    requires st.Valid() && behind == at + st.width <= 8 * |payload| && Val(Window(payload, at, st.width)) == code
    requires StepOf(st, code) == Next(next)
    ensures next.Valid() && Decode(payload, at, st) == Before(WordOf(st, code), Decode(payload, behind, next))
  {
    DecodeStep(payload, at, st, code);
  }

  /** The first code of a run is decoded to its word, and the rest of the run follows. */
  lemma DecodeFirst(payload: seq<byte>, at: nat, st: Lzw, code: nat, next: Lzw, more: seq<nat>, codes: seq<nat>,
                    outcome: Outcome) returns (word: seq<byte>, behind: nat)
    requires st.Valid() && codes == [code] + more && StepOf(st, code) == Next(next) && Sendable(st, codes, outcome)
    requires Standing(payload, at, st, codes)
    ensures word == WordOf(st, code) && next.Valid() && Standing(payload, behind, next, more)
    ensures Decode(payload, at, st) == Before(word, Decode(payload, behind, next))
  {
    behind := StandFirst(payload, at, st, code, next, more, codes, outcome);
    DecodeTo(payload, at, st, code, next, behind);
    word := WordOf(st, code);
  }

  lemma DecodeLast(payload: seq<byte>, at: nat, st: Lzw, codes: seq<nat>, outcome: Outcome)
    requires st.Valid() && Sendable(st, codes, outcome) && StepOf(st, codes[0]).Stop?
    requires Standing(payload, at, st, codes)
    ensures Decode(payload, at, st) == Decoded([], outcome) && Pixels(st, codes) == []
  {
    FirstCode(payload, at, st.width, codes[0], [], CodeBits(st, codes));
    DecodeStep(payload, at, st, codes[0]);
  }

  /** Decoding the bits of any sendable codes yields their words and ends as they do, whatever follows them. */
  lemma {:induction false} DecodeOfCodes(payload: seq<byte>, at: nat, st: Lzw, codes: seq<nat>, outcome: Outcome)
    requires st.Valid() && Sendable(st, codes, outcome)
    requires Standing(payload, at, st, codes)
    ensures Decode(payload, at, st) == Decoded(Pixels(st, codes), outcome)
    decreases |codes|, 1
  {
    if StepOf(st, codes[0]).Stop? {
      DecodeLast(payload, at, st, codes, outcome);
    } else {
      DecodeOfMore(payload, at, st, codes[0], StepOf(st, codes[0]).st, codes[1..], codes, outcome);
    }
  }

  lemma {:induction false} DecodeOfMore(payload: seq<byte>, at: nat, st: Lzw, code: nat, next: Lzw, more: seq<nat>,
                                        codes: seq<nat>, outcome: Outcome)
    requires st.Valid() && codes == [code] + more && StepOf(st, code) == Next(next) && Sendable(st, codes, outcome)
    requires Standing(payload, at, st, codes)
    ensures Decode(payload, at, st) == Decoded(Pixels(st, codes), outcome)
    decreases |codes|, 0
  {
    var word, behind := FirstOfRun(payload, at, st, code, next, more, codes, outcome);
    DecodeOfCodes(payload, behind, next, more, outcome);
  }

  /** The first word of a run, and where the rest of it stands. */
  lemma FirstOfRun(payload: seq<byte>, at: nat, st: Lzw, code: nat, next: Lzw, more: seq<nat>, codes: seq<nat>,
                   outcome: Outcome) returns (word: seq<byte>, behind: nat)
    requires st.Valid() && codes == [code] + more && StepOf(st, code) == Next(next) && Sendable(st, codes, outcome)
    requires Standing(payload, at, st, codes)
    ensures next.Valid() && Standing(payload, behind, next, more) && Sendable(next, more, outcome)
    ensures Decode(payload, at, st) == Before(word, Decode(payload, behind, next))
    ensures Pixels(st, codes) == word + Pixels(next, more)
  {
    word, behind := DecodeFirst(payload, at, st, code, next, more, codes, outcome);
    assert Sendable(next, more, outcome) && Pixels(st, codes) == word + Pixels(next, more) by {
      PixelsFirst(st, code, next, more, codes, outcome);
    }
  }

  // ---- what an encoder sends ----

  function Joined(ws: seq<seq<byte>>): seq<byte> {
    if ws == [] then [] else ws[0] + Joined(ws[1..])
  }

  /** What an encoder sends between two clear codes: pixels split into dictionary words, and their codes. */
  datatype Segment = Segment(codes: seq<nat>, words: seq<seq<byte>>)
  {
    /** The codes are a parse of the words, fit the widths they are read with, and are no more than the table takes. */
    predicate Acceptable(rootBits: nat) {
      && Parses(Pow2(rootBits), codes, words)
      && (forall k :: 0 <= k < |codes| ==> codes[k] < Pow2(WidthAfter(rootBits, k)))
      && Pow2(rootBits) + 1 + |codes| <= MAX_CODES
    }
  }

  /** From one-bit roots on, to fit the widths is not to exceed the largest code. */
  lemma PlainlyAcceptable(s: Segment, rootBits: nat)
    requires 1 <= rootBits <= 12
    requires Parses(Pow2(rootBits), s.codes, s.words) && Pow2(rootBits) + 1 + |s.codes| <= MAX_CODES
    ensures s.Acceptable(rootBits) <==> forall k :: 0 <= k < |s.codes| ==> s.codes[k] <= LargestCode(rootBits)
  {
    forall k | 0 <= k < |s.codes|
      ensures s.codes[k] < Pow2(WidthAfter(rootBits, k)) <==> s.codes[k] <= LargestCode(rootBits) {
      assert ParsedAt(Pow2(rootBits), s.codes, s.words, k);
      CodesFit(rootBits, k, s.codes[k]);
    }
  }

  /** All segments are, and after `n` codes since a clear code and then these segments the end code fits. */
  predicate ImageAcceptable(rootBits: nat, n: nat, segments: seq<Segment>) {
    && (forall i :: 0 <= i < |segments| ==> segments[i].Acceptable(rootBits))
    && (rootBits >= 1 || (if segments == [] then n else |segments[|segments| - 1].codes|) >= 2)
  }

  /** The codes of an image: a clear code before each segment, and the end code. */
  function ImageCodes(clear: nat, segments: seq<Segment>): (codes: seq<nat>)
    ensures codes != []
  {
    if segments == [] then [clear + 1] else [clear] + (segments[0].codes + ImageCodes(clear, segments[1..]))
  }

  /** Its pixels. */
  function ImagePixels(segments: seq<Segment>): seq<byte> {
    if segments == [] then [] else Joined(segments[0].words) + ImagePixels(segments[1..])
  }

  /** The decoder takes code `k` of a parse exactly if its table, of `MAX_CODES` entries, has room for
      the entry that the code completes: an encoder that goes on after a full table without a clear
      code is refused in the end. */
  lemma TableLimit(st: Lzw, cs: seq<nat>, ws: seq<seq<byte>>, k: nat)
    requires st.Valid() && st.started && Parses(st.Clear(), cs, ws) && k < |cs| && st.cs == cs[..k]
    ensures k == 0 || st.Clear() + 2 + k <= 8192 ==> StepOf(st, cs[k]).Next?
    ensures 0 < k && st.Clear() + 2 + k > 8192 ==> StepOf(st, cs[k]) == Stop(TooManyCodes)
  {
    assert ParsedAt(st.Clear(), cs, ws, k);
  }

  /** One code of a parse stands for its word. */
  lemma StepOfParse(st: Lzw, cs: seq<nat>, ws: seq<seq<byte>>, k: nat)
    requires st.Valid() && Parses(st.Clear(), cs, ws) && k < |cs| && st.cs == cs[..k] && StepOf(st, cs[k]).Next?
    ensures cs[k] != st.Clear() && StepOf(st, cs[k]).st.cs == cs[..k + 1]
    ensures StepOf(st, cs[k]).st.Valid() && Known(st.Clear(), cs[..k + 1], cs[k])
    ensures Word(st.Clear(), cs[..k + 1], cs[k]) == ws[k]
  {
    assert ParsedAt(st.Clear(), cs, ws, k);
    ParseIsLegal(st.Clear(), cs, ws);
    StepKeepsValid(st, cs[k]);
    WordsOfParse(st.Clear(), cs, ws, k);
    assert cs[..k + 1] == cs[..k] + [cs[k]] && cs == cs[..k + 1] + cs[k + 1..];
    WordStays(st.Clear(), cs[..k + 1], cs[k + 1..], cs[k]);
  }

  /** The decoder on its way through what an encoder sends. */
  ghost predicate OnTheWay(st: Lzw) {
    st.Valid() && WidthFits(st)
  }

  /** Code `k` of a segment, sent in the state that the codes before it lead to. */
  lemma SegmentStep(st: Lzw, s: Segment, k: nat) returns (next: Lzw)
    requires OnTheWay(st) && st.started && s.Acceptable(st.rootBits) && k < |s.codes| && st.cs == s.codes[..k]
    ensures OnTheWay(next) && next.started && next.rootBits == st.rootBits && next.cs == s.codes[..k + 1]
    ensures s.codes[k] < Pow2(st.width) && s.codes[k] != st.Clear() && StepOf(st, s.codes[k]) == Next(next)
    ensures WordOf(st, s.codes[k]) == s.words[k]
  {
    TableLimit(st, s.codes, s.words, k);
    next := StepOf(st, s.codes[k]).st;
    StepOfParse(st, s.codes, s.words, k);
    StepKeepsWidth(st, s.codes[k]);
  }

  /** A segment from code `k` on: it can be sent if what follows can, and stands for its words. */
  lemma {:induction false} SegmentSent(st: Lzw, s: Segment, k: nat, rest: seq<nat>, outcome: Outcome)
    returns (last: Lzw)
    requires OnTheWay(st) && st.started && s.Acceptable(st.rootBits) && k <= |s.codes| && st.cs == s.codes[..k]
    ensures OnTheWay(last) && last.started && last.rootBits == st.rootBits && last.cs == s.codes
    ensures Sendable(last, rest, outcome) ==>
              Sends(st, s.codes[k..] + rest, Joined(s.words[k..]) + Pixels(last, rest), outcome)
    decreases |s.codes| - k
  {
    if k == |s.codes| {
      last := st;
      assert s.codes[..k] == s.codes;
      NothingSent(st, s.codes[k..], s.words[k..], rest, outcome);
    } else {
      var next := SegmentStep(st, s, k);
      last := SegmentSent(next, s, k + 1, rest, outcome);
      if Sendable(last, rest, outcome) {
        CutFirst(s.codes, k, rest);
        JoinFirst(s.words, k, Pixels(last, rest));
        CodeSent(st, s.codes[k], next, s.codes[k + 1..] + rest, Joined(s.words[k + 1..]) + Pixels(last, rest), outcome);
      }
    }
  }

  /** A run of codes can be sent, stands for these pixels and ends so. */
  ghost predicate Sends(st: Lzw, codes: seq<nat>, pixels: seq<byte>, outcome: Outcome) {
    st.Valid() && Sendable(st, codes, outcome) && Pixels(st, codes) == pixels
  }

  lemma NothingSent(st: Lzw, none: seq<nat>, nothing: seq<seq<byte>>, rest: seq<nat>, outcome: Outcome)
    requires st.Valid() && none == [] && nothing == []
    ensures Sendable(st, rest, outcome) ==> Sends(st, none + rest, Joined(nothing) + Pixels(st, rest), outcome)
  {
    assert none + rest == rest;
  }

  lemma CutFirst(codes: seq<nat>, k: nat, rest: seq<nat>)
    requires k < |codes|
    ensures codes[k..] + rest == [codes[k]] + (codes[k + 1..] + rest)
  {}

  lemma JoinFirst(words: seq<seq<byte>>, k: nat, pixels: seq<byte>)
    requires k < |words|
    ensures Joined(words[k..]) + pixels == words[k] + (Joined(words[k + 1..]) + pixels)
  {
    assert words[k..][1..] == words[k + 1..];
    Regrouped(words[k], Joined(words[k + 1..]), pixels);
  }

  lemma Regrouped(a: seq<byte>, b: seq<byte>, c: seq<byte>)
    ensures a + b + c == a + (b + c)
  {}

  lemma CodeSent(st: Lzw, code: nat, next: Lzw, more: seq<nat>, pixels: seq<byte>, outcome: Outcome)
    requires st.Valid() && StepOf(st, code) == Next(next) && code < Pow2(st.width) && Sends(next, more, pixels, outcome)
    ensures Sends(st, [code] + more, WordOf(st, code) + pixels, outcome)
  {
    SendFirst(st, code, next, more, [code] + more, outcome);
    PixelsFirst(st, code, next, more, [code] + more, outcome);
  }

  /** What can be sent is decoded from its packed form, whatever follows. */
  lemma PackedDecodes(st: Lzw, codes: seq<nat>, pixels: seq<byte>, outcome: Outcome, trailer: seq<byte>,
                      payload: seq<byte>)
    requires Sends(st, codes, pixels, outcome) && payload == Pack(CodeBits(st, codes)) + trailer
    ensures Decode(payload, 0, st) == Decoded(pixels, outcome)
  {
    PackedWithin([], CodeBits(st, codes), trailer, 0, payload);
    DecodeOfCodes(payload, 0, st, codes, outcome);
  }

  /** A segment behind its clear code. */
  lemma SegmentCleared(st: Lzw, s: Segment, rest: seq<nat>, outcome: Outcome) returns (last: Lzw)
    requires OnTheWay(st) && s.Acceptable(st.rootBits)
    ensures OnTheWay(last) && last.started && last.rootBits == st.rootBits && last.cs == s.codes
    ensures Sendable(last, rest, outcome) ==>
              Sends(st, [st.Clear()] + (s.codes + rest), Joined(s.words) + Pixels(last, rest), outcome)
  {
    var cleared := Lzw(st.rootBits, [], true, st.rootBits + 1);
    InitialWidth(st.rootBits, true);
    RootsFit(st.rootBits, |st.cs|);
    last := SegmentSent(cleared, s, 0, rest, outcome);
    assert s.codes[0..] == s.codes && s.words[0..] == s.words;
    if Sendable(last, rest, outcome) {
      CodeSent(st, st.Clear(), cleared, s.codes + rest, Joined(s.words) + Pixels(last, rest), outcome);
      assert WordOf(st, st.Clear()) + (Joined(s.words) + Pixels(last, rest)) == Joined(s.words) + Pixels(last, rest);
    }
  }

  lemma EndSent(st: Lzw)
    requires OnTheWay(st) && (st.rootBits >= 1 || |st.cs| >= 2)
    ensures Sends(st, [st.Clear() + 1], [], Finished)
  {
    EndFits(st.rootBits, |st.cs|);
  }

  /** The closed condition: whatever acceptable segments an encoder sends, each after a clear code, the
      decoder takes them all, and they stand for their words. */
  lemma {:induction false} ImageSent(st: Lzw, segments: seq<Segment>)
    requires OnTheWay(st) && ImageAcceptable(st.rootBits, |st.cs|, segments)
    ensures Sends(st, ImageCodes(st.Clear(), segments), ImagePixels(segments), Finished)
    decreases |segments|
  {
    if segments == [] {
      EndSent(st);
    } else {
      var more := segments[1..];
      var last := SegmentCleared(st, segments[0], ImageCodes(st.Clear(), more), Finished);
      ImageSent(last, more);
    }
  }

  /** A segment of a run that can be sent, from code `k` on: its codes fit, and what follows can be sent. */
  lemma {:induction false} SegmentMustFit(st: Lzw, s: Segment, k: nat, rest: seq<nat>, codes: seq<nat>)
    returns (last: Lzw)
    requires OnTheWay(st) && st.started && Parses(st.Clear(), s.codes, s.words)
    requires k <= |s.codes| && st.cs == s.codes[..k] && codes == s.codes[k..] + rest && Sendable(st, codes, Finished)
    ensures OnTheWay(last) && last.started && last.rootBits == st.rootBits && last.cs == s.codes
    ensures Sendable(last, rest, Finished)
    ensures forall i :: k <= i < |s.codes| ==> s.codes[i] < Pow2(WidthAfter(st.rootBits, i))
    decreases |s.codes| - k
  {
    if k == |s.codes| {
      last := st;
      WholeSent(s.codes, k, rest, codes);
    } else {
      CutFirst(s.codes, k, rest);
      var more := s.codes[k + 1..] + rest;
      var next := StepMustFit(st, s, k, more, codes);
      last := SegmentMustFit(next, s, k + 1, rest, more);
    }
  }

  lemma WholeSent(all: seq<nat>, k: nat, rest: seq<nat>, codes: seq<nat>)
    requires k == |all| && codes == all[k..] + rest
    ensures all[..k] == all && codes == rest
  {}

  lemma StepMustFit(st: Lzw, s: Segment, k: nat, more: seq<nat>, codes: seq<nat>) returns (next: Lzw)
    requires OnTheWay(st) && st.started && Parses(st.Clear(), s.codes, s.words)
    requires k < |s.codes| && st.cs == s.codes[..k] && codes == [s.codes[k]] + more && Sendable(st, codes, Finished)
    ensures OnTheWay(next) && next.started && next.rootBits == st.rootBits && next.cs == s.codes[..k + 1]
    ensures Sendable(next, more, Finished) && s.codes[k] < Pow2(WidthAfter(st.rootBits, k))
  {
    assert ParsedAt(st.Clear(), s.codes, s.words, k);
    next := StepOf(st, s.codes[k]).st;
    SendFirst(st, s.codes[k], next, more, codes, Finished);
    StepOfParse(st, s.codes, s.words, k);
    StepKeepsWidth(st, s.codes[k]);
  }

  lemma ClearedMustFit(st: Lzw, s: Segment, rest: seq<nat>, codes: seq<nat>) returns (last: Lzw)
    requires OnTheWay(st) && Parses(st.Clear(), s.codes, s.words)
    requires codes == [st.Clear()] + (s.codes + rest) && Sendable(st, codes, Finished)
    ensures OnTheWay(last) && last.rootBits == st.rootBits && last.cs == s.codes && Sendable(last, rest, Finished)
    ensures s.Acceptable(st.rootBits)
  {
    var cleared := Lzw(st.rootBits, [], true, st.rootBits + 1);
    InitialWidth(st.rootBits, true);
    SendFirst(st, st.Clear(), cleared, s.codes + rest, codes, Finished);
    assert s.codes[0..] == s.codes;
    last := SegmentMustFit(cleared, s, 0, rest, s.codes + rest);
  }

  lemma EndMustFit(st: Lzw, codes: seq<nat>)
    requires OnTheWay(st) && codes == [st.Clear() + 1] && Sendable(st, codes, Finished)
    ensures ImageAcceptable(st.rootBits, |st.cs|, [])
  {
    EndFits(st.rootBits, |st.cs|);
  }

  lemma AcceptableFirst(rootBits: nat, n: nat, segments: seq<Segment>)
    requires segments != [] && segments[0].Acceptable(rootBits)
    requires ImageAcceptable(rootBits, |segments[0].codes|, segments[1..])
    ensures ImageAcceptable(rootBits, n, segments)
  {
    forall i | 0 <= i < |segments| ensures segments[i].Acceptable(rootBits) {
      if i > 0 { assert segments[i] == segments[1..][i - 1]; }
    }
  }

  /** The condition is exact: parses that can be sent are acceptable. */
  lemma {:induction false} SentIsAcceptable(st: Lzw, segments: seq<Segment>, codes: seq<nat>)
    requires OnTheWay(st)
    requires forall i :: 0 <= i < |segments| ==> Parses(st.Clear(), segments[i].codes, segments[i].words)
    requires codes == ImageCodes(st.Clear(), segments) && Sendable(st, codes, Finished)
    ensures ImageAcceptable(st.rootBits, |st.cs|, segments)
    decreases |segments|
  {
    if segments == [] {
      EndMustFit(st, codes);
    } else {
      var rest := ImageCodes(st.Clear(), segments[1..]);
      var last := ClearedMustFit(st, segments[0], rest, codes);
      SentIsAcceptable(last, segments[1..], rest);
      AcceptableFirst(st.rootBits, |st.cs|, segments);
    }
  }

  // ---- how decoding can fail ----

  /** Without a clear code in front: at the first code, exactly when it is a root or the first entry's. */
  lemma NoClearCodeExactly(payload: seq<byte>, at: nat, st: Lzw)
    requires st.Valid() && !st.started && st.cs == []
    ensures Decode(payload, at, st).outcome == NoClearCode <==>
              && at + st.width <= 8 * |payload|
              && var code := Val(Window(payload, at, st.width)); code < st.Clear() || code == st.Clear() + 2
  {
    if at + st.width <= 8 * |payload| {
      var code := Val(Window(payload, at, st.width));
      DecodeStep(payload, at, st, code);
      if code == st.Clear() { StartedStays(payload, at + st.width, StepOf(st, code).st); }
    }
  }

  /** After a clear code never. */
  lemma {:induction false} StartedStays(payload: seq<byte>, at: nat, st: Lzw)
    requires st.Valid() && st.started
    ensures Decode(payload, at, st).outcome != NoClearCode
    decreases 8 * |payload| - at
  {
    if at + st.width <= 8 * |payload| {
      var code := Val(Window(payload, at, st.width));
      DecodeStep(payload, at, st, code);
      match StepOf(st, code)
      case Stop(outcome) =>
      case Next(next) => StartedStays(payload, at + st.width, next);
    }
  }

  /** A payload that starts with a root: a zero byte, for any root size. */
  lemma NoClearCodeHappens(rootBits: nat, payload: seq<byte>)
    requires rootBits <= 7 && payload == [0]
    ensures Initial(rootBits).Valid() && Decode(payload, 0, Initial(rootBits)).outcome == NoClearCode
  {
    var st := Initial(rootBits);
    InitialWidth(rootBits, false);
    ZeroWindow(payload, st.width);
    NoClearCodeExactly(payload, 0, st);
  }

  lemma ZeroWindow(payload: seq<byte>, n: nat)
    requires payload == [0] && n <= 8
    ensures Val(Window(payload, 0, n)) == 0
  {
    forall i: nat | i < 8 ensures !StreamBit(payload, i) { BitOfZero(i); }
    AllFalse(Window(payload, 0, n));
  }

  lemma {:induction false} AllFalse(w: seq<bool>)
    requires forall i :: 0 <= i < |w| ==> !w[i]
    ensures Val(w) == 0
  {
    if w != [] { AllFalse(w[1..]); }
  }

  /** Zeros, coded one by one. */
  predicate IsZeroRun(s: Segment, n: nat) {
    |s.codes| == |s.words| == n && forall k :: 0 <= k < n ==> s.codes[k] == 0 && s.words[k] == [0]
  }

  lemma ZeroRunAccepted(s: Segment, n: nat, rootBits: nat)
    requires IsZeroRun(s, n) && Pow2(rootBits) + 1 + n <= MAX_CODES
    ensures s.Acceptable(rootBits)
  {
    forall k | 0 <= k < n
      ensures ParsedAt(Pow2(rootBits), s.codes, s.words, k) && s.codes[k] < Pow2(WidthAfter(rootBits, k)) {
      ZeroParsed(Pow2(rootBits), s.codes, s.words, k, WidthAfter(rootBits, k));
    }
  }

  lemma ZeroParsed(clear: nat, cs: seq<nat>, ws: seq<seq<byte>>, k: nat, width: nat)
    requires k < |cs| == |ws| && cs[k] == 0 < clear && ws[k] == [0]
    ensures ParsedAt(clear, cs, ws, k) && cs[k] < Pow2(width)
  {}

  lemma {:induction false} ZerosJoined(words: seq<seq<byte>>)
    requires forall k :: 0 <= k < |words| ==> words[k] == [0]
    ensures |Joined(words)| == |words| && forall k :: 0 <= k < |words| ==> Joined(words)[k] == 0
    decreases |words|
  {
    if words != [] { ZerosJoined(words[1..]); }
  }

  /** What fills the table: a clear code and zeros, one more than there is room for. */
  ghost predicate FillsTable(rootBits: nat, codes: seq<nat>) {
    && codes != [] && codes[0] == Pow2(rootBits) && |codes| == MAX_CODES - Pow2(rootBits) + 1
    && forall k :: 1 <= k < |codes| ==> codes[k] == 0
  }

  lemma FillingParts(rootBits: nat, codes: seq<nat>) returns (s: Segment, n: nat)
    requires rootBits <= 12 && FillsTable(rootBits, codes)
    ensures IsZeroRun(s, n) && n == MAX_CODES - Pow2(rootBits) - 1 && n > 0
    ensures codes == [Pow2(rootBits)] + (s.codes + [0])
  {
    Pow2Value(rootBits);
    n := MAX_CODES - Pow2(rootBits) - 1;
    s := Segment(codes[1..|codes| - 1], seq(n, _ => [0]));
  }

  /** A deferred clear code: of zeros after a clear code the decoder takes the first `MAX_CODES - Clear() - 1` and
      stops at the next with "too many codes", for every root size. */
  lemma TableFills(rootBits: nat, codes: seq<nat>) returns (zeros: seq<byte>)
    requires rootBits <= 12 && FillsTable(rootBits, codes)
    ensures Sends(Initial(rootBits), codes, zeros, TooManyCodes)
    ensures |zeros| == 8192 - Pow2(rootBits) - 1 && forall k :: 0 <= k < |zeros| ==> zeros[k] == 0
  {
    var st := Initial(rootBits);
    var s, n := FillingParts(rootBits, codes);
    InitialWidth(rootBits, false);
    ZeroRunAccepted(s, n, rootBits);
    var last := SegmentCleared(st, s, [0], TooManyCodes);
    zeros := Joined(s.words);
    RootsFit(rootBits, n);
    ZerosJoined(s.words);
    LastStops(last, n);
    assert zeros + Pixels(last, [0]) == zeros;
  }

  lemma LastStops(st: Lzw, n: nat)
    requires OnTheWay(st) && st.started && |st.cs| == n > 0 && n == MAX_CODES - st.Clear() - 1
    ensures Sendable(st, [0], TooManyCodes) && Pixels(st, [0]) == []
  {
    RootsFit(st.rootBits, n);
  }

  /** And so it does with the packed form of these codes, whatever follows. */
  lemma TooManyCodesHappens(rootBits: nat, codes: seq<nat>, trailer: seq<byte>, payload: seq<byte>)
    requires rootBits <= 12 && FillsTable(rootBits, codes)
    requires payload == Pack(CodeBits(Initial(rootBits), codes)) + trailer
    ensures Initial(rootBits).Valid() && Decode(payload, 0, Initial(rootBits)).outcome == TooManyCodes
    ensures |Decode(payload, 0, Initial(rootBits)).pixels| == 8192 - Pow2(rootBits) - 1
  {
    var zeros := TableFills(rootBits, codes);
    PackedDecodes(Initial(rootBits), codes, zeros, TooManyCodes, trailer, payload);
  }
}
