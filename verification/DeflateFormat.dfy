/** Where the parts of a DEFLATE stream stand in a byte buffer (section 3.2 of RFC 1951). */
module DeflateFormat {
  import opened Bits
  import opened BitStream
  import opened Canonical
  import opened Lz77

  /** The code of symbol `i` stands at bit position `p`. */
  predicate SymbolAt(input: seq<byte>, p: nat, l: seq<nat>, i: nat) {
    i < |l| && l[i] > 0 && At(input, p, CodeBits(l, i))
  }

  /** Token `t` stands at bit position `p`. */
  predicate TokenAt(input: seq<byte>, p: nat, ll: seq<nat>, dl: seq<nat>, t: Token) {
    Encodable(ll, dl, t) && At(input, p, TokenBits(ll, dl, t))
  }

  /** The bits at `p` up to `end` are the compressed data of a block with these tokens. */
  predicate TokensAt(input: seq<byte>, p: nat, ll: seq<nat>, dl: seq<nat>, ts: seq<Token>, end: nat) {
    && BlockEncodable(ll, dl, ts)
    && At(input, p, BlockBits(ll, dl, ts)) && end == p + |BlockBits(ll, dl, ts)|
  }

  // ---- at most one thing stands anywhere ----

  lemma SymbolUnique(input: seq<byte>, p: nat, l: seq<nat>, i: nat, j: nat)
    requires IsLengths(l) && Fits(l) && SymbolAt(input, p, l, i) && SymbolAt(input, p, l, j)
    ensures i == j
  {
    var n := 15;
    AtStartsWindow(input, p, CodeBits(l, i), n);
    AtStartsWindow(input, p, CodeBits(l, j), n);
    PrefixFree(l, i, j, Window(input, p, n));
  }

  /** An `n`-bit number stands at `p` exactly when it is the value of the bits there. */
  lemma NumberAt(input: seq<byte>, p: nat, v: nat, n: nat)
    requires v < Pow2(n)
    ensures At(input, p, ToBits(v, n)) <==> Val(Window(input, p, n)) == v
  {
    ValOfToBits(v, n);
    QuotientUnique(v, Pow2(n), 0, v);
    ToBitsOfVal(Window(input, p, n));
    AtIsWindow(input, p, ToBits(v, n));
  }

  lemma FourAt(input: seq<byte>, p: nat, a: seq<bool>, b: seq<bool>, c: seq<bool>, d: seq<bool>, q: nat, r: nat, s: nat)
    requires q == p + |a| && r == q + |b| && s == r + |c|
    ensures At(input, p, a + b + (c + d)) <==>
            At(input, p, a) && At(input, q, b) && At(input, r, c) && At(input, s, d)
  {
    AtAppend(input, p, a + b, c + d);
    AtAppend(input, p, a, b);
    AtAppend(input, r, c, d);
  }

  lemma FieldsAt(input: seq<byte>, p: nat, a: seq<bool>, x: nat, n: nat, c: seq<bool>, y: nat, m: nat, s: seq<bool>,
                 q1: nat, q2: nat, q3: nat)
    requires x < Pow2(n) && y < Pow2(m) && s == a + ToBits(x, n) + (c + ToBits(y, m))
    requires q1 == p + |a| && q2 == q1 + n && q3 == q2 + |c|
    ensures At(input, p, s) <==>
            && At(input, p, a) && Val(Window(input, q1, n)) == x && At(input, q2, c) && Val(Window(input, q3, m)) == y
  {
    FourAt(input, p, a, ToBits(x, n), c, ToBits(y, m), q1, q2, q3);
    NumberAt(input, q1, x, n);
    NumberAt(input, q3, y, m);
  }

  /** The four fields of a back-reference, with `n` and `m` extra bits. */
  predicate CopyFields(input: seq<byte>, p: nat, ll: seq<nat>, dl: seq<nat>, t: Token, n: nat, m: nat)
    requires t.Copy? && Encodable(ll, dl, t)
  {
    && At(input, p, CodeBits(ll, t.lsym))
    && Val(Window(input, p + ll[t.lsym], n)) == t.lextra
    && At(input, p + ll[t.lsym] + n, CodeBits(dl, t.dsym))
    && Val(Window(input, p + ll[t.lsym] + n + dl[t.dsym], m)) == t.dextra
  }

  lemma CopyAt(input: seq<byte>, p: nat, ll: seq<nat>, dl: seq<nat>, t: Token, n: nat, m: nat)
    requires t.Copy? && Encodable(ll, dl, t)
    requires n == LengthExtra(t.lsym - 257) && m == DistExtra(t.dsym)
    ensures |TokenBits(ll, dl, t)| == ll[t.lsym] + n + dl[t.dsym] + m
    ensures TokenAt(input, p, ll, dl, t) <==> CopyFields(input, p, ll, dl, t, n, m)
  {
    FieldsAt(input, p, CodeBits(ll, t.lsym), t.lextra, n, CodeBits(dl, t.dsym), t.dextra, m, TokenBits(ll, dl, t),
             p + ll[t.lsym], p + ll[t.lsym] + n, p + ll[t.lsym] + n + dl[t.dsym]);
  }

  /** The first symbol of what stands at `p`. */
  function LeadingSymbol(t: Token): nat {
    if t.Literal? then t.b else t.lsym
  }

  lemma TokenStartsWithSymbol(input: seq<byte>, p: nat, ll: seq<nat>, dl: seq<nat>, t: Token)
    requires TokenAt(input, p, ll, dl, t)
    ensures SymbolAt(input, p, ll, LeadingSymbol(t))
    ensures ll[LeadingSymbol(t)] <= |TokenBits(ll, dl, t)|
  {
    if t.Copy? { CopyAt(input, p, ll, dl, t, LengthExtra(t.lsym - 257), DistExtra(t.dsym)); }
  }

  lemma CopyUnique(input: seq<byte>, p: nat, ll: seq<nat>, dl: seq<nat>, t: Token, u: Token, n: nat, m: nat, m': nat)
    requires IsLengths(dl) && Fits(dl)
    requires t.Copy? && u.Copy? && Encodable(ll, dl, t) && Encodable(ll, dl, u) && t.lsym == u.lsym
    requires CopyFields(input, p, ll, dl, t, n, m) && CopyFields(input, p, ll, dl, u, n, m')
    requires t.dsym == u.dsym ==> m == m'
    ensures t == u
  {
    SymbolUnique(input, p + ll[t.lsym] + n, dl, t.dsym, u.dsym);
  }

  lemma TokenUnique(input: seq<byte>, p: nat, ll: seq<nat>, dl: seq<nat>, t: Token, u: Token)
    requires IsLengths(ll) && Fits(ll) && IsLengths(dl) && Fits(dl)
    requires TokenAt(input, p, ll, dl, t) && TokenAt(input, p, ll, dl, u)
    ensures t == u
  {
    TokenStartsWithSymbol(input, p, ll, dl, t);
    TokenStartsWithSymbol(input, p, ll, dl, u);
    SymbolUnique(input, p, ll, LeadingSymbol(t), LeadingSymbol(u));
    if t.Copy? && u.Copy? {
      var n, m, m' := LengthExtra(t.lsym - 257), DistExtra(t.dsym), DistExtra(u.dsym);
      CopyAt(input, p, ll, dl, t, n, m);
      CopyAt(input, p, ll, dl, u, n, m');
      CopyUnique(input, p, ll, dl, t, u, n, m, m');
    }
  }

  // ---- what a decoder that reads symbol by symbol can conclude ----

  /** `z` is the symbol decoded at `p`, or -1; within the input -1 means that there is none. */
  ghost predicate Decoded(input: seq<byte>, p: nat, l: seq<nat>, z: int) {
    && (z == -1 || (0 <= z < |l| && SymbolAt(input, p, l, z)))
    && (z == -1 && p <= 8 * |input| ==> forall i :: 0 <= i < |l| ==> !SymbolAt(input, p, l, i))
  }

  /** A token that lies within the input and stands at `p`. */
  ghost predicate TokenWithin(input: seq<byte>, p: nat, ll: seq<nat>, dl: seq<nat>, t: Token) {
    TokenAt(input, p, ll, dl, t) && p + |TokenBits(ll, dl, t)| <= 8 * |input|
  }

  /** What the symbol decoded at `p` says about what stands there. */
  lemma DecodedItem(input: seq<byte>, p: nat, ll: seq<nat>, dl: seq<nat>, z: int)
    requires IsLengths(ll) && Fits(ll) && Decoded(input, p, ll, z)
    ensures forall t :: TokenWithin(input, p, ll, dl, t) ==> z == LeadingSymbol(t) && z != END_OF_BLOCK
                                                             && (t.Literal? <==> z < 256) && z < 286
    ensures SymbolAt(input, p, ll, END_OF_BLOCK) && p <= 8 * |input| ==> z == END_OF_BLOCK
  {
    forall t | TokenWithin(input, p, ll, dl, t) ensures z == LeadingSymbol(t) {
      DecodedLeading(input, p, ll, dl, z, t);
    }
    if SymbolAt(input, p, ll, END_OF_BLOCK) && p <= 8 * |input| {
      DecodedSymbol(input, p, ll, z, END_OF_BLOCK);
    }
  }

  lemma DecodedLeading(input: seq<byte>, p: nat, ll: seq<nat>, dl: seq<nat>, z: int, t: Token)
    requires IsLengths(ll) && Fits(ll) && Decoded(input, p, ll, z) && TokenWithin(input, p, ll, dl, t)
    ensures z == LeadingSymbol(t)
  {
    TokenStartsWithSymbol(input, p, ll, dl, t);
    if z >= 0 { SymbolUnique(input, p, ll, z, LeadingSymbol(t)); }
  }

  lemma DecodedDistance(input: seq<byte>, p: nat, ll: seq<nat>, dl: seq<nat>, q: nat, z: int, t: Token)
    requires IsLengths(dl) && Fits(dl) && TokenWithin(input, p, ll, dl, t) && t.Copy?
    requires q == p + ll[t.lsym] + LengthExtra(t.lsym - 257) && Decoded(input, q, dl, z)
    ensures z == t.dsym
  {
    CopyAt(input, p, ll, dl, t, LengthExtra(t.lsym - 257), DistExtra(t.dsym));
    assert SymbolAt(input, q, dl, t.dsym);
    DecodedSymbol(input, q, dl, z, t.dsym);
  }

  /** The four parts of a back-reference, read one after the other at `p`, `q1`, `q2` and `q3`. */
  lemma CopyRead(input: seq<byte>, p: nat, q1: nat, q2: nat, q3: nat, ll: seq<nat>, dl: seq<nat>, t: Token, n: nat,
                 m: nat)
    requires t.Copy? && 257 <= t.lsym < 286 && t.dsym < 30
    requires n == LengthExtra(t.lsym - 257) && m == DistExtra(t.dsym)
    requires SymbolAt(input, p, ll, t.lsym) && SymbolAt(input, q2, dl, t.dsym)
    requires q1 == p + ll[t.lsym] && q2 == q1 + n && q3 == q2 + dl[t.dsym]
    requires t.lextra == Val(Window(input, q1, n)) < Pow2(n)
    requires t.dextra == Val(Window(input, q3, m)) < Pow2(m)
    ensures TokenAt(input, p, ll, dl, t)
    ensures p + |TokenBits(ll, dl, t)| == q3 + m
  {
    assert CopyFields(input, p, ll, dl, t, n, m);
    CopyAt(input, p, ll, dl, t, n, m);
  }

  lemma DecodedSymbol(input: seq<byte>, p: nat, l: seq<nat>, z: int, i: nat)
    requires IsLengths(l) && Fits(l) && Decoded(input, p, l, z) && SymbolAt(input, p, l, i) && p <= 8 * |input|
    ensures z == i
  {
    if z >= 0 { SymbolUnique(input, p, l, z, i); }
  }

  // ---- whole blocks ----

  /** The tokens `ts` stand at `p` and end at `q`. */
  predicate RunAt(input: seq<byte>, p: nat, ll: seq<nat>, dl: seq<nat>, ts: seq<Token>, q: nat) {
    && AllEncodable(ll, dl, ts)
    && At(input, p, TokensBits(ll, dl, ts)) && q == p + |TokensBits(ll, dl, ts)|
  }

  /** The block at `p` is well formed, ends within the input at `end`, refers only to output that is
      there and fits the output: what a decoder has to accept. */
  ghost predicate BlockGoal(input: seq<byte>, p: nat, ll: seq<nat>, dl: seq<nat>, out: seq<byte>, cap: nat,
                            ts: seq<Token>, end: nat) {
    && TokensAt(input, p, ll, dl, ts, end) && end <= 8 * |input|
    && Expandable(out, ts) && |Expand(out, ts)| <= cap
  }

  lemma RunStart(input: seq<byte>, p: nat, ll: seq<nat>, dl: seq<nat>)
    ensures RunAt(input, p, ll, dl, [], p)
  {
    assert TokenStrings(ll, dl, []) == [];
  }

  lemma RunStep(input: seq<byte>, p: nat, ll: seq<nat>, dl: seq<nat>, ts: seq<Token>, q: nat, t: Token)
    requires RunAt(input, p, ll, dl, ts, q) && TokenAt(input, q, ll, dl, t)
    ensures RunAt(input, p, ll, dl, ts + [t], q + |TokenBits(ll, dl, t)|)
  {
    TokensBitsAppend(ll, dl, ts, t);
    AtAppend(input, p, TokensBits(ll, dl, ts), TokenBits(ll, dl, t));
  }

  lemma RunEnd(input: seq<byte>, p: nat, ll: seq<nat>, dl: seq<nat>, ts: seq<Token>, q: nat)
    requires RunAt(input, p, ll, dl, ts, q) && SymbolAt(input, q, ll, END_OF_BLOCK)
    ensures TokensAt(input, p, ll, dl, ts, q + ll[END_OF_BLOCK])
  {
    AtAppend(input, p, TokensBits(ll, dl, ts), CodeBits(ll, END_OF_BLOCK));
  }

  /** What follows the first `k` tokens of a block. */
  lemma BlockNext(input: seq<byte>, p: nat, ll: seq<nat>, dl: seq<nat>, ts: seq<Token>, end: nat, k: nat, q: nat)
    requires TokensAt(input, p, ll, dl, ts, end) && k <= |ts| && RunAt(input, p, ll, dl, ts[..k], q)
    ensures k < |ts| ==> TokenAt(input, q, ll, dl, ts[k]) && q + |TokenBits(ll, dl, ts[k])| <= end
    ensures k == |ts| ==> SymbolAt(input, q, ll, END_OF_BLOCK) && q + ll[END_OF_BLOCK] == end
  {
    var bits, eob := TokensBits(ll, dl, ts), CodeBits(ll, END_OF_BLOCK);
    AtAppend(input, p, bits, eob);
    if k < |ts| {
      var rest := TokensBitsFrom(ll, dl, ts, k);
      PieceAt(input, p, TokensBits(ll, dl, ts[..k]), TokenBits(ll, dl, ts[k]), rest, q);
    } else {
      assert ts[..k] == ts;
    }
  }

  lemma PieceAt(input: seq<byte>, p: nat, a: seq<bool>, b: seq<bool>, rest: seq<bool>, q: nat)
    requires At(input, p, a + b + rest) && q == p + |a|
    ensures At(input, q, b) && q + |b| <= p + |a + b + rest|
  {
    AtAppend(input, p, a + b, rest);
    AtAppend(input, p, a, b);
  }

  /** The next step towards an acceptable block is itself acceptable. */
  lemma GoalNext(input: seq<byte>, p: nat, ll: seq<nat>, dl: seq<nat>, out: seq<byte>, cap: nat, ts: seq<Token>,
                 end: nat, k: nat, q: nat)
    requires BlockGoal(input, p, ll, dl, out, cap, ts, end) && k <= |ts| && RunAt(input, p, ll, dl, ts[..k], q)
    ensures q <= 8 * |input| && Expandable(out, ts[..k])
    ensures k < |ts| ==> TokenWithin(input, q, ll, dl, ts[k]) && Applicable(Expand(out, ts[..k]), ts[k])
                         && |Apply(Expand(out, ts[..k]), ts[k])| <= cap
    ensures k == |ts| ==> SymbolAt(input, q, ll, END_OF_BLOCK) && q + ll[END_OF_BLOCK] == end
  {
    BlockNext(input, p, ll, dl, ts, end, k, q);
    ExpandPrefix(out, ts, k);
    if k < |ts| {
      ExpandPrefix(out, ts, k + 1);
      assert ts[..k + 1][..k] == ts[..k] && ts[..k + 1][k] == ts[k];
    }
  }

  /** How far a block has been decompressed: the tokens `ts` from `p` to `q` have turned `out` into `now`. */
  ghost predicate Progress(input: seq<byte>, p: nat, ll: seq<nat>, dl: seq<nat>, out: seq<byte>, ts: seq<Token>,
                           q: nat, now: seq<byte>) {
    RunAt(input, p, ll, dl, ts, q) && Expandable(out, ts) && now == Expand(out, ts)
  }

  lemma ProgressStart(input: seq<byte>, p: nat, ll: seq<nat>, dl: seq<nat>, out: seq<byte>)
    ensures Progress(input, p, ll, dl, out, [], p, out)
  {
    RunStart(input, p, ll, dl);
  }

  lemma ProgressStep(input: seq<byte>, p: nat, ll: seq<nat>, dl: seq<nat>, out: seq<byte>, ts: seq<Token>, q: nat,
                     now: seq<byte>, t: Token)
    requires Progress(input, p, ll, dl, out, ts, q, now)
    requires TokenAt(input, q, ll, dl, t) && Applicable(now, t)
    ensures Progress(input, p, ll, dl, out, ts + [t], q + |TokenBits(ll, dl, t)|, Apply(now, t))
  {
    RunStep(input, p, ll, dl, ts, q, t);
    ExpandStep(out, ts, t);
  }

  /** A decoder that is on its way to an acceptable block `want` finds there: the next token, which
      it can apply within the capacity, or the end. */
  lemma ProgressTowards(input: seq<byte>, p: nat, ll: seq<nat>, dl: seq<nat>, out: seq<byte>, cap: nat,
                        want: seq<Token>, end: nat, ts: seq<Token>, q: nat, now: seq<byte>) returns (next: Token)
    requires BlockGoal(input, p, ll, dl, out, cap, want, end)
    requires Progress(input, p, ll, dl, out, ts, q, now) && ts <= want
    ensures q <= 8 * |input|
    ensures ts == want ==> SymbolAt(input, q, ll, END_OF_BLOCK) && q + ll[END_OF_BLOCK] == end
    ensures ts != want ==>
              && TokenWithin(input, q, ll, dl, next) && Applicable(now, next) && |Apply(now, next)| <= cap
              && ts + [next] <= want
  {
    var k := |ts|;
    assert want[..k] == ts;
    GoalNext(input, p, ll, dl, out, cap, want, end, k, q);
    next := if k < |want| then want[k] else Literal(0);
  }

  /** At most one block stands at a position: the encoding of tokens can be read in one way only. */
  lemma TokensUnique(input: seq<byte>, p: nat, ll: seq<nat>, dl: seq<nat>, ts: seq<Token>, end: nat, us: seq<Token>,
                     end': nat)
    requires IsLengths(ll) && Fits(ll) && IsLengths(dl) && Fits(dl)
    requires TokensAt(input, p, ll, dl, ts, end) && TokensAt(input, p, ll, dl, us, end')
    ensures ts == us && end == end'
  {
    RunStart(input, p, ll, dl);
    TokensUniqueFrom(input, p, ll, dl, ts, end, us, end', [], p);
  }

  lemma {:induction false} TokensUniqueFrom(input: seq<byte>, p: nat, ll: seq<nat>, dl: seq<nat>, ts: seq<Token>,
                                            end: nat, us: seq<Token>, end': nat, common: seq<Token>, q: nat)
    requires IsLengths(ll) && Fits(ll) && IsLengths(dl) && Fits(dl)
    requires TokensAt(input, p, ll, dl, ts, end) && TokensAt(input, p, ll, dl, us, end')
    requires common <= ts && common <= us && RunAt(input, p, ll, dl, common, q)
    ensures ts == us && end == end'
    decreases |ts| - |common|
  {
    if common == ts && common == us {
      return;
    }
    var t := CommonStep(input, p, ll, dl, ts, end, us, end', common, q);
    TokensUniqueFrom(input, p, ll, dl, ts, end, us, end', common + [t], q + |TokenBits(ll, dl, t)|);
  }

  /** Two readings of the same bits that agree so far agree on the next token. */
  lemma CommonStep(input: seq<byte>, p: nat, ll: seq<nat>, dl: seq<nat>, ts: seq<Token>, end: nat,
                   us: seq<Token>, end': nat, common: seq<Token>, q: nat) returns (t: Token)
    requires IsLengths(ll) && Fits(ll) && IsLengths(dl) && Fits(dl)
    requires TokensAt(input, p, ll, dl, ts, end) && TokensAt(input, p, ll, dl, us, end')
    requires common <= ts && common <= us && RunAt(input, p, ll, dl, common, q)
    requires common != ts || common != us
    ensures common + [t] <= ts && common + [t] <= us
    ensures Encodable(ll, dl, t) && RunAt(input, p, ll, dl, common + [t], q + |TokenBits(ll, dl, t)|)
  {
    var k := |common|;
    assert ts[..k] == common && us[..k] == common;
    BlockNext(input, p, ll, dl, ts, end, k, q);
    BlockNext(input, p, ll, dl, us, end', k, q);
    if k == |ts| {
      EndIsNoToken(input, q, ll, dl, us[k]);
    } else if k == |us| {
      EndIsNoToken(input, q, ll, dl, ts[k]);
    } else {
      TokenUnique(input, q, ll, dl, ts[k], us[k]);
    }
    t := ts[k];
    PrefixExtends(common, ts);
    PrefixExtends(common, us);
    RunStep(input, p, ll, dl, common, q, t);
  }

  lemma PrefixExtends<T>(a: seq<T>, b: seq<T>)
    requires a <= b && |a| < |b|
    ensures a + [b[|a|]] <= b
  {}

  lemma EndIsNoToken(input: seq<byte>, q: nat, ll: seq<nat>, dl: seq<nat>, t: Token)
    requires IsLengths(ll) && Fits(ll) && TokenAt(input, q, ll, dl, t)
    ensures !SymbolAt(input, q, ll, END_OF_BLOCK)
  {
    TokenStartsWithSymbol(input, q, ll, dl, t);
    if SymbolAt(input, q, ll, END_OF_BLOCK) {
      SymbolUnique(input, q, ll, LeadingSymbol(t), END_OF_BLOCK);
    }
  }
}
