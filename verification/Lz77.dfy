/** The literal/length and distance alphabets (section 3.2.5 of RFC 1951), their bit encoding,
    and what a sequence of literals and back-references stands for. */
module Lz77 {
  import opened Bits
  import opened Canonical

  /** How many extra bits follow length symbol 257 + `i`. */
  function LengthExtra(i: nat): nat {
    if i < 8 || i >= 28 then 0 else (i - 4) / 4
  }

  /** The smallest length of symbol 257 + `i`: symbols cover consecutive ranges, but the last
      one stands for 258 alone. */
  function LengthBase(i: nat): nat {
    if i == 0 then 3 else if i >= 28 then 258 else LengthBase(i - 1) + Pow2(LengthExtra(i - 1))
  }

  /** How many extra bits follow distance symbol `i`. */
  function DistExtra(i: nat): nat {
    if i < 4 then 0 else (i - 2) / 2
  }

  /** The smallest distance of symbol `i`: symbols cover consecutive ranges. */
  function DistBase(i: nat): nat {
    if i == 0 then 1 else DistBase(i - 1) + Pow2(DistExtra(i - 1))
  }

  const END_OF_BLOCK: nat := 256

  /** A literal byte, or a back-reference with the symbols and extra bits that code it. */
  datatype Token =
    | Literal(b: byte)
    | Copy(lsym: nat, lextra: nat, dsym: nat, dextra: nat)
  {
    predicate WellFormed() {
      Copy? ==>
        && 257 <= lsym < 286 && lextra < Pow2(LengthExtra(lsym - 257))
        && dsym < 30 && dextra < Pow2(DistExtra(dsym))
    }

    function Length(): nat
      requires Copy? && WellFormed()
    {
      LengthBase(lsym - 257) + lextra
    }

    function Distance(): nat
      requires Copy? && WellFormed()
    {
      DistBase(dsym) + dextra
    }
  }

  // ---- meaning ----

  /** `out` followed by `len` bytes, each equal to the one `dist` places before it. */
  function CopyBack(out: seq<byte>, len: nat, dist: nat): (r: seq<byte>)
    requires 1 <= dist <= |out|
    ensures |r| == |out| + len
    decreases len
  {
    if len == 0 then out
    else var s := CopyBack(out, len - 1, dist); s + [s[|s| - dist]]
  }

  predicate Applicable(out: seq<byte>, t: Token) {
    t.WellFormed() && (t.Copy? ==> t.Distance() <= |out|)
  }

  function Apply(out: seq<byte>, t: Token): (r: seq<byte>)
    requires Applicable(out, t)
    ensures |r| > |out|
  {
    match t
    case Literal(b) => out + [b]
    case Copy(_, _, _, _) => BaseBounds(t); CopyBack(out, t.Length(), t.Distance())
  }

  /** Every back-reference points into the output before it. */
  predicate Expandable(out: seq<byte>, ts: seq<Token>)
    decreases |ts|, 0
  {
    ts == [] ||
    (var n := |ts| - 1; Expandable(out, ts[..n]) && Applicable(Expand(out, ts[..n]), ts[n]))
  }

  function Expand(out: seq<byte>, ts: seq<Token>): seq<byte>
    requires Expandable(out, ts)
    decreases |ts|, 1
  {
    if ts == [] then out else Apply(Expand(out, ts[..|ts| - 1]), ts[|ts| - 1])
  }

  lemma BaseBounds(t: Token)
    requires t.Copy? && t.WellFormed()
    ensures t.Length() >= 3 && t.Distance() >= 1
  {
    BasesPositive(t.lsym - 257);
    BasesPositive(t.dsym);
  }

  lemma {:induction false} BasesPositive(i: nat)
    ensures LengthBase(i) >= 3 && DistBase(i) >= 1
  {
    if 0 < i { BasesPositive(i - 1); }
  }

  lemma {:induction false} ExpandPrefix(out: seq<byte>, ts: seq<Token>, k: nat)
    requires Expandable(out, ts) && k <= |ts|
    ensures Expandable(out, ts[..k]) && |Expand(out, ts[..k])| <= |Expand(out, ts)|
    decreases |ts|
  {
    if k < |ts| {
      var n := |ts| - 1;
      ExpandPrefix(out, ts[..n], k);
      assert ts[..n][..k] == ts[..k];
    } else {
      assert ts[..k] == ts;
    }
  }

  lemma ExpandStep(out: seq<byte>, ts: seq<Token>, t: Token)
    requires Expandable(out, ts) && Applicable(Expand(out, ts), t)
    ensures Expandable(out, ts + [t]) && Expand(out, ts + [t]) == Apply(Expand(out, ts), t)
  {
    assert (ts + [t])[..|ts|] == ts;
  }

  /** Each byte a back-reference appends is the one `dist` places before it. */
  lemma {:induction false} CopyBackRefersBack(out: seq<byte>, len: nat, dist: nat, k: nat)
    requires 1 <= dist <= |out| && k < len
    ensures CopyBack(out, len, dist)[|out| + k] == CopyBack(out, len, dist)[|out| + k - dist]
    decreases len
  {
    if k < len - 1 { CopyBackRefersBack(out, len - 1, dist, k); }
  }

  /** So they repeat the last `dist` bytes of the output over and over. */
  lemma {:induction false} CopyBackPeriodic(out: seq<byte>, len: nat, dist: nat, k: nat)
    requires 1 <= dist <= |out| && k < len
    ensures CopyBack(out, len, dist)[|out| + k] == out[|out| - dist + k % dist]
    decreases k
  {
    CopyBackRefersBack(out, len, dist, k);
    if k < dist {
      QuotientUnique(k, dist, 0, k);
      CopyBackKeeps(out, len, dist);
      assert CopyBack(out, len, dist)[|out| + k - dist] == CopyBack(out, len, dist)[..|out|][|out| + k - dist];
    } else {
      ModStep(k, dist);
      CopyBackPeriodic(out, len, dist, k - dist);
    }
  }

  lemma {:induction false} CopyBackKeeps(out: seq<byte>, len: nat, dist: nat)
    requires 1 <= dist <= |out|
    ensures CopyBack(out, len, dist)[..|out|] == out
    decreases len
  {
    if len > 0 { CopyBackKeeps(out, len - 1, dist); }
  }

  // ---- encoding ----

  /** The two codes have a code word for every symbol the token needs. */
  predicate Encodable(ll: seq<nat>, dl: seq<nat>, t: Token) {
    match t
    case Literal(b) => b < |ll| && ll[b] > 0
    case Copy(lsym, _, dsym, _) =>
      t.WellFormed() && lsym < |ll| && ll[lsym] > 0 && dsym < |dl| && dl[dsym] > 0
  }

  /** Code words go most significant bit first, extra bits least significant bit first. */
  function TokenBits(ll: seq<nat>, dl: seq<nat>, t: Token): (b: seq<bool>)
    requires Encodable(ll, dl, t)
  {
    match t
    case Literal(b) => CodeBits(ll, b)
    case Copy(lsym, lextra, dsym, dextra) =>
      CodeBits(ll, lsym) + ToBits(lextra, LengthExtra(lsym - 257))
      + (CodeBits(dl, dsym) + ToBits(dextra, DistExtra(dsym)))
  }

  predicate AllEncodable(ll: seq<nat>, dl: seq<nat>, ts: seq<Token>) {
    forall i :: 0 <= i < |ts| ==> Encodable(ll, dl, ts[i])
  }

  function TokenStrings(ll: seq<nat>, dl: seq<nat>, ts: seq<Token>): (r: seq<seq<bool>>)
    requires AllEncodable(ll, dl, ts)
  {
    seq(|ts|, i requires 0 <= i < |ts| => TokenBits(ll, dl, ts[i]))
  }

  function TokensBits(ll: seq<nat>, dl: seq<nat>, ts: seq<Token>): seq<bool>
    requires AllEncodable(ll, dl, ts)
  {
    Concat(TokenStrings(ll, dl, ts))
  }

  /** The compressed data of one block: its tokens and the end-of-block symbol. */
  predicate BlockEncodable(ll: seq<nat>, dl: seq<nat>, ts: seq<Token>) {
    AllEncodable(ll, dl, ts) && END_OF_BLOCK < |ll| && ll[END_OF_BLOCK] > 0
  }

  function BlockBits(ll: seq<nat>, dl: seq<nat>, ts: seq<Token>): seq<bool>
    requires BlockEncodable(ll, dl, ts)
  {
    TokensBits(ll, dl, ts) + CodeBits(ll, END_OF_BLOCK)
  }

  lemma TokensBitsAppend(ll: seq<nat>, dl: seq<nat>, ts: seq<Token>, t: Token)
    requires AllEncodable(ll, dl, ts) && Encodable(ll, dl, t)
    ensures AllEncodable(ll, dl, ts + [t])
    ensures TokensBits(ll, dl, ts + [t]) == TokensBits(ll, dl, ts) + TokenBits(ll, dl, t)
  {
    assert TokenStrings(ll, dl, ts + [t]) == TokenStrings(ll, dl, ts) + [TokenBits(ll, dl, t)];
    ConcatAppend(TokenStrings(ll, dl, ts), TokenBits(ll, dl, t));
  }

  /** The bits of a block from token `k` on. */
  lemma TokensBitsFrom(ll: seq<nat>, dl: seq<nat>, ts: seq<Token>, k: nat) returns (rest: seq<bool>)
    requires AllEncodable(ll, dl, ts) && k < |ts|
    ensures TokensBits(ll, dl, ts) == TokensBits(ll, dl, ts[..k]) + TokenBits(ll, dl, ts[k]) + rest
    ensures TokensBits(ll, dl, ts[..k + 1]) == TokensBits(ll, dl, ts[..k]) + TokenBits(ll, dl, ts[k])
  {
    rest := ConcatFrom(TokenStrings(ll, dl, ts), k);
    assert TokenStrings(ll, dl, ts[..k]) == TokenStrings(ll, dl, ts)[..k];
    assert TokenStrings(ll, dl, ts[..k + 1]) == TokenStrings(ll, dl, ts)[..k + 1];
  }

  // ---- every length and distance has a token ----

  lemma {:induction false} LengthCoveredFrom(len: nat, i: nat, n: nat) returns (j: nat, lextra: nat)
    requires i <= n < 28 && LengthBase(i) <= len < LengthBase(n) + Pow2(LengthExtra(n))
    ensures j <= n && lextra < Pow2(LengthExtra(j)) && LengthBase(j) + lextra == len
    decreases n - i
  {
    if i < n && LengthBase(i + 1) <= len {
      j, lextra := LengthCoveredFrom(len, i + 1, n);
    } else {
      j, lextra := i, len - LengthBase(i);
    }
  }

  lemma {:induction false} DistanceCoveredFrom(dist: nat, i: nat, n: nat) returns (j: nat, dextra: nat)
    requires i <= n && DistBase(i) <= dist < DistBase(n) + Pow2(DistExtra(n))
    ensures j <= n && dextra < Pow2(DistExtra(j)) && DistBase(j) + dextra == dist
    decreases n - i
  {
    if i < n && DistBase(i + 1) <= dist {
      j, dextra := DistanceCoveredFrom(dist, i + 1, n);
    } else {
      j, dextra := i, dist - DistBase(i);
    }
  }

  /** Every length from 3 to 258 and every distance up to 32768 is some well-formed token's. */
  lemma EveryCopyHasToken(len: nat, dist: nat) returns (t: Token)
    requires 3 <= len <= 258 && 1 <= dist <= 32768
    ensures t.Copy? && t.WellFormed() && t.Length() == len && t.Distance() == dist
  {
    var i, lextra := LengthSymbol(len, 27);
    var j, dextra := DistanceSymbol(dist, 29);
    t := Copy(257 + i, lextra, j, dextra);
  }

  /** Together the symbols reach 258 and 32768. */
  lemma LengthTop(n: nat)
    requires 26 < n < 28
    ensures LengthBase(n) + Pow2(LengthExtra(n)) == 259
  {
    LengthTopRow(n);
    Pow2Value(LengthExtra(n));
  }

  lemma LengthTopRow(n: nat)
    requires 26 < n < 28
    ensures LengthBase(n) == 227
  {
    LengthTable(n);
  }

  lemma DistanceTop(n: nat)
    requires 28 < n < 30
    ensures DistBase(n) + Pow2(DistExtra(n)) == 32769
  {
    DistanceTopRow(n);
    Pow2Value(DistExtra(n));
  }

  lemma DistanceTopRow(n: nat)
    requires 28 < n < 30
    ensures DistBase(n) == 24577
  {
    DistanceTable(n);
  }

  lemma LengthSymbol(len: nat, n: nat) returns (i: nat, lextra: nat)
    requires 3 <= len <= 258 && n == 27
    ensures i < 29 && lextra < Pow2(LengthExtra(i)) && LengthBase(i) + lextra == len
  {
    if len == 258 {
      i, lextra := n + 1, 0;
    } else {
      LengthTop(n);
      i, lextra := LengthCoveredFrom(len, 0, n);
    }
  }

  lemma DistanceSymbol(dist: nat, n: nat) returns (j: nat, dextra: nat)
    requires 1 <= dist <= 32768 && n == 29
    ensures j < 30 && dextra < Pow2(DistExtra(j)) && DistBase(j) + dextra == dist
  {
    DistanceTop(n);
    j, dextra := DistanceCoveredFrom(dist, 0, n);
  }

  // ---- the tables of the implementation ----

  const LENGTH_BASE: seq<nat> := [
    3, 4, 5, 6, 7, 8, 9, 10, 11, 13,
    15, 17, 19, 23, 27, 31, 35, 43, 51, 59,
    67, 83, 99, 115, 131, 163, 195, 227, 258, 0, 0]
  const LENGTH_EXTRA: seq<nat> := [
    0, 0, 0, 0, 0, 0, 0, 0, 1, 1, 1, 1, 2, 2, 2, 2, 3, 3, 3, 3, 4, 4, 4, 4, 5, 5, 5, 5, 0, 0, 0]
  const DIST_BASE: seq<nat> := [
    1, 2, 3, 4, 5, 7, 9, 13, 17, 25, 33, 49, 65, 97, 129, 193,
    257, 385, 513, 769, 1025, 1537, 2049, 3073, 4097, 6145, 8193, 12289, 16385, 24577, 0, 0]
  const DIST_EXTRA: seq<nat> := [
    0, 0, 0, 0, 1, 1, 2, 2, 3, 3, 4, 4, 5, 5, 6, 6, 7, 7, 8, 8, 9, 9, 10, 10, 11, 11, 12, 12, 13, 13, 0, 0]

  lemma LengthRow(i: nat)
    requires i < 29
    ensures LENGTH_EXTRA[i] == LengthExtra(i) <= 5
  {}

  lemma LengthGap(i: nat)
    requires i < 27
    ensures LENGTH_BASE[i + 1] == LENGTH_BASE[i] + SmallPow2(LengthExtra(i))
  {}

  lemma DistanceRow(i: nat)
    requires i < 30
    ensures DIST_EXTRA[i] == DistExtra(i) <= 13
  {}

  lemma DistanceGap(i: nat)
    requires i < 29
    ensures DIST_BASE[i + 1] == DIST_BASE[i] + SmallPow2(DistExtra(i))
  {}

  /** The literal tables agree with the alphabets. */
  lemma {:induction false} LengthTable(i: nat)
    requires i < 29
    ensures LENGTH_BASE[i] == LengthBase(i) && LENGTH_EXTRA[i] == LengthExtra(i) <= 5
    decreases i
  {
    LengthRow(i);
    if 0 < i < 28 {
      LengthTable(i - 1);
      if i < 28 { LengthGap(i - 1); }
      Pow2Value(LengthExtra(i - 1));
    }
  }

  lemma {:induction false} DistanceTable(i: nat)
    requires i < 30
    ensures DIST_BASE[i] == DistBase(i) && DIST_EXTRA[i] == DistExtra(i) <= 13
    decreases i
  {
    DistanceRow(i);
    if 0 < i {
      DistanceTable(i - 1);
      DistanceGap(i - 1);
      Pow2Value(DistExtra(i - 1));
    }
  }
}
