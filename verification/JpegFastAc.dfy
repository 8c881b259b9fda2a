/** The table that decodes a short Huffman code and the short signed value behind it in one step, against the two
    steps that it stands for. */
module JpegFastAc {
  import opened Bits
  import opened JpegHuffman
  import opened JpegDecode

  /** The unsigned result of C's arithmetic, stored in a signed variable. */
  function AsInt32(u: nat): int {
    if u < 0x8000_0000 then u else u - WORD
  }

  /** `k + (~0U << n) + 1`, with which a value below the middle is made negative. */
  function Negated(k: nat, n: nat): int
    requires n <= 32
  {
    AsInt32((k + (WORD - Pow2(n)) + 1) % WORD)
  }

  lemma NegatedIs(k: nat, n: nat)
    requires 1 <= n <= 9 && k < Pow2(n - 1)
    ensures Negated(k, n) == k - Pow2(n) + 1
  {
    Pow2Value(n);
    QuotientUnique(k + (WORD - Pow2(n)) + 1, WORD, 0, k + (WORD - Pow2(n)) + 1);
  }

  /** What the table has for nine bits `i` whose symbol has a code of `len` bits and is `rs`: run, value and
      number of bits in one number, or 0. */
  function Entry(i: nat, len: nat, rs: nat): int {
    var run, mag := rs / 16, rs % 16;
    if mag > 0 && len + mag <= FAST_BITS then
      var v := Extend(i * Pow2(len) % FAST_SIZE / Pow2(FAST_BITS - mag), mag);
      if -128 <= v <= 127 then v * 256 + run * 16 + (len + mag) else 0
    else 0
  }

  /** An entry that is there can be taken apart again. */
  lemma EntryParts(i: nat, len: nat, rs: byte)
    requires Entry(i, len, rs) != 0
    ensures var r, mag := Entry(i, len, rs), rs % 16;
            && 1 <= mag && len + mag <= FAST_BITS
            && r / 256 == Extend(i * Pow2(len) % FAST_SIZE / Pow2(FAST_BITS - mag), mag)
            && r / 16 % 16 == rs / 16 && r % 16 == len + mag
  {
    var v := Extend(i * Pow2(len) % FAST_SIZE / Pow2(FAST_BITS - rs % 16), rs % 16);
    Unpacked(v, rs / 16, len + rs % 16);
  }

  lemma Unpacked(v: int, run: nat, n: nat)
    requires run < 16 && n < 16
    ensures var r := v * 256 + run * 16 + n; r / 256 == v && r / 16 % 16 == run && r % 16 == n
  {
    QuotientUnique(v * 256 + run * 16 + n, 256, v, run * 16 + n);
    QuotientUnique(v * 256 + run * 16 + n, 16, v * 16 + run, n);
    QuotientUnique(v * 16 + run, 16, v, run);
  }

  ghost predicate FastAc(fac: seq<int>, h: Huffman, s: seq<nat>)
    requires h.Describes(s)
    reads h.fast, h.size, h.maxcode, h.delta, h.values
  {
    |fac| == FAST_SIZE &&
    forall i: nat :: i < FAST_SIZE ==>
      fac[i] == if h.fast[i] < 255 then Entry(i, s[h.fast[i]], h.values[h.fast[i]]) else 0
  }

  method BuildFastAc(h: Huffman, ghost s: seq<nat>) returns (fac: array<int>)
    requires h.Describes(s)
    ensures fresh(fac) && FastAc(fac[..], h, s)
  {
    fac := new int[FAST_SIZE];
    for i := 0 to FAST_SIZE
      invariant forall j: nat :: j < i ==>
                  fac[j] == if h.fast[j] < 255 then Entry(j, s[h.fast[j]], h.values[h.fast[j]]) else 0
    {
      fac[i] := 0;
      var fast := h.fast[i];
      if fast < 255 {
        h.SizeAt(s, fast);
        fac[i] := BuildEntry(i, h.size[fast], h.values[fast]);
      }
    }
  }

  /** One entry. */
  method BuildEntry(i: nat, len: nat, rs: byte) returns (r: int)
    requires i < FAST_SIZE
    ensures r == Entry(i, len, rs)
  {
    var n := 4;
    MaskIsMod(rs, n);
    Pow2Value(n);
    RunMask(rs);
    var run := BitAnd(Shr(rs, 4), 15);
    var magbits := BitAnd(rs, 15);
    r := 0;
    if magbits != 0 && len + magbits <= FAST_BITS {
      MaskNine(Shl(i, len));
      var k: int := Shr(BitAnd(Shl(i, len), FAST_SIZE - 1), FAST_BITS - magbits);
      if k < Shl(1, magbits - 1) {
        NegatedIs(k, magbits);
        k := Negated(k, magbits);
      }
      if k >= -128 && k <= 127 { r := k * 256 + run * 16 + (len + magbits); }
    }
  }

  lemma RunMask(rs: byte)
    ensures BitAnd(Shr(rs, 4), 15) == rs / 16
  {
    var n := 4;
    Pow2Value(n);
    MaskIsMod(Shr(rs, n), n);
    QuotientUnique(rs / 16, 16, 0, rs / 16);
  }

  lemma MaskNine(v: nat)
    ensures BitAnd(v, FAST_SIZE - 1) == v % FAST_SIZE
  {
    var n := FAST_BITS;
    Pow2Value(n);
    MaskIsMod(v, n);
  }

  // ---- agreement ----

  /** The bits of the value, cut out of the next nine bits or read behind the code. */
  lemma SameBits(data: seq<byte>, p: nat, len: nat, mag: nat)
    requires len + mag <= FAST_BITS
    ensures NextBits(data, p, FAST_BITS) * Pow2(len) % FAST_SIZE / Pow2(FAST_BITS - mag) == NextBits(data, p + len, mag)
  {
    var low := FAST_BITS - (len + mag);
    Pow2Add(low, mag);
    Pow2Add(low + mag, len);
    Pow2Add(len, low);
    Pow2Value(FAST_BITS);
    assert low + mag + len == FAST_BITS && len + low == FAST_BITS - mag;
    TopDigit(NextBits(data, p, FAST_BITS), Pow2(len), Pow2(mag), Pow2(low), FAST_SIZE);
    NextBitsWithin(data, p, FAST_BITS, p + len, mag, low);
  }

  /** The first nine of sixteen bits. */
  lemma NineOfSixteen(data: seq<byte>, p: nat)
    ensures NextBits(data, p, FAST_BITS) == NextBits(data, p, 16) / 128 < FAST_SIZE
  {
    var n := 16;
    NextBitsWithin(data, p, n, p, FAST_BITS, 7);
    Pow2Value(7);
    Pow2Value(FAST_BITS);
    Pow2Value(n);
    QuotientNonNegative(NextBits(data, p, n), 128);
    QuotientUnique(NextBits(data, p, n) / 128, FAST_SIZE, 0, NextBits(data, p, n) / 128);
  }

  /** The run and the value that an entry holds. */
  function Held(r: int): (int, int) {
    (r / 16 % 16, r / 256)
  }

  /** What an entry says about the bits that come next: symbol `k` stands there, with its run and a value of `mag`
      bits behind it at bit `q`. */
  lemma EntryTells(fac: seq<int>, h: Huffman, s: seq<nat>, data: seq<byte>, p: nat, c: nat, r: int)
    returns (k: nat, mag: nat, q: nat)
    requires h.Describes(s) && FastAc(fac, h, s) && c == NextBits(data, p, FAST_BITS) < FAST_SIZE
    requires r == fac[c] != 0
    ensures Matches(s, k, NextBits(data, p, 16)) && k < 255
    ensures mag == h.values[k] % 16 > 0 && q == p + s[k] && s[k] + mag <= FAST_BITS && r % 16 == s[k] + mag
    ensures Held(r) == (h.values[k] as int / 16, Extend(NextBits(data, q, mag), mag))
  {
    k := h.fast[c];
    assert h.fast[..][c] == k;
    NineOfSixteen(data, p);
    NineBitsDecide(s, k, NextBits(data, p, 16), c);
    EntryParts(c, s[k], h.values[k]);
    mag, q := h.values[k] % 16, p + s[k];
    SameBits(data, p, s[k], mag);
  }

  /** A coefficient in one step; `None` when the table has no entry or the bits are not there. */
  method FastCoefficient(j: Reader, fac: array<int>, ghost c: nat) returns (rv: Option<(int, int)>)
    requires j.Valid() && fac.Length == FAST_SIZE && (j.codeBits >= 16 || j.nomore)
    requires c == NextBits(j.data, j.cur, FAST_BITS)
    modifies j`codeBuffer, j`codeBits, j`cur
    ensures c < FAST_SIZE && j.Valid()
    ensures var r := fac[c];
            if r == 0 || r % 16 > old(j.codeBits) then rv == None && j.cur == old(j.cur)
            else rv == Some(Held(r)) && j.cur == old(j.cur) + r % 16
  {
    NineOfSixteen(j.data, j.cur);
    j.TopIsNext(FAST_BITS);
    var r := fac[Top(j.codeBuffer, FAST_BITS)];
    if r == 0 { return None; }
    var n := r % 16;
    if n > j.codeBits { return None; }
    j.Consume(n);
    rv := Some(Held(r));
  }

  /** A coefficient in two steps: the symbol with run and size, then the value; `None` for a symbol without a value
      and for an unknown code. `next` says whether symbol `k` comes next, with a value of `mag` bits at bit `q`. */
  method SlowCoefficient(j: Reader, h: Huffman, ghost s: seq<nat>,
                         ghost next: bool, ghost k: nat, ghost w: nat, ghost mag: nat, ghost q: nat)
    returns (rv: Option<(int, int)>)
    requires j.Valid() && h.Describes(s) && w == NextBits(j.data, j.cur, 16)
    requires next ==> Matches(s, k, w) && k < 255 && (j.codeBits >= 16 || j.nomore)
    requires next ==> mag == h.values[k] % 16 > 0 && s[k] + mag <= 16 && q == j.cur + s[k]
    modifies j`pos, j`codeBuffer, j`codeBits, j`nomore, j`marker, j`fed, j`cur
    ensures next ==> k < 255 && rv == Some((h.values[k] as int / 16, Extend(NextBits(j.data, q, mag), mag)))
    ensures next ==> j.cur == q + mag && j.Valid()
  {
    var rs := FirstStep(j, h, s, next, k, w, mag);
    if rs < 0 { return None; }
    assert next ==> rs % 16 == mag && j.cur == q;
    rv := ReadValue(j, rs);
  }

  /** The first step. */
  method FirstStep(j: Reader, h: Huffman, ghost s: seq<nat>,
                   ghost next: bool, ghost k: nat, ghost w: nat, ghost mag: nat)
    returns (rs: int)
    requires j.Valid() && h.Describes(s) && w == NextBits(j.data, j.cur, 16)
    requires next ==> Matches(s, k, w) && k < 255 && (j.codeBits >= 16 || j.nomore) && s[k] + mag <= 16
    modifies j`pos, j`codeBuffer, j`codeBits, j`nomore, j`marker, j`fed, j`cur
    ensures rs == -1 || (0 <= rs < 256 && j.Valid())
    ensures next ==> rs == h.values[k] as int && j.cur == old(j.cur) + s[k] && j.codeBits >= mag
  {
    rs := j.HuffDecode(h, s, w);
    if next { assert Matches(s, k, w) && !Misread(s, k); }
  }

  /** The second step. */
  method ReadValue(j: Reader, rs: byte) returns (rv: Option<(int, int)>)
    requires j.Valid()
    modifies j`pos, j`codeBuffer, j`codeBits, j`nomore, j`marker, j`fed, j`cur
    ensures rs % 16 > 0 && (old(j.codeBits) >= rs % 16 || old(j.nomore)) ==>
              && rv == Some((rs as int / 16, Extend(NextBits(j.data, old(j.cur), rs % 16), rs % 16)))
              && j.Valid() && j.cur == old(j.cur) + rs % 16
  {
    var size, run: int := rs % 16, rs / 16;
    if size == 0 { return None; }
    var v := j.ExtendReceive(size);
    rv := Some((run, v));
  }

  /** The one step, in terms of the symbol that it has decoded. */
  method FastSymbol(j: Reader, h: Huffman, ghost s: seq<nat>, fac: array<int>, ghost w: nat)
    returns (rv: Option<(int, int)>, ghost k: nat, ghost mag: nat, ghost q: nat)
    requires j.Valid() && (j.codeBits >= 16 || j.nomore) && h.Describes(s) && FastAc(fac[..], h, s)
    requires w == NextBits(j.data, j.cur, 16)
    modifies j`codeBuffer, j`codeBits, j`cur
    ensures rv.Some? ==> Matches(s, k, w) && k < 255 && mag == h.values[k] % 16 > 0 && s[k] + mag <= 16
    ensures rv.Some? ==> q == old(j.cur) + s[k] && j.cur == q + mag && j.Valid()
    ensures rv.Some? ==> k < 255 && rv == Some((h.values[k] as int / 16, Extend(NextBits(j.data, q, mag), mag)))
  {
    ghost var p, c := j.cur, NextBits(j.data, j.cur, FAST_BITS);
    k, mag, q := 0, 0, 0;
    rv := FastCoefficient(j, fac, c);
    if rv.Some? {
      k, mag, q := EntryTells(fac[..], h, s, j.data, p, c, fac[c]);
    }
  }

  /** Whenever the table has an entry and its bits are there, one step and two steps from the same state give the
      same run and value and take the same bits. */
  method BothAgree(j: Reader, j': Reader, h: Huffman, ghost s: seq<nat>, fac: array<int>)
    returns (fast: Option<(int, int)>, slow: Option<(int, int)>)
    requires j != j' && j.Valid() && j'.Valid() && j.data == j'.data && j.cur == j'.cur
    requires (j.codeBits >= 16 || j.nomore) && (j'.codeBits >= 16 || j'.nomore)
    requires h.Describes(s) && FastAc(fac[..], h, s)
    modifies j`codeBuffer, j`codeBits, j`cur
    modifies j'`pos, j'`codeBuffer, j'`codeBits, j'`nomore, j'`marker, j'`fed, j'`cur
    ensures fast.Some? ==> slow == fast && j'.cur == j.cur && j.Valid() && j'.Valid()
  {
    ghost var w := NextBits(j.data, j.cur, 16);
    ghost var k, mag, q;
    fast, k, mag, q := FastSymbol(j, h, s, fac, w);
    slow := SlowCoefficient(j', h, s, fast.Some?, k, w, mag, q);
  }
}
