/** JPEG's entropy coding in plain numbers (ITU-T T.81): stuffed bytes and markers, the order of bits, signed values and
    the order of codes. */
module JpegPlain {
  import opened Bits
  import opened JpegHuffman
  import opened JpegDecode

  // ---- stuffing (section B.1.1.5) ----

  /** An encoder's data: a zero byte behind every 0xFF. */
  function Stuffed(s: seq<byte>): (data: seq<byte>)
    ensures |data| >= |s|
  {
    if s == [] then []
    else Stuffed(s[..|s| - 1]) + (if s[|s| - 1] == 0xFF then [0xFF, 0x00] else [s[|s| - 1]])
  }

  predicate StartsWith(data: seq<byte>, s: seq<byte>) {
    |s| <= |data| && data[..|s|] == s
  }

  lemma StartParts(data: seq<byte>, a: seq<byte>, b: seq<byte>)
    requires StartsWith(data, a + b)
    ensures StartsWith(data, a) && |a| + |b| <= |data| && data[|a|..|a| + |b|] == b
  {
    assert data[..|a|] == data[..|a + b|][..|a|] == (a + b)[..|a|];
    assert data[|a|..|a| + |b|] == data[..|a + b|][|a|..] == (a + b)[|a|..];
  }

  /** One byte of the encoder's is read back. */
  lemma OneByteRead(data: seq<byte>, p: nat, b: byte, t: seq<byte>)
    requires t == if b == 0xFF then [0xFF, 0x00] else [b]
    requires p + |t| <= |data| && data[p..p + |t|] == t
    ensures NextByte(data, p) == Byte(b, p + |t|)
  {
    assert data[p] == data[p..p + |t|][0];
    if b == 0xFF { assert data[p + 1] == data[p..p + |t|][1]; }
  }

  /** All bytes are read back, whatever comes behind them. */
  lemma {:induction false} StuffedRead(data: seq<byte>, s: seq<byte>)
    requires StartsWith(data, Stuffed(s))
    ensures SourceAt(data, |s|) == Some(|Stuffed(s)|)
    ensures forall i: nat :: i < |s| ==> !Ended(data, i) && EntropyByte(data, i) == s[i]
    decreases |s|
  {
    if s != [] {
      var n := |s| - 1;
      var t := if s[n] == 0xFF then [0xFF, 0x00] else [s[n]];
      StartParts(data, Stuffed(s[..n]), t);
      StuffedRead(data, s[..n]);
      OneByteRead(data, |Stuffed(s[..n])|, s[n], t);
      forall i: nat | i < |s| ensures !Ended(data, i) && EntropyByte(data, i) == s[i] {
        if i < n { assert EntropyByte(data, i) == s[..n][i]; }
      }
    }
  }

  lemma {:induction false} FillSkipped(data: seq<byte>, p: nat, q: nat)
    requires p <= q && forall i: nat :: p <= i < q ==> Get(data, i) == 0xFF
    requires Get(data, q) != 0xFF
    ensures SkipFill(data, p) == q
    decreases q - p
  {
    if p < q { FillSkipped(data, p + 1, q); }
  }

  /** A marker, with any fill bytes in front of it, ends the data: from there on there are zeros. */
  lemma MarkerEnds(data: seq<byte>, s: seq<byte>, q: nat, m: byte)
    requires StartsWith(data, Stuffed(s)) && m != 0 && m != 0xFF && |Stuffed(s)| < q < |data| && data[q] == m
    requires forall i: nat :: |Stuffed(s)| <= i < q ==> Get(data, i) == 0xFF
    ensures NextByte(data, |Stuffed(s)|) == Marker(m, q + 1) && Ended(data, |s|)
    ensures forall i: nat :: i >= |s| ==> EntropyByte(data, i) == 0
  {
    StuffedRead(data, s);
    FillSkipped(data, |Stuffed(s)| + 1, q);
    assert Ended(data, |s|);
    forall i: nat | i >= |s| ensures EntropyByte(data, i) == 0 { EndedFrom(data, |s|, i); }
  }

  lemma {:induction false} EndedFrom(data: seq<byte>, n: nat, i: nat)
    requires Ended(data, n) && n <= i
    ensures Ended(data, i)
    decreases i
  {
    if n < i {
      EndedFrom(data, n, i - 1);
      EndedStays(data, i - 1);
    }
  }

  // ---- the order of bits (section C.3) ----

  /** Bits come most significant first: eight of them are a byte, sixteen two. */
  lemma BitsAreBytes(data: seq<byte>, i: nat)
    ensures NextBits(data, 8 * i, 8) == EntropyByte(data, i)
    ensures NextBits(data, 8 * i, 1) == EntropyByte(data, i) / 128
  {
    var n, seven := 8, 7;
    Pow2Value(n);
    Pow2Value(0);
    assert (8 * i + n + 7) / 8 == i + 1;
    ByteField(BigEndian(data, i), EntropyByte(data, i));
    NextBitsWithin(data, 8 * i, n, 8 * i, 1, seven);
    Pow2Value(seven);
    Pow2Value(1);
    FirstBit(EntropyByte(data, i));
  }

  lemma ByteField(v: nat, b: byte)
    ensures BitField(v * 256 + b, 0, 8) == b
  {
    var n := 8;
    Pow2Value(n);
    Pow2Value(0);
    QuotientUnique(v * 256 + b, 256, v, b);
  }

  lemma FirstBit(b: byte)
    ensures b / 128 % 2 == b / 128
  {}

  // ---- signed values (section F.1.2.1) ----

  /** What an encoder sends for a value of size `n`: the value, or for a negative one the value minus one, in the low
      `n` bits. */
  function ValueBits(x: int, n: nat): int {
    if x > 0 then x else x - 1 + Pow2(n)
  }

  /** A value of size `n` has between n - 1 and n bits; its bits are read back as the value. */
  lemma ValueBack(x: int, n: nat)
    requires 1 <= n && (Pow2(n - 1) <= x < Pow2(n) || Pow2(n - 1) <= -x < Pow2(n))
    ensures 0 <= ValueBits(x, n) < Pow2(n) && Extend(ValueBits(x, n), n) == x
  {}

  lemma ValuesOfThreeBits()
    ensures Extend(0, 3) == -7 && Extend(3, 3) == -4 && Extend(4, 3) == 4 && Extend(7, 3) == 7
    ensures Extend(0, 1) == -1 && Extend(1, 1) == 1
  {
    var n := 3;
    Pow2Value(n);
    Pow2Value(n - 1);
    Pow2Value(1);
    Pow2Value(0);
  }

  // ---- the order of codes (figures C.1 and C.2) ----

  /** As many symbols have a length as were counted for it. */
  lemma {:induction false} CountedSizes(count: seq<nat>, n: nat, j: nat)
    requires n <= |count|
    ensures multiset(SizesOf(count, n))[j] == if 1 <= j <= n then count[j - 1] else 0
    decreases n
  {
    if n > 0 {
      CountedSizes(count, n - 1, j);
      CopiesCounted(n, count[n - 1], j);
      assert multiset(SizesOf(count, n)) == multiset(SizesOf(count, n - 1)) + multiset(Constant(n, count[n - 1]));
    } else {
      assert SizesOf(count, n) == [];
    }
  }

  lemma {:induction false} CopiesCounted(v: nat, n: nat, j: nat)
    ensures multiset(Constant(v, n))[j] == if j == v then n else 0
    decreases n
  {
    if n > 0 {
      CopiesCounted(v, n - 1, j);
      assert Constant(v, n) == Constant(v, n - 1) + [v];
    } else {
      assert Constant(v, n) == [];
    }
  }

  /** The first code is all zeros; the next is one more, with zeros behind it if it is longer. */
  lemma CodesFollow(s: seq<nat>, k: nat)
    requires IsSizes(s) && k < |s|
    ensures k == 0 ==> Code(s, k) == 0
    ensures k + 1 < |s| ==> s[k] <= s[k + 1] && Code(s, k + 1) == (Code(s, k) + 1) * Pow2(s[k + 1] - s[k])
  {
    CodeIs(s, k);
    if k == 0 { QuotientUnique(0, Pow2(16 - s[k]), 0, 0); }
    if k + 1 < |s| {
      CodeIs(s, k + 1);
      var e := s[k + 1] - s[k];
      Pow2Add(e, 16 - s[k + 1]);
      MulAssociate(Code(s, k) + 1, Pow2(e), Pow2(16 - s[k + 1]));
      QuotientUnique(Start(s, k + 1), Pow2(16 - s[k + 1]), Code(s, k + 1), 0);
      QuotientUnique(Start(s, k + 1), Pow2(16 - s[k + 1]), (Code(s, k) + 1) * Pow2(e), 0);
    }
  }
}
