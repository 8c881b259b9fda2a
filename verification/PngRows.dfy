/** Writing scanlines: the row of samples, of any depth, that is read as given pixels. */
module PngRows {
  import opened Bits
  import opened PngImage

  // ---- pixels that can be written ----

  /** A sample below eight bits, as the output has it. */
  predicate IsSample(f: Format, v: byte)
    requires f.WellFormed() && f.depth < 8
  {
    v % Scale(f) == 0 && v / Scale(f) < SmallPow2(f.depth)
  }

  /** An output pixel whose samples the format has, opaque when the channel is an added one. */
  predicate Writable(f: Format, p: seq<byte>)
    requires f.WellFormed()
  {
    && |p| == f.PixelBytes() && f.imgN * f.SampleBytes() <= |p| && p[f.imgN * f.SampleBytes()..] == Alpha(f)
    && (f.depth < 8 ==> forall c :: 0 <= c < f.imgN ==> IsSample(f, p[c]))
  }

  /** Item `k` of a row of items of `w` bytes. */
  function Item(p: seq<byte>, w: nat, k: nat): (s: seq<byte>) {
    if Times(k, w) + w <= |p| then p[Times(k, w)..Times(k, w) + w] else []
  }

  predicate WritableRow(f: Format, p: seq<byte>, x: nat)
    requires f.WellFormed()
  {
    |p| == Times(x, f.PixelBytes()) && forall k: nat :: k < x ==> Writable(f, Item(p, f.PixelBytes(), k))
  }

  // ---- the samples of a row ----

  /** The first `w` bytes of every pixel: its samples without the added one. */
  function Strip(p: seq<byte>, w: nat, pixel: nat, x: nat): (s: seq<byte>)
    requires w <= pixel && |p| == Times(x, pixel)
    ensures |s| == Times(x, w)
    decreases x
  {
    if x == 0 then [] else Strip(p[..Times(x - 1, pixel)], w, pixel, x - 1) + p[Times(x - 1, pixel)..][..w]
  }

  lemma {:induction false} PixelsPrefix(s: seq<byte>, t: seq<byte>, w: nat, alpha: seq<byte>, x: nat)
    requires x * w <= |s|
    ensures x * w <= |s + t| && Pixels(s + t, w, alpha, x) == Pixels(s, w, alpha, x)
    decreases x
  {
    if x > 0 {
      MulDistribute(x - 1, 1, w);
      PixelsPrefix(s, t, w, alpha, x - 1);
      assert (s + t)[(x - 1) * w..x * w] == s[(x - 1) * w..x * w];
    }
  }

  /** One pixel more. */
  lemma PixelsAppend(s: seq<byte>, t: seq<byte>, w: nat, alpha: seq<byte>, x: nat, y: nat)
    requires |s| == x * w && |t| == w && y == x + 1
    ensures y * w == |s + t| && Pixels(s + t, w, alpha, y) == Pixels(s, w, alpha, x) + t + alpha
  {
    MulDistribute(x, 1, w);
    PixelsPrefix(s, t, w, alpha, x);
    assert (s + t)[x * w..y * w] == t;
  }

  /** With the samples stripped and alpha added again, a row is what it was. */
  lemma {:induction false} StripUndone(p: seq<byte>, w: nat, pixel: nat, alpha: seq<byte>, x: nat)
    requires pixel == w + |alpha| && |p| == Times(x, pixel)
    requires forall k: nat :: k < x ==> |Item(p, pixel, k)| == pixel && Item(p, pixel, k)[w..] == alpha
    ensures |Strip(p, w, pixel, x)| == x * w && Pixels(Strip(p, w, pixel, x), w, alpha, x) == p
    decreases x
  {
    TimesIs(x, w);
    if x > 0 {
      var before, last := p[..Times(x - 1, pixel)], p[Times(x - 1, pixel)..];
      ItemsBefore(p, pixel, x - 1, w, alpha);
      StripUndone(before, w, pixel, alpha, x - 1);
      PixelsAppend(Strip(before, w, pixel, x - 1), last[..w], w, alpha, x - 1, x);
      assert last == Item(p, pixel, x - 1);
      Joint(p, before, last, w, alpha);
    }
  }

  lemma Joint(p: seq<byte>, before: seq<byte>, last: seq<byte>, w: nat, alpha: seq<byte>)
    requires p == before + last && w <= |last| && last[w..] == alpha
    ensures before + last[..w] + alpha == p
  {}

  lemma ItemsBefore(p: seq<byte>, pixel: nat, x: nat, w: nat, alpha: seq<byte>)
    requires |p| == Times(x, pixel) + pixel && w <= pixel
    requires forall k: nat :: k < x + 1 ==> |Item(p, pixel, k)| == pixel && Item(p, pixel, k)[w..] == alpha
    ensures var before := p[..Times(x, pixel)];
            forall k: nat :: k < x ==> |Item(before, pixel, k)| == pixel && Item(before, pixel, k)[w..] == alpha
  {
    var before := p[..Times(x, pixel)];
    forall k: nat | k < x ensures Item(before, pixel, k) == Item(p, pixel, k) {
      TimesMonotone(k, x, pixel);
    }
  }

  /** The samples below eight bits of writable pixels. */
  lemma {:induction false} StripSamples(f: Format, p: seq<byte>, w: nat, pixel: nat, x: nat)
    requires f.WellFormed() && f.depth < 8 && w == f.imgN && pixel == f.PixelBytes() && w <= pixel
    requires WritableRow(f, p, x)
    ensures forall i :: 0 <= i < |Strip(p, w, pixel, x)| ==> IsSample(f, Strip(p, w, pixel, x)[i])
    decreases x
  {
    if x > 0 {
      var before, last := p[..Times(x - 1, pixel)], p[Times(x - 1, pixel)..];
      forall k: nat | k < x - 1 ensures Writable(f, Item(before, pixel, k)) {
        TimesMonotone(k, x - 1, pixel);
        assert Item(before, pixel, k) == Item(p, pixel, k);
      }
      StripSamples(f, before, w, pixel, x - 1);
      assert last == Item(p, pixel, x - 1);
    }
  }

  // ---- packing samples below eight bits ----

  /** Sample `i` as it is stored; zeros behind the last. */
  function Stored(f: Format, s: seq<byte>, i: nat): nat
    requires f.WellFormed() && f.depth < 8
  {
    if i < |s| then
      QuotientNonNegative(s[i], Scale(f));
      s[i] / Scale(f)
    else 0
  }

  /** `m` samples from number `at` on, the first in the high bits. */
  function Packed(f: Format, s: seq<byte>, at: nat, m: nat): nat
    requires f.WellFormed() && f.depth < 8
  {
    if m == 0 then 0 else Packed(f, s, at, m - 1) * Pow2(f.depth) + Stored(f, s, at + m - 1)
  }

  predicate AreSamples(f: Format, s: seq<byte>)
    requires f.WellFormed() && f.depth < 8
  {
    forall i :: 0 <= i < |s| ==> IsSample(f, s[i])
  }

  lemma StoredBound(f: Format, s: seq<byte>, i: nat)
    requires f.WellFormed() && f.depth < 8 && AreSamples(f, s)
    ensures Stored(f, s, i) < Pow2(f.depth)
  {
    Pow2Value(f.depth);
  }

  lemma {:induction false} PackedBound(f: Format, s: seq<byte>, at: nat, m: nat, bits: nat)
    requires f.WellFormed() && f.depth < 8 && AreSamples(f, s) && bits == m * f.depth
    ensures Packed(f, s, at, m) < Pow2(bits)
    decreases m
  {
    if m > 0 {
      MulDistribute(m - 1, 1, f.depth);
      PackedBound(f, s, at, m - 1, bits - f.depth);
      StoredBound(f, s, at + m - 1);
      Pow2Add(bits - f.depth, f.depth);
      AppendDigit(Packed(f, s, at, m - 1), Pow2(bits - f.depth), Stored(f, s, at + m - 1), Pow2(f.depth));
    }
  }

  lemma AppendDigit(v: nat, limit: nat, digit: nat, base: nat)
    requires v < limit && digit < base
    ensures v * base + digit < limit * base
  {
    MulMonotone(v + 1, limit, base);
    MulDistribute(v, 1, base);
  }

  /** Cutting off the last `j` samples. */
  lemma {:induction false} PackedLeading(f: Format, s: seq<byte>, at: nat, m: nat, j: nat, bits: nat)
    requires f.WellFormed() && f.depth < 8 && AreSamples(f, s) && bits == j * f.depth
    ensures Packed(f, s, at, m + j) / Pow2(bits) == Packed(f, s, at, m)
    decreases j
  {
    if j > 0 {
      MulDistribute(j - 1, 1, f.depth);
      PackedLeading(f, s, at, m, j - 1, bits - f.depth);
      CutLast(f, s, at, m + j);
      Pow2Add(f.depth, bits - f.depth);
      DivDiv(Packed(f, s, at, m + j), Pow2(f.depth), Pow2(bits - f.depth));
    }
  }

  lemma CutLast(f: Format, s: seq<byte>, at: nat, m: nat)
    requires f.WellFormed() && f.depth < 8 && AreSamples(f, s) && m > 0
    ensures Packed(f, s, at, m) / Pow2(f.depth) == Packed(f, s, at, m - 1)
    ensures Packed(f, s, at, m) % Pow2(f.depth) == Stored(f, s, at + m - 1)
  {
    StoredBound(f, s, at + m - 1);
    QuotientUnique(Packed(f, s, at, m), Pow2(f.depth), Packed(f, s, at, m - 1), Stored(f, s, at + m - 1));
  }

  /** A byte of samples. */
  function PackedByte(f: Format, s: seq<byte>, i: nat): (b: byte)
    requires f.WellFormed() && f.depth < 8 && AreSamples(f, s)
  {
    PackedFits(f, s, PerByte(f), i);
    Packed(f, s, PerByte(f) * i, PerByte(f))
  }

  lemma PackedFits(f: Format, s: seq<byte>, per: nat, i: nat)
    requires f.WellFormed() && f.depth < 8 && AreSamples(f, s) && per == PerByte(f)
    ensures Packed(f, s, per * i, per) < 256
  {
    var bits := 8;
    Pow2Value(bits);
    PackedBound(f, s, per * i, per, bits);
  }

  /** Its fields are the samples. */
  lemma FieldOfPacked(f: Format, s: seq<byte>, per: nat, i: nat, m: nat)
    requires f.WellFormed() && f.depth < 8 && AreSamples(f, s) && per == PerByte(f) && m < per
    ensures f.depth * m < 8 && Field(PackedByte(f, s, i), f.depth, m) == Stored(f, s, per * i + m)
  {
    var bits := 8 - f.depth * (m + 1);
    FieldBits(f, per, m);
    PackedLeading(f, s, per * i, m + 1, per - (m + 1), bits);
    CutLast(f, s, per * i, m + 1);
    Pow2Value(bits);
    Pow2Value(f.depth);
  }

  lemma FieldBits(f: Format, per: nat, m: nat)
    requires f.WellFormed() && f.depth < 8 && per == PerByte(f) && m < per
    ensures f.depth * m < 8 && 8 - f.depth * (m + 1) == (per - (m + 1)) * f.depth
  {}

  // ---- rows ----

  /** Samples of two bytes, most significant byte first. */
  function WideBytes(f: Format, s: seq<byte>): (row: seq<byte>)
    requires |s| % 2 == 0
    ensures |row| == |s|
  {
    seq(|s|, i requires 0 <= i < |s| => if f.bigEndian then s[i] else if i % 2 == 0 then s[i + 1] else s[i - 1])
  }

  /** Samples below eight bits, packed. */
  function NarrowBytes(f: Format, s: seq<byte>): (row: seq<byte>)
    requires f.WellFormed() && f.depth < 8 && AreSamples(f, s)
    ensures |row| == (|s| * f.depth + 7) / 8
    ensures forall i :: 0 <= i < |row| ==> row[i] == PackedByte(f, s, i)
  {
    seq((|s| * f.depth + 7) / 8, i requires 0 <= i < (|s| * f.depth + 7) / 8 => PackedByte(f, s, i))
  }

  lemma {:induction false} WideRow(f: Format, s: seq<byte>, m: nat)
    requires f.WellFormed() && f.depth == 16 && |s| % 2 == 0 && 2 * m <= |s|
    ensures Samples(f, WideBytes(f, s), m) == s[..2 * m]
    decreases m
  {
    if m > 0 {
      WideRow(f, s, m - 1);
      assert s[..2 * m] == s[..2 * (m - 1)] + [s[2 * (m - 1)], s[2 * (m - 1) + 1]];
    }
  }

  lemma {:induction false} NarrowRow(f: Format, s: seq<byte>, row: seq<byte>, m: nat)
    requires f.WellFormed() && f.depth < 8 && AreSamples(f, s) && row == NarrowBytes(f, s) && m <= |s|
    ensures Holds(f, |row|, m) && Samples(f, row, m) == s[..m]
    decreases m
  {
    if m > 0 {
      NarrowRow(f, s, row, m - 1);
      NarrowSample(f, s, row, m - 1, PerByte(f));
      SampleBehind(f, s, row, m);
    }
  }

  lemma SampleBehind(f: Format, s: seq<byte>, row: seq<byte>, m: nat)
    requires f.WellFormed() && 0 < m <= |s| && Holds(f, |row|, m)
    requires Samples(f, row, m - 1) == s[..m - 1] && Sample(f, row, m - 1) == [s[m - 1]]
    ensures Samples(f, row, m) == s[..m]
  {
    assert s[..m] == s[..m - 1] + [s[m - 1]];
  }

  lemma NarrowSample(f: Format, s: seq<byte>, row: seq<byte>, i: nat, per: nat)
    requires f.WellFormed() && f.depth < 8 && AreSamples(f, s) && row == NarrowBytes(f, s)
    requires i < |s| && per == PerByte(f)
    ensures Holds(f, |row|, i + 1) && Sample(f, row, i) == [s[i]]
  {
    var g, m := Group(per, i), Within(per, i);
    RowIsLongEnough(f, |s|, i, |row|);
    SampleIsField(f, row, per, i);
    GroupIs(per, i);
    NarrowField(f, s, row[g], i, per, g, m);
  }

  lemma NarrowField(f: Format, s: seq<byte>, v: byte, i: nat, per: nat, g: nat, m: nat)
    requires f.WellFormed() && f.depth < 8 && AreSamples(f, s) && i < |s| && per == PerByte(f) && m < per
    requires g == i / per && m == i % per && v == PackedByte(f, s, g)
    ensures f.depth * m < 8 && Scale(f) * Field(v, f.depth, m) == s[i]
  {
    DivMod(i, per);
    FieldOfPacked(f, s, per, g, m);
    assert per * g + m == i;
    ScaledBack(f, s[i]);
  }

  lemma RowIsLongEnough(f: Format, n: nat, i: nat, bytes: nat)
    requires f.WellFormed() && f.depth < 8 && i < n && bytes == (n * f.depth + 7) / 8
    ensures Holds(f, bytes, i + 1)
  {}

  lemma ScaledBack(f: Format, v: byte)
    requires f.WellFormed() && f.depth < 8 && IsSample(f, v)
    ensures Scale(f) * (v / Scale(f)) == v
  {
    DivMod(v, Scale(f));
  }

  /** The scanline, without its filter type, that holds `n` samples. */
  function RowFor(f: Format, s: seq<byte>, n: nat): (row: seq<byte>)
    requires f.WellFormed() && |s| == n * f.SampleBytes() && (f.depth < 8 ==> AreSamples(f, s))
    ensures |row| == (n * f.depth + 7) / 8
  {
    if f.depth == 8 then s else if f.depth == 16 then WideBytes(f, s) else NarrowBytes(f, s)
  }

  /** The samples of the row are the given ones. */
  lemma RowHasSamples(f: Format, s: seq<byte>, n: nat)
    requires f.WellFormed() && |s| == n * f.SampleBytes() && (f.depth < 8 ==> AreSamples(f, s))
    ensures Holds(f, |RowFor(f, s, n)|, n) && Samples(f, RowFor(f, s, n), n) == s
  {
    assert s[..|s|] == s;
    if f.depth == 8 {
      BytesAreSamples(f, s, n);
    } else if f.depth == 16 {
      WideRow(f, s, n);
    } else {
      NarrowRow(f, s, NarrowBytes(f, s), n);
    }
  }

  /** The samples of a row of pixels. */
  function SamplesOf(f: Format, p: seq<byte>, x: nat): (s: seq<byte>)
    requires f.WellFormed() && |p| == Times(x, f.PixelBytes())
    ensures |s| == f.imgN * x * f.SampleBytes()
  {
    RowLength(f, x);
    TimesIs(x, f.imgN * f.SampleBytes());
    Strip(p, f.imgN * f.SampleBytes(), f.PixelBytes(), x)
  }

  lemma SamplesWritable(f: Format, p: seq<byte>, x: nat)
    requires f.WellFormed() && WritableRow(f, p, x) && f.depth < 8
    ensures AreSamples(f, SamplesOf(f, p, x))
  {
    StripSamples(f, p, f.imgN, f.PixelBytes(), x);
  }

  lemma SamplesBack(f: Format, p: seq<byte>, x: nat, s: seq<byte>)
    requires f.WellFormed() && WritableRow(f, p, x) && s == SamplesOf(f, p, x)
    ensures x * (f.imgN * f.SampleBytes()) == |s| && Pixels(s, f.imgN * f.SampleBytes(), Alpha(f), x) == p
  {
    RowLength(f, x);
    StripWritable(f, p, f.imgN * f.SampleBytes(), f.PixelBytes(), Alpha(f), x);
  }

  lemma StripWritable(f: Format, p: seq<byte>, w: nat, pixel: nat, alpha: seq<byte>, x: nat)
    requires f.WellFormed() && WritableRow(f, p, x) && w == f.imgN * f.SampleBytes() && alpha == Alpha(f)
    requires pixel == f.PixelBytes() == w + |alpha|
    ensures |Strip(p, w, pixel, x)| == x * w && Pixels(Strip(p, w, pixel, x), w, alpha, x) == p
  {
    forall k: nat | k < x ensures |Item(p, pixel, k)| == pixel && Item(p, pixel, k)[w..] == alpha {
      assert Writable(f, Item(p, f.PixelBytes(), k));
    }
    StripUndone(p, w, pixel, alpha, x);
  }

  /** The scanline that is read as the pixels `p`. */
  function ScanlineFor(f: Format, p: seq<byte>, x: nat): (row: seq<byte>)
    requires f.WellFormed() && WritableRow(f, p, x)
    ensures |row| == f.RowBytes(x)
  {
    if f.depth < 8 then
      SamplesWritable(f, p, x);
      RowFor(f, SamplesOf(f, p, x), f.imgN * x)
    else RowFor(f, SamplesOf(f, p, x), f.imgN * x)
  }

  /** Reading undoes writing, for every format. */
  lemma ScanlineOut(f: Format, p: seq<byte>, x: nat)
    requires f.WellFormed() && WritableRow(f, p, x)
    ensures RowOut(f, ScanlineFor(f, p, x), x) == p
  {
    if f.depth < 8 { SamplesWritable(f, p, x); }
    var s, n := SamplesOf(f, p, x), f.imgN * x;
    var row := RowFor(f, s, n);
    assert Holds(f, |row|, n) && Samples(f, row, n) == s by { RowHasSamples(f, s, n); }
    RowShape(f, row, x, n);
    SamplesBack(f, p, x, s);
  }
}
