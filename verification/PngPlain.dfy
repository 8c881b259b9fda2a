/** The PNG specification in plain numbers: what each filter type computes, byte by byte, and how samples are laid out
    in a scanline (sections 7.2, 9.2 and 13.12 of the W3C PNG specification). */
module PngPlain {
  import opened Bits
  import opened Sizes
  import opened PngFilters
  import opened PngImage
  import opened PngRaw
  import opened Adam7

  // ---- filters ----

  /** Half of a sum, rounded down. */
  predicate IsAverage(p: int, a: byte, b: byte) {
    2 * p <= a as int + b as int < 2 * p + 2
  }

  function Distance(x: int, y: int): (d: nat)
    ensures d == x - y || d == y - x
  {
    if x < y then y - x else x - y
  }

  /** Of left, above and upper left the one nearest to left plus above minus upper left, the first of them if several
      are. */
  predicate IsNearest(p: int, a: byte, b: byte, c: byte) {
    var q := a as int + b as int - c as int;
    && (p == a as int || p == b as int || p == c as int)
    && Distance(q, p) <= Distance(q, a as int) && Distance(q, p) <= Distance(q, b as int)
    && Distance(q, p) <= Distance(q, c as int)
    && (p == a as int || Distance(q, p) < Distance(q, a as int))
    && (p == a as int || p == b as int || Distance(q, p) < Distance(q, b as int))
  }

  /** A byte `v` with `x` sent for it: type 0 sends the byte, 1 the difference to the left, 2 to the byte above, 3 to
      the average of both, 4 to the nearest of three. */
  ghost predicate ByteRight(filter: byte, x: byte, v: byte, a: byte, b: byte, c: byte) {
    && (filter == 0 ==> v == x)
    && (filter == 1 ==> v as int == (x as int + a as int) % 256)
    && (filter == 2 ==> v as int == (x as int + b as int) % 256)
    && (filter == 3 ==> exists p: nat :: IsAverage(p, a, b) && v as int == (x as int + p) % 256)
    && (filter == 4 ==> exists p: nat :: IsNearest(p, a, b, c) && v as int == (x as int + p) % 256)
  }

  /** What is `bpp` bytes to the left; outside of a row there are zeros. */
  function Behind(s: seq<byte>, k: nat, bpp: nat): byte {
    if bpp <= k < |s| + bpp then s[k - bpp] else 0
  }

  ghost predicate RightAt(filter: byte, raw: seq<byte>, prior: seq<byte>, bpp: nat, r: seq<byte>, k: nat) {
    && k < |raw| && k < |r| && k < |prior|
    && ByteRight(filter, raw[k], r[k], Behind(r, k, bpp), prior[k], Behind(prior, k, bpp))
  }

  /** A whole row. */
  ghost predicate RowRight(filter: byte, raw: seq<byte>, prior: seq<byte>, bpp: nat, r: seq<byte>) {
    |r| == |raw| == |prior| && forall k: nat :: k < |raw| ==> RightAt(filter, raw, prior, bpp, r, k)
  }

  lemma AverageIs(a: byte, b: byte) returns (p: nat)
    ensures IsAverage(p, a, b) && p == Predict(AVG, a, b, 0)
  {
    p := (a as int + b as int) / 2;
  }

  lemma NearestIs(a: byte, b: byte, c: byte) returns (p: nat)
    ensures IsNearest(p, a, b, c) && p == Predict(PAETH, a, b, c)
  {
    p := PaethPredictor(a, b, c);
  }

  lemma PredictRight(filter: byte, x: byte, v: byte, a: byte, b: byte, c: byte)
    requires filter <= 4 && v as int == (x as int + Predict(filter, a, b, c)) % 256
    ensures ByteRight(filter, x, v, a, b, c)
  {
    if filter == 3 { var p := AverageIs(a, b); }
    if filter == 4 { var p := NearestIs(a, b, c); }
  }

  /** What reconstruction computes is the row of these equations. */
  lemma {:induction false} ReconRight(filter: byte, raw: seq<byte>, prior: seq<byte>, bpp: nat)
    requires filter <= 4 && |prior| == |raw| && bpp >= 1
    ensures RowRight(filter, raw, prior, bpp, Recon(filter, raw, prior, bpp))
    decreases |raw|
  {
    if raw != [] {
      var n := |raw| - 1;
      var before, r := Recon(filter, raw[..n], prior[..n], bpp), Recon(filter, raw, prior, bpp);
      ReconRight(filter, raw[..n], prior[..n], bpp);
      PredictRight(filter, raw[n], r[n], Behind(r, n, bpp), prior[n], Behind(prior, n, bpp));
      RowAppend(filter, raw, prior, bpp, before, r);
    }
  }

  lemma RowAppend(filter: byte, raw: seq<byte>, prior: seq<byte>, bpp: nat, before: seq<byte>, r: seq<byte>)
    requires bpp >= 1 && |r| == |raw| == |prior| == |before| + 1 && r[..|before|] == before
    requires RowRight(filter, raw[..|before|], prior[..|before|], bpp, before)
    requires RightAt(filter, raw, prior, bpp, r, |before|)
    ensures RowRight(filter, raw, prior, bpp, r)
  {
    forall k: nat | k < |raw| ensures RightAt(filter, raw, prior, bpp, r, k) {
      if k < |before| {
        assert RightAt(filter, raw[..|before|], prior[..|before|], bpp, before, k);
        assert Behind(r, k, bpp) == Behind(before, k, bpp);
        assert Behind(prior, k, bpp) == Behind(prior[..|before|], k, bpp);
      }
    }
  }

  /** The equations leave no choice. */
  lemma {:induction false} RowDetermined(filter: byte, raw: seq<byte>, prior: seq<byte>, bpp: nat, r: seq<byte>,
                                         s: seq<byte>, n: nat)
    requires filter <= 4 && bpp >= 1 && RowRight(filter, raw, prior, bpp, r) && RowRight(filter, raw, prior, bpp, s)
    requires n <= |raw|
    ensures r[..n] == s[..n]
    decreases n
  {
    if n > 0 {
      var k := n - 1;
      RowDetermined(filter, raw, prior, bpp, r, s, k);
      if k >= bpp { assert r[..k][k - bpp] == s[..k][k - bpp]; }
      assert RightAt(filter, raw, prior, bpp, r, k) && RightAt(filter, raw, prior, bpp, s, k);
      ByteDetermined(filter, raw[k], r[k], s[k], Behind(r, k, bpp), prior[k], Behind(prior, k, bpp));
      assert r[..n] == r[..k] + [r[k]] && s[..n] == s[..k] + [s[k]];
    }
  }

  lemma ByteDetermined(filter: byte, x: byte, v: byte, w: byte, a: byte, b: byte, c: byte)
    requires filter <= 4 && ByteRight(filter, x, v, a, b, c) && ByteRight(filter, x, w, a, b, c)
    ensures v == w
  {
    if filter == 3 {
      var p: nat :| IsAverage(p, a, b) && v as int == (x as int + p) % 256;
      var q: nat :| IsAverage(q, a, b) && w as int == (x as int + q) % 256;
      assert p == q;
    }
    if filter == 4 {
      var p: nat :| IsNearest(p, a, b, c) && v as int == (x as int + p) % 256;
      var q: nat :| IsNearest(q, a, b, c) && w as int == (x as int + q) % 256;
      assert p == q;
    }
  }

  /** Scanlines and their rows: each behind its filter type, the first below zeros. */
  ghost predicate RowsRight(raw: seq<byte>, w: nat, bpp: nat, prior: seq<byte>, rows: seq<seq<byte>>)
    decreases |rows|
  {
    rows == [] ||
    (&& w + 1 <= |raw| && RowRight(raw[0], raw[1..w + 1], prior, bpp, rows[0])
     && RowsRight(raw[w + 1..], w, bpp, rows[0], rows[1..]))
  }

  /** The rows of an image are those of the equations. */
  lemma {:induction false} DecodedRowsRight(raw: seq<byte>, w: nat, bpp: nat, prior: seq<byte>, y: nat)
    requires bpp >= 1 && |prior| == w && HasLines(raw, w, y) && FiltersKnown(raw, w, y)
    ensures |Rows(raw, w, bpp, prior, y)| == y && RowsRight(raw, w, bpp, prior, Rows(raw, w, bpp, prior, y))
    decreases y
  {
    if y > 0 {
      ReconRight(raw[0], raw[1..w + 1], prior, bpp);
      DecodedRowsRight(raw[w + 1..], w, bpp, Recon(raw[0], raw[1..w + 1], prior, bpp), y - 1);
    }
  }

  // ---- samples ----

  /** A byte of samples below eight bits, the leftmost in the high bits. */
  lemma FourBitFields(v: byte)
    ensures v as int == 16 * Field(v, 4, 0) + Field(v, 4, 1)
  {}

  lemma TwoBitFields(v: byte)
    ensures v as int == 64 * Field(v, 2, 0) + 16 * Field(v, 2, 1) + 4 * Field(v, 2, 2) + Field(v, 2, 3)
  {
    assert v / 4 / 4 == v / 16 && v / 16 / 4 == v / 64 && v / 64 < 4;
  }

  lemma OneBitFields(v: byte)
    ensures v as int == 128 * Field(v, 1, 0) + 64 * Field(v, 1, 1) + 32 * Field(v, 1, 2) + 16 * Field(v, 1, 3)
                        + 8 * Field(v, 1, 4) + 4 * Field(v, 1, 5) + 2 * Field(v, 1, 6) + Field(v, 1, 7)
  {
    var a, b, c, d, e, f, g := OneBits(v);
    OneBit(v, 7, v, a);
    OneBit(v, 6, a, b);
    OneBit(v, 5, b, c);
    OneBit(v, 4, c, d);
    OneBit(v, 3, d, e);
    OneBit(v, 2, e, f);
    OneBit(v, 1, f, g);
    OneBit(v, 0, g, 0);
  }

  /** Field `m` is the last bit of the number without the `7 - m` bits behind it. */
  lemma OneBit(v: byte, m: nat, q: nat, h: nat)
    requires m < 8 && q == v / SmallPow2(7 - m) && h == q / 2
    ensures Field(v, 1, m) == q - 2 * h
  {}

  lemma OneBits(v: byte) returns (a: nat, b: nat, c: nat, d: nat, e: nat, f: nat, g: nat)
    ensures a == v / 2 && b == v / 4 && c == v / 8 && d == v / 16 && e == v / 32 && f == v / 64 && g == v / 128 < 2
    ensures v / 2 == a && a / 2 == b && b / 2 == c && c / 2 == d && d / 2 == e && e / 2 == f && f / 2 == g
  {
    a, b, c, d := v / 2, v / 4, v / 8, v / 16;
    e, f, g := v / 32, v / 64, v / 128;
  }

  /** Each field has its bits and no more. */
  lemma FieldBound(v: byte, d: nat, m: nat)
    requires d in {1, 2, 4} && d * m < 8
    ensures Field(v, d, m) < if d == 4 then 16 else if d == 2 then 4 else 2
  {}

  /** The largest gray sample becomes 255, and the others are spread evenly; palette indices stay. */
  lemma ScaleIs(f: Format)
    requires f.WellFormed() && f.depth < 8
    ensures f.gray && f.depth == 1 ==> Scale(f) * 1 == 255
    ensures f.gray && f.depth == 2 ==> Scale(f) * 3 == 255
    ensures f.gray && f.depth == 4 ==> Scale(f) * 15 == 255
    ensures !f.gray ==> Scale(f) == 1
  {}

  /** Sixteen-bit samples come most significant byte first and are stored as the platform has them. */
  lemma WideSampleIs(f: Format, row: seq<byte>, i: nat)
    requires f.WellFormed() && f.depth == 16 && 2 * i + 2 <= |row|
    ensures |Sample(f, row, i)| == 2
    ensures var v, s := 256 * row[2 * i] as int + row[2 * i + 1] as int, Sample(f, row, i);
            v == if f.bigEndian then 256 * s[0] as int + s[1] as int else 256 * s[1] as int + s[0] as int
  {}

  /** An added channel is opaque: every byte of it is 255, and it makes up a sample. */
  lemma AlphaIs(f: Format)
    requires f.WellFormed()
    ensures f.outN == f.imgN ==> Alpha(f) == []
    ensures f.outN != f.imgN ==> |Alpha(f)| == (if f.depth == 16 then 2 else 1) && forall i :: 0 <= i < |Alpha(f)| ==>
              Alpha(f)[i] == 255
  {}

  /** A scanline is as short as its bits allow, and a filter looks back by a pixel, or a byte for smaller ones. */
  lemma LayoutIs(f: Format, x: nat)
    requires f.WellFormed()
    ensures 8 * f.RowBytes(x) - 8 < f.imgN * x * f.depth <= 8 * f.RowBytes(x)
    ensures f.depth >= 8 ==> 8 * f.FilterBytes() == f.imgN * f.depth
    ensures f.depth < 8 ==> f.FilterBytes() == 1
  {}

  // ---- an image, byte for byte ----

  /** Two gray rows of two pixels: 0, 1 without a filter, and 3, 0 with the average. */
  method DecodeSample() returns (r: Result)
    ensures r == Image([0, 1, 3, 2])
  {
    var f, data := Format(1, 1, 8, true, false), [0, 0, 1, 3, 3, 0];
    SampleRows(data);
    SamplePixels(f, data);
    r := CreatePngImage(f, data, 2, 2, false);
  }

  lemma SampleRows(data: seq<byte>)
    requires data == [0, 0, 1, 3, 3, 0]
    ensures HasLines(data, 2, 2) && FiltersKnown(data, 2, 2) && Rows(data, 2, 1, Zeros(2), 2) == [[0, 1], [3, 2]]
  {
    var rest := data[3..];
    assert rest == [3, 3, 0] && rest[3..] == [] && data[1..3] == [0, 1] && rest[1..3] == [3, 0];
    LinesByLength(data, 2, 2);
    ReconOfTwo(0, [0, 1], Zeros(2));
    ReconOfTwo(3, [3, 0], [0, 1]);
    assert Rows(rest[3..], 2, 1, [3, 2], 0) == [];
    assert Rows(rest, 2, 1, [0, 1], 1) == [[3, 2]];
  }

  lemma ReconOfTwo(filter: byte, raw: seq<byte>, prior: seq<byte>)
    requires |raw| == |prior| == 2
    ensures var first := (raw[0] as int + Predict(filter, 0, prior[0], 0)) % 256;
            Recon(filter, raw, prior, 1) == [first, (raw[1] as int + Predict(filter, first, prior[1], prior[0])) % 256]
  {
    var one := raw[..1];
    assert one[..0] == [] && Recon(filter, one[..0], prior[..1][..0], 1) == [];
    assert Recon(filter, one, prior[..1], 1) == [] + [(raw[0] as int + Predict(filter, 0, prior[0], 0)) % 256];
  }

  lemma SamplePixels(f: Format, data: seq<byte>)
    requires f == Format(1, 1, 8, true, false) && data == [0, 0, 1, 3, 3, 0]
    requires HasLines(data, 2, 2) && FiltersKnown(data, 2, 2) && Rows(data, 2, 1, Zeros(2), 2) == [[0, 1], [3, 2]]
    ensures ImageResult(f, data, 2, 2) == Image([0, 1, 3, 2])
  {
    assert f.RowBytes(2) == 2 && f.FilterBytes() == 1;
    assert SizeError(f, 2, 2, |data|) == None;
    var a, b := [0, 1], [3, 2];
    PlainRow(f, a);
    PlainRow(f, b);
    RowsOutAppend(f, [], a, 2);
    RowsOutAppend(f, [a], b, 2);
    assert [] + [a] == [a] && [a] + [b] == [a, b] && RowsOut(f, [], 2) == [];
  }

  lemma PlainRow(f: Format, row: seq<byte>)
    requires f == Format(1, 1, 8, true, false) && |row| == 2
    ensures f.RowBytes(2) == 2 && RowOut(f, row, 2) == row
  {
    PlainShape(f, row, 2, 2);
    ByteShape(f, row, 2, 2);
  }
}
