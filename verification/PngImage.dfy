/** From filtered scanlines to an image: the row loop, sample unpacking and the extra alpha channel
    (sections 7 and 9 of the W3C PNG specification). */
module PngImage {
  import opened Bits
  import opened Buffers
  import opened PngFilters
  import opened Sizes

  /** The samples of the file, `depth` bits each and `imgN` to a pixel, and what is made of them. */
  datatype Format = Format(imgN: nat, outN: nat, depth: nat, gray: bool, bigEndian: bool)
  {
    predicate WellFormed() {
      && 1 <= imgN <= 4 && depth in {1, 2, 4, 8, 16}
      && (outN == imgN || (outN == imgN + 1 && imgN in {1, 3}))
    }

    function SampleBytes(): nat {
      if depth == 16 then 2 else 1
    }

    /** Bytes per output pixel. */
    function PixelBytes(): nat {
      outN * SampleBytes()
    }

    /** Bytes in a scanline of `x` pixels, without its filter type. */
    function RowBytes(x: nat): nat {
      (imgN * x * depth + 7) / 8
    }

    /** How far back a filter looks for the pixel to the left. */
    function FilterBytes(): nat {
      if depth < 8 then 1 else imgN * SampleBytes()
    }
  }

  // ---- samples ----

  /** What a gray sample below eight bits is multiplied by to span 0 to 255. */
  const DEPTH_SCALE: seq<nat> := [0, 0xFF, 0x55, 0, 0x11, 0, 0, 0, 0x01]

  function Scale(f: Format): nat
    requires f.WellFormed() && f.depth < 8
  {
    if f.gray then 255 / (SmallPow2(f.depth) - 1) else 1
  }

  lemma ScaleTable(f: Format)
    requires f.WellFormed() && f.depth < 8
    ensures Scale(f) == if f.gray then DEPTH_SCALE[f.depth] else 1
  {}

  /** Field number `m`, of `d` bits, of a byte, counted from the high end. */
  function Field(v: byte, d: nat, m: nat): nat
    requires d in {1, 2, 4} && d * m < 8
  {
    v / SmallPow2(8 - d * (m + 1)) % SmallPow2(d)
  }

  /** A scanline of so many bytes holds `n` samples. */
  predicate Holds(f: Format, bytes: nat, n: nat)
    requires f.WellFormed()
  {
    if f.depth == 16 then 2 * n <= bytes
    else if f.depth == 8 then n <= bytes
    else if f.depth == 4 then n <= 2 * bytes
    else if f.depth == 2 then n <= 4 * bytes
    else n <= 8 * bytes
  }

  lemma RowHoldsPixels(f: Format, x: nat)
    requires f.WellFormed()
    ensures Holds(f, f.RowBytes(x), f.imgN * x)
  {}

  /** Sample `i` of a scanline, as it is stored in the output. */
  function Sample(f: Format, row: seq<byte>, i: nat): (s: seq<byte>)
    requires f.WellFormed() && Holds(f, |row|, i + 1)
    ensures |s| == f.SampleBytes()
  {
    if f.depth == 16 then
      if f.bigEndian then [row[2 * i], row[2 * i + 1]] else [row[2 * i + 1], row[2 * i]]
    else if f.depth == 8 then [row[i]]
    else if f.depth == 4 then [Scale(f) * Field(row[i / 2], 4, i % 2)]
    else if f.depth == 2 then [Scale(f) * Field(row[i / 4], 2, i % 4)]
    else [Scale(f) * Field(row[i / 8], 1, i % 8)]
  }

  /** The first `n` samples of a scanline. */
  function Samples(f: Format, row: seq<byte>, n: nat): (s: seq<byte>)
    requires f.WellFormed() && Holds(f, |row|, n)
    ensures |s| == n * f.SampleBytes()
    decreases n
  {
    if n == 0 then [] else Samples(f, row, n - 1) + Sample(f, row, n - 1)
  }

  /** The alpha sample of an opaque pixel, when one is added. */
  function Alpha(f: Format): (s: seq<byte>)
    requires f.WellFormed()
    ensures |s| == (f.outN - f.imgN) * f.SampleBytes()
  {
    if f.outN == f.imgN then [] else if f.depth == 16 then [0xFF, 0xFF] else [0xFF]
  }

  /** Pixels out of samples: `w` bytes of samples each, followed by the alpha sample. */
  function Pixels(s: seq<byte>, w: nat, alpha: seq<byte>, x: nat): (p: seq<byte>)
    requires x * w <= |s|
    ensures |p| == x * (w + |alpha|)
    decreases x
  {
    if x == 0 then []
    else
      MulDistribute(x - 1, 1, w);
      MulDistribute(x - 1, 1, w + |alpha|);
      Pixels(s, w, alpha, x - 1) + s[(x - 1) * w..x * w] + alpha
  }

  /** What a scanline of `x` pixels becomes in the output. */
  function RowOut(f: Format, row: seq<byte>, x: nat): (p: seq<byte>)
    requires f.WellFormed() && |row| == f.RowBytes(x)
    ensures |p| == x * f.PixelBytes()
  {
    RowHoldsPixels(f, x);
    RowLength(f, x);
    Pixels(Samples(f, row, f.imgN * x), f.imgN * f.SampleBytes(), Alpha(f), x)
  }

  lemma RowLength(f: Format, x: nat)
    requires f.WellFormed()
    ensures x * (f.imgN * f.SampleBytes()) == f.imgN * x * f.SampleBytes()
    ensures f.imgN * f.SampleBytes() + |Alpha(f)| == f.PixelBytes()
  {
    MulDistribute(f.imgN, f.outN - f.imgN, f.SampleBytes());
  }

  /** Without alpha the pixels are just the samples. */
  lemma {:induction false} PixelsWithoutAlpha(s: seq<byte>, w: nat, x: nat)
    requires x * w <= |s|
    ensures Pixels(s, w, [], x) == s[..x * w]
    decreases x
  {
    if x > 0 {
      MulDistribute(x - 1, 1, w);
      PixelsWithoutAlpha(s, w, x - 1);
      assert s[..x * w] == s[..(x - 1) * w] + s[(x - 1) * w..x * w];
    }
  }

  // ---- the alpha channel ----

  /** Gray samples with alpha, byte by byte. */
  lemma {:induction false} GrayAlphaAt(s: seq<byte>, x: nat, k: nat)
    requires k < x <= |s|
    ensures var p := Pixels(s, 1, [0xFF], x); |p| == 2 * x && p[2 * k] == s[k] && p[2 * k + 1] == 0xFF
    decreases x
  {
    if k < x - 1 { GrayAlphaAt(s, x - 1, k); }
  }

  /** Colour samples with alpha, byte by byte. */
  lemma {:induction false} ColourAlphaAt(s: seq<byte>, x: nat, k: nat)
    requires k < x && 3 * x <= |s|
    ensures var p := Pixels(s, 3, [0xFF], x);
            && |p| == 4 * x && p[4 * k] == s[3 * k] && p[4 * k + 1] == s[3 * k + 1]
            && p[4 * k + 2] == s[3 * k + 2] && p[4 * k + 3] == 0xFF
    decreases x
  {
    if k < x - 1 { ColourAlphaAt(s, x - 1, k); }
  }

  /** Spreads gray samples and puts 255 after each, last pixel first; the samples may already lie
      where the pixels go. */
  method AlphaExpandGray(dest: array<byte>, d: nat, src: array<byte>, o: nat, x: nat)
    requires d + 2 * x <= dest.Length && o + x <= src.Length && (dest == src ==> d == o)
    modifies dest
    ensures dest[..] == Written(old(dest[..]), d, Pixels(old(src[o..o + x]), 1, [0xFF], x))
  {
    ghost var s, before := src[o..o + x], dest[..];
    var i := x;
    while i > 0
      invariant 0 <= i <= x
      invariant forall k :: 0 <= k < i ==> src[o + k] == s[k]
      invariant forall k :: i <= k < x ==> dest[d + 2 * k] == s[k] && dest[d + 2 * k + 1] == 0xFF
      invariant forall k :: 0 <= k < d || d + 2 * x <= k < dest.Length ==> dest[k] == before[k]
    {
      i := i - 1;
      dest[d + 2 * i + 1] := 0xFF;
      dest[d + 2 * i] := src[o + i];
    }
    ghost var p := Pixels(s, 1, [0xFF], x);
    forall k | 0 <= k < 2 * x ensures dest[..][d + k] == p[k] { GrayAlphaAt(s, x, k / 2); }
    WrittenAt(before, dest[..], d, p);
  }

  /** The same for three colour samples. */
  method AlphaExpandColour(dest: array<byte>, d: nat, src: array<byte>, o: nat, x: nat)
    requires d + 4 * x <= dest.Length && o + 3 * x <= src.Length && (dest == src ==> d == o)
    modifies dest
    ensures dest[..] == Written(old(dest[..]), d, Pixels(old(src[o..o + 3 * x]), 3, [0xFF], x))
  {
    ghost var s, before := src[o..o + 3 * x], dest[..];
    var i := x;
    while i > 0
      invariant 0 <= i <= x
      invariant forall k :: 0 <= k < 3 * i ==> src[o + k] == s[k]
      invariant forall k :: i <= k < x ==> ColourPixel(dest[..], d + 4 * k, s, 3 * k)
      invariant forall k :: 0 <= k < d || d + 4 * x <= k < dest.Length ==> dest[k] == before[k]
    {
      i := i - 1;
      SpreadPixel(dest, d + 4 * i, src, o + 3 * i, s, 3 * i);
    }
    ColourWritten(before, dest[..], d, s, x);
  }

  lemma ColourWritten(before: seq<byte>, after: seq<byte>, d: nat, s: seq<byte>, x: nat)
    requires |s| == 3 * x && d + 4 * x <= |before| == |after|
    requires forall k :: 0 <= k < x ==> ColourPixel(after, d + 4 * k, s, 3 * k)
    requires forall k :: 0 <= k < d || d + 4 * x <= k < |before| ==> after[k] == before[k]
    ensures after == Written(before, d, Pixels(s, 3, [0xFF], x))
  {
    var p := Pixels(s, 3, [0xFF], x);
    forall k | 0 <= k < 4 * x ensures after[d + k] == p[k] {
      ColourByte(after, d, s, x, k, k / 4, k % 4);
    }
    WrittenAt(before, after, d, p);
  }

  lemma ColourByte(after: seq<byte>, d: nat, s: seq<byte>, x: nat, k: nat, q: nat, r: nat)
    requires |s| == 3 * x && d + 4 * x <= |after| && q < x && r < 4 && k == 4 * q + r
    requires ColourPixel(after, d + 4 * q, s, 3 * q)
    ensures after[d + k] == Pixels(s, 3, [0xFF], x)[k]
  {
    ColourAlphaAt(s, x, q);
  }

  ghost predicate ColourPixel(dest: seq<byte>, at: nat, s: seq<byte>, from: nat)
    requires at + 4 <= |dest| && from + 3 <= |s|
  {
    dest[at] == s[from] && dest[at + 1] == s[from + 1] && dest[at + 2] == s[from + 2] && dest[at + 3] == 0xFF
  }

  /** One pixel, highest byte first, so that it may overlap its own samples from above. */
  method SpreadPixel(dest: array<byte>, at: nat, src: array<byte>, from: nat, ghost s: seq<byte>, ghost k: nat)
    requires at + 4 <= dest.Length && from + 3 <= src.Length && (dest == src ==> from <= at)
    requires k + 3 <= |s| && src[from] == s[k] && src[from + 1] == s[k + 1] && src[from + 2] == s[k + 2]
    modifies dest
    ensures ColourPixel(dest[..], at, s, k)
    ensures forall i :: 0 <= i < dest.Length && !(at <= i < at + 4) ==> dest[i] == old(dest[i])
  {
    dest[at + 3] := 0xFF;
    dest[at + 2] := src[from + 2];
    dest[at + 1] := src[from + 1];
    dest[at] := src[from];
  }

  // ---- samples below eight bits ----

  /** The shift register, a byte wide, after `m` fields of `d` bits were taken from the top. */
  function Register(v: byte, d: nat, m: nat): int
    requires d in {1, 2, 4}
  {
    v as int * SmallPow2(d * m) % 256
  }

  /** The top `d` bits of the register are field `m`. */
  lemma NextField(v: byte, d: nat, m: nat, inb: int)
    requires d in {1, 2, 4} && d * m < 8 && inb == Register(v, d, m)
    ensures inb / SmallPow2(8 - d) == Field(v, d, m)
    ensures inb * SmallPow2(d) % 256 == Register(v, d, m + 1)
  {
    TopDigit(v, SmallPow2(d * m), SmallPow2(d), SmallPow2(8 - d * (m + 1)), 256);
  }

  lemma FieldFits(f: Format, v: byte, m: nat)
    requires f.WellFormed() && f.depth < 8 && f.depth * m < 8
    ensures 0 <= Scale(f) * Field(v, f.depth, m) < 256
  {}

  /** Samples to the byte. */
  function PerByte(f: Format): (per: nat)
    requires f.WellFormed() && f.depth < 8
  {
    if f.depth == 4 then 2 else if f.depth == 2 then 4 else 8
  }

  lemma SampleIsField(f: Format, row: seq<byte>, per: nat, i: nat)
    requires f.WellFormed() && f.depth < 8 && per == PerByte(f) && Holds(f, |row|, i + 1)
    ensures Group(per, i) < |row| && f.depth * Within(per, i) < 8
    ensures Sample(f, row, i) == [Scale(f) * Field(row[Group(per, i)], f.depth, Within(per, i))]
  {
    GroupIs(per, i);
    if f.depth == 4 {
      assert per == 2;
    } else if f.depth == 2 {
      assert per == 4;
    } else {
      assert f.depth == 1 && per == 8;
    }
  }

  /** Loads the shift register at the start of a byte. */
  method Load(f: Format, per: nat, buf: array<byte>, ghost cur: nat, i: nat, inb0: int, from0: nat,
              ghost row: seq<byte>)
    returns (inb: int, from: nat)
    requires f.WellFormed() && f.depth < 8 && per == PerByte(f) && Holds(f, |row|, i + 1)
    requires cur + |row| <= buf.Length && row == buf[cur..cur + |row|]
    requires from0 == cur + Group(per, i) + (if Within(per, i) > 0 then 1 else 0)
    requires Group(per, i) < |row|
    requires Within(per, i) > 0 ==> inb0 == Register(row[Group(per, i)], f.depth, Within(per, i))
    ensures from == cur + Group(per, i) + 1 && inb == Register(row[Group(per, i)], f.depth, Within(per, i))
  {
    inb, from := inb0, from0;
    GroupIs(per, i);
    if i % per == 0 {
      inb := buf[from];
      from := from + 1;
    }
  }

  /** The sample on top of the shift register, and the register without it. */
  lemma NextSample(f: Format, row: seq<byte>, per: nat, i: nat, scale: nat, high: nat, mul: nat, inb: int)
    requires f.WellFormed() && f.depth < 8 && per == PerByte(f) && Holds(f, |row|, i + 1)
    requires scale == Scale(f) && high == SmallPow2(8 - f.depth) && mul == SmallPow2(f.depth)
    requires Group(per, i) < |row| && inb == Register(row[Group(per, i)], f.depth, Within(per, i))
    ensures 0 <= scale * (inb / high) < 256 && Sample(f, row, i) == [scale * (inb / high)]
    ensures inb * mul % 256 == Register(row[Group(per, i)], f.depth, Within(per, i) + 1)
  {
    var v, m := row[Group(per, i)], Within(per, i);
    SampleIsField(f, row, per, i);
    NextField(v, f.depth, m, inb);
    FieldFits(f, v, m);
  }

  /** Stores sample `i`, found at the top of the shift register, and shifts it out. */
  method EmitSample(f: Format, ghost row: seq<byte>, out: array<byte>, dest: nat, ghost per: nat, i: nat, scale: nat,
                    high: nat, mul: nat, inb0: int, ghost before: seq<byte>)
    returns (inb: int)
    requires f.WellFormed() && f.depth < 8 && per == PerByte(f) && Holds(f, |row|, i + 1)
    requires dest + i < out.Length == |before|
    requires scale == Scale(f) && high == SmallPow2(8 - f.depth) && mul == SmallPow2(f.depth)
    requires Group(per, i) < |row| && inb0 == Register(row[Group(per, i)], f.depth, Within(per, i))
    requires out[..] == Written(before, dest, Samples(f, row, i))
    modifies out
    ensures inb == Register(row[Group(per, i)], f.depth, Within(per, i) + 1)
    ensures out[..] == Written(before, dest, Samples(f, row, i + 1))
  {
    NextSample(f, row, per, i, scale, high, mul, inb0);
    WrittenNext(before, dest, Samples(f, row, i), scale * (inb0 / high));
    out[dest + i] := scale * (inb0 / high);
    inb := inb0 * mul % 256;
  }

  /** One sample below eight bits: another byte into the shift register when it is empty, and a field out. */
  method UnpackSample(f: Format, per: nat, high: nat, mul: nat, buf: array<byte>, ghost cur: nat, out: array<byte>,
                      dest: nat, i: nat, inb0: int, from0: nat, scale: nat, ghost row: seq<byte>,
                      ghost before: seq<byte>)
    returns (inb: int, from: nat)
    requires f.WellFormed() && f.depth < 8 && scale == Scale(f) && buf != out && Holds(f, |row|, i + 1)
    requires per == PerByte(f) && high == SmallPow2(8 - f.depth) && mul == SmallPow2(f.depth)
    requires cur + |row| <= buf.Length && row == buf[cur..cur + |row|] && dest + i < out.Length == |before|
    requires from0 == cur + Group(per, i) + (if Within(per, i) > 0 then 1 else 0)
    requires Within(per, i) > 0 ==>
               Group(per, i) < |row| && inb0 == Register(row[Group(per, i)], f.depth, Within(per, i))
    requires out[..] == Written(before, dest, Samples(f, row, i))
    modifies out
    ensures from == cur + Group(per, i + 1) + (if Within(per, i + 1) > 0 then 1 else 0)
    ensures Within(per, i + 1) > 0 ==>
              Group(per, i + 1) < |row| && inb == Register(row[Group(per, i + 1)], f.depth, Within(per, i + 1))
    ensures out[..] == Written(before, dest, Samples(f, row, i + 1))
  {
    SampleIsField(f, row, per, i);
    inb, from := Load(f, per, buf, cur, i, inb0, from0, row);
    inb := EmitSample(f, row, out, dest, per, i, scale, high, mul, inb, before);
    NextInGroup(per, i);
  }

  /** Unpacks `per` samples to the byte: the three loops of the source differ in the constants only. */
  method ExpandBits(f: Format, per: nat, high: nat, mul: nat, buf: array<byte>, cur: nat, out: array<byte>, dest: nat,
                    nsmp: nat, scale: nat, ghost row: seq<byte>)
    requires f.WellFormed() && f.depth < 8 && scale == Scale(f) && buf != out
    requires per == PerByte(f) && high == SmallPow2(8 - f.depth) && mul == SmallPow2(f.depth)
    requires Holds(f, |row|, nsmp) && cur + |row| <= buf.Length && row == buf[cur..cur + |row|]
    requires dest + nsmp <= out.Length
    modifies out
    ensures out[..] == Written(old(out[..]), dest, Samples(f, row, nsmp))
  {
    ghost var before := out[..];
    var inb, from := 0, cur;
    for i := 0 to nsmp
      invariant from == cur + Group(per, i) + (if Within(per, i) > 0 then 1 else 0)
      invariant Within(per, i) > 0 ==>
                  Group(per, i) < |row| && inb == Register(row[Group(per, i)], f.depth, Within(per, i))
      invariant out[..] == Written(before, dest, Samples(f, row, i))
    {
      inb, from := UnpackSample(f, per, high, mul, buf, cur, out, dest, i, inb, from, scale, row, before);
    }
  }

  /** Below eight bits: one byte to the sample. */
  method UnpackRow(f: Format, buf: array<byte>, cur: nat, out: array<byte>, dest: nat, n: nat, ghost row: seq<byte>)
    requires f.WellFormed() && f.depth < 8 && buf != out && Holds(f, |row|, n)
    requires cur + |row| <= buf.Length && row == buf[cur..cur + |row|] && dest + n <= out.Length
    modifies out
    ensures out[..] == Written(old(out[..]), dest, Samples(f, row, n))
  {
    var scale := if f.gray then DEPTH_SCALE[f.depth] else 1;
    ScaleTable(f);
    if f.depth == 4 {
      ExpandBits(f, 2, 16, 16, buf, cur, out, dest, n, scale, row);
    } else if f.depth == 2 {
      ExpandBits(f, 4, 64, 4, buf, cur, out, dest, n, scale, row);
    } else {
      ExpandBits(f, 8, 128, 2, buf, cur, out, dest, n, scale, row);
    }
  }

  /** Spreads samples that were unpacked to where the pixels go. */
  method InsertAlpha(imgN: nat, out: array<byte>, dest: nat, x: nat, ghost before: seq<byte>, ghost s: seq<byte>)
    requires imgN in {1, 3} && |s| == imgN * x && out.Length == |before| && dest + (imgN + 1) * x <= |before|
    requires out[..] == Written(before, dest, s)
    modifies out
    ensures x * imgN <= |s| && |Pixels(s, imgN, [0xFF], x)| == (imgN + 1) * x
    ensures out[..] == Written(before, dest, Pixels(s, imgN, [0xFF], x))
  {
    WrittenOver(before, dest, s, Pixels(s, imgN, [0xFF], x));
    if imgN == 1 {
      assert out[dest..dest + x] == s;
      AlphaExpandGray(out, dest, out, dest, x);
    } else {
      assert out[dest..dest + 3 * x] == s;
      AlphaExpandColour(out, dest, out, dest, x);
    }
  }

  /** Eight bits without alpha. */
  method CopyRow(buf: array<byte>, cur: nat, out: array<byte>, dest: nat, n: nat)
    requires buf != out && cur + n <= buf.Length && dest + n <= out.Length
    modifies out
    ensures out[..] == Written(old(out[..]), dest, buf[cur..cur + n])
  {
    ghost var before := out[..];
    forall i | 0 <= i < n { out[dest + i] := buf[cur + i]; }
    WrittenAt(before, out[..], dest, buf[cur..cur + n]);
  }

  /** Eight bits with alpha. */
  method SpreadRow(imgN: nat, buf: array<byte>, cur: nat, out: array<byte>, dest: nat, x: nat, ghost row: seq<byte>)
    requires imgN in {1, 3} && buf != out && |row| == imgN * x && dest + (imgN + 1) * x <= out.Length
    requires cur + |row| <= buf.Length && row == buf[cur..cur + |row|]
    modifies out
    ensures x * imgN <= |row| && |Pixels(row, imgN, [0xFF], x)| == (imgN + 1) * x
    ensures out[..] == Written(old(out[..]), dest, Pixels(row, imgN, [0xFF], x))
  {
    if imgN == 1 {
      AlphaExpandGray(out, dest, buf, cur, x);
    } else {
      AlphaExpandColour(out, dest, buf, cur, x);
    }
  }

  lemma {:induction false} BytesAreSamples(f: Format, row: seq<byte>, n: nat)
    requires f.WellFormed() && f.depth == 8 && n <= |row|
    ensures Samples(f, row, n) == row[..n]
    decreases n
  {
    if n > 0 { BytesAreSamples(f, row, n - 1); }
  }

  // ---- sixteen bits ----

  lemma {:induction false} WideSampleAt(f: Format, row: seq<byte>, n: nat, i: nat)
    requires f.WellFormed() && f.depth == 16 && Holds(f, |row|, n) && i < n
    ensures Samples(f, row, n)[2 * i..2 * i + 2] == Sample(f, row, i)
    decreases n
  {
    if i < n - 1 {
      WideSampleAt(f, row, n - 1, i);
      assert Samples(f, row, n)[2 * i..2 * i + 2] == Samples(f, row, n - 1)[2 * i..2 * i + 2];
    }
  }

  /** Stores two bytes after what has been written. */
  method StorePair(out: array<byte>, at: nat, a: byte, b: byte, ghost before: seq<byte>, ghost dest: nat,
                   ghost t: seq<byte>)
    requires dest + |t| == at && at + 1 < out.Length == |before| && out[..] == Written(before, dest, t)
    modifies out
    ensures out[..] == Written(before, dest, t + [a, b])
  {
    WrittenNext(before, dest, t, a);
    WrittenNext(before, dest, t + [a], b);
    assert t + [a] + [b] == t + [a, b];
    out[at] := a;
    out[at + 1] := b;
  }

  /** One sample, from network order to the platform's. */
  method StoreWide(f: Format, buf: array<byte>, cur: nat, out: array<byte>, at: nat, i: nat, ghost row: seq<byte>,
                   ghost before: seq<byte>, ghost dest: nat, ghost t: seq<byte>)
    requires f.WellFormed() && f.depth == 16 && buf != out && 2 * i + 2 <= |row|
    requires cur + |row| <= buf.Length && row == buf[cur..cur + |row|]
    requires dest + |t| == at && at + 1 < out.Length == |before| && out[..] == Written(before, dest, t)
    modifies out
    ensures out[..] == Written(before, dest, t + Sample(f, row, i))
  {
    assert row[2 * i] == buf[cur + 2 * i] && row[2 * i + 1] == buf[cur + 2 * i + 1];
    var high, low := buf[cur + 2 * i], buf[cur + 2 * i + 1];
    if f.bigEndian {
      StorePair(out, at, high, low, before, dest, t);
    } else {
      StorePair(out, at, low, high, before, dest, t);
    }
  }

  /** Sixteen bits without alpha. */
  method ExpandWide(f: Format, buf: array<byte>, cur: nat, out: array<byte>, dest: nat, n: nat, ghost row: seq<byte>)
    requires f.WellFormed() && f.depth == 16 && buf != out && Holds(f, |row|, n)
    requires cur + |row| <= buf.Length && row == buf[cur..cur + |row|] && dest + 2 * n <= out.Length
    modifies out
    ensures out[..] == Written(old(out[..]), dest, Samples(f, row, n))
  {
    ghost var before := out[..];
    for i := 0 to n
      invariant out[..] == Written(before, dest, Samples(f, row, i))
    {
      StoreWide(f, buf, cur, out, dest + 2 * i, i, row, before, dest, Samples(f, row, i));
    }
  }

  /** Sixteen bits with alpha: the samples of a pixel, then 0xFFFF. */
  method ExpandWideAlpha(f: Format, buf: array<byte>, cur: nat, out: array<byte>, dest: nat, x: nat,
                         ghost row: seq<byte>, ghost n: nat, ghost w: nat, ghost s: seq<byte>, ghost all: seq<byte>)
    requires f.WellFormed() && f.depth == 16 && buf != out && Holds(f, |row|, n)
    requires cur + |row| <= buf.Length && row == buf[cur..cur + |row|]
    requires s == Samples(f, row, n) && w == 2 * f.imgN && x * w == |s|
    requires all == Pixels(s, w, [0xFF, 0xFF], x) && dest + |all| <= out.Length
    modifies out
    ensures out[..] == Written(old(out[..]), dest, all)
  {
    ghost var before, p, o: nat := out[..], [], 0;
    var k: nat, at: nat, i: nat := 0, dest, 0;
    while i < x
      invariant i <= x && 2 * k == o == i * w && o <= |s| && p == Pixels(s, w, [0xFF, 0xFF], i)
      invariant |p| <= |all| && at == dest + |p| && out[..] == Written(before, dest, p)
    {
      ghost var p' := NextPixel(s, w, i, x, o, all);
      WidePixel(f, buf, cur, out, at, k, row, before, dest, n, s, p, p');
      p, o := p', o + w;
      k, at := k + f.imgN, at + 2 * f.imgN + 2;
      i := i + 1;
    }
  }

  lemma NextPixel(s: seq<byte>, w: nat, i: nat, x: nat, o: nat, all: seq<byte>) returns (p: seq<byte>)
    requires i < x && x * w <= |s| && all == Pixels(s, w, [0xFF, 0xFF], x) && o == i * w <= |s|
    ensures (i + 1) * w == o + w <= |s|
    ensures p == Pixels(s, w, [0xFF, 0xFF], i + 1) == Pixels(s, w, [0xFF, 0xFF], i) + s[o..o + w] + [0xFF, 0xFF]
    ensures |p| <= |all|
  {
    MulDistribute(i, 1, w);
    MulMonotone(i + 1, x, w);
    MulMonotone(i + 1, x, w + 2);
    p := Pixels(s, w, [0xFF, 0xFF], i + 1);
  }

  lemma SliceNext(p: seq<byte>, s: seq<byte>, a: nat, b: nat, c: nat)
    requires a <= b <= c <= |s|
    ensures p + s[a..b] + s[b..c] == p + s[a..c]
  {}

  /** Sample number `k` of the row, at `b` of the samples' bytes. */
  method WideSample(f: Format, buf: array<byte>, cur: nat, out: array<byte>, at: nat, k: nat, ghost row: seq<byte>,
                    ghost before: seq<byte>, ghost dest: nat, ghost n: nat, ghost s: seq<byte>, ghost p: seq<byte>,
                    ghost a: nat, ghost b: nat)
    requires f.WellFormed() && f.depth == 16 && buf != out && Holds(f, |row|, n) && s == Samples(f, row, n)
    requires cur + |row| <= buf.Length && row == buf[cur..cur + |row|] && a <= b == 2 * k && b + 2 <= |s|
    requires at == dest + |p| + (b - a) && at + 2 <= out.Length == |before|
    requires out[..] == Written(before, dest, p + s[a..b])
    modifies out
    ensures out[..] == Written(before, dest, p + s[a..b + 2])
  {
    WideSampleAt(f, row, n, k);
    SliceNext(p, s, a, b, b + 2);
    StoreWide(f, buf, cur, out, at, k, row, before, dest, p + s[a..b]);
  }

  /** The samples of a pixel. */
  method WideSamples(f: Format, buf: array<byte>, cur: nat, out: array<byte>, at0: nat, k: nat, ghost row: seq<byte>,
                     ghost before: seq<byte>, ghost dest: nat, ghost n: nat, ghost s: seq<byte>, ghost p: seq<byte>)
    returns (at: nat, ghost t: seq<byte>)
    requires f.WellFormed() && f.depth == 16 && buf != out && Holds(f, |row|, n) && s == Samples(f, row, n)
    requires cur + |row| <= buf.Length && row == buf[cur..cur + |row|] && 2 * k + 2 * f.imgN <= |s|
    requires at0 == dest + |p| && dest + |p| + 2 * f.imgN <= out.Length == |before|
    requires out[..] == Written(before, dest, p)
    modifies out
    ensures t == p + s[2 * k..2 * k + 2 * f.imgN] && at == dest + |t|
    ensures out[..] == Written(before, dest, t)
  {
    ghost var a: nat, b: nat := 2 * k, 2 * k;
    at := at0;
    var c: nat := 0;
    assert p + s[a..b] == p;
    while c < f.imgN
      invariant c <= f.imgN && b == 2 * (k + c) && at == dest + |p| + (b - a)
      invariant out[..] == Written(before, dest, p + s[a..b])
    {
      WideSample(f, buf, cur, out, at, k + c, row, before, dest, n, s, p, a, b);
      c, at, b := c + 1, at + 2, b + 2;
    }
    t := p + s[a..b];
  }

  /** One pixel: `imgN` samples from number `k` on, and alpha. */
  method WidePixel(f: Format, buf: array<byte>, cur: nat, out: array<byte>, at0: nat, k: nat, ghost row: seq<byte>,
                   ghost before: seq<byte>, ghost dest: nat, ghost n: nat, ghost s: seq<byte>, ghost p: seq<byte>,
                   ghost p': seq<byte>)
    requires f.WellFormed() && f.depth == 16 && buf != out && Holds(f, |row|, n) && s == Samples(f, row, n)
    requires cur + |row| <= buf.Length && row == buf[cur..cur + |row|] && 2 * k + 2 * f.imgN <= |s|
    requires p' == p + s[2 * k..2 * k + 2 * f.imgN] + [0xFF, 0xFF]
    requires at0 == dest + |p| && dest + |p'| <= out.Length == |before|
    requires out[..] == Written(before, dest, p)
    modifies out
    ensures out[..] == Written(before, dest, p')
  {
    ghost var t;
    var at: nat;
    at, t := WideSamples(f, buf, cur, out, at0, k, row, before, dest, n, s, p);
    StorePair(out, at, 0xFF, 0xFF, before, dest, t);
  }

  // ---- the whole row ----

  /** What a row's output is made of. */
  lemma RowShape(f: Format, row: seq<byte>, x: nat, n: nat)
    requires f.WellFormed() && |row| == f.RowBytes(x) && n == f.imgN * x
    ensures Holds(f, |row|, n) && x * (f.imgN * f.SampleBytes()) == |Samples(f, row, n)| == n * f.SampleBytes()
    ensures RowOut(f, row, x) == Pixels(Samples(f, row, n), f.imgN * f.SampleBytes(), Alpha(f), x)
  {
    RowHoldsPixels(f, x);
    RowLength(f, x);
  }

  /** Without an added channel the output is the samples. */
  lemma PlainShape(f: Format, row: seq<byte>, x: nat, n: nat)
    requires f.WellFormed() && f.outN == f.imgN && |row| == f.RowBytes(x) && n == f.imgN * x
    ensures Holds(f, |row|, n) && RowOut(f, row, x) == Samples(f, row, n)
  {
    RowShape(f, row, x, n);
    WholePixels(Samples(f, row, n), f.imgN * f.SampleBytes(), x);
  }

  lemma WholePixels(s: seq<byte>, w: nat, x: nat)
    requires |s| == x * w
    ensures Pixels(s, w, [], x) == s
  {
    PixelsWithoutAlpha(s, w, x);
    assert s[..|s|] == s;
  }

  /** Samples of a byte each are the bytes of the row. */
  lemma ByteShape(f: Format, row: seq<byte>, x: nat, n: nat)
    requires f.WellFormed() && f.depth == 8 && |row| == f.RowBytes(x) && n == f.imgN * x
    ensures |row| == n && Holds(f, |row|, n) && Samples(f, row, n) == row
  {
    BytesAreSamples(f, row, n);
    assert row[..n] == row;
  }

  /** The same with alpha, by the size of a sample. */
  lemma NarrowAlphaShape(f: Format, row: seq<byte>, x: nat, n: nat)
    requires f.WellFormed() && f.outN == f.imgN + 1 && |row| == f.RowBytes(x) && n == f.imgN * x && f.depth <= 8
    ensures Holds(f, |row|, n) && x * f.imgN == |Samples(f, row, n)| == n
    ensures RowOut(f, row, x) == Pixels(Samples(f, row, n), f.imgN, [0xFF], x)
    ensures |RowOut(f, row, x)| == (f.imgN + 1) * x
  {
    RowShape(f, row, x, n);
    NarrowWidth(f);
    PixelsLength(Samples(f, row, n), f.imgN, x);
  }

  lemma NarrowWidth(f: Format)
    requires f.WellFormed() && f.depth <= 8
    ensures f.imgN * f.SampleBytes() == f.imgN
  {}

  lemma PixelsLength(s: seq<byte>, imgN: nat, x: nat)
    requires x * imgN <= |s|
    ensures |Pixels(s, imgN, [0xFF], x)| == (imgN + 1) * x
  {
    assert |[0xFF]| == 1;
    assert x * (imgN + 1) == (imgN + 1) * x;
  }

  lemma WideAlphaShape(f: Format, row: seq<byte>, x: nat, n: nat, w: nat)
    requires f.WellFormed() && f.outN == f.imgN + 1 && |row| == f.RowBytes(x) && n == f.imgN * x && f.depth == 16
    requires w == 2 * f.imgN
    ensures Holds(f, |row|, n) && x * w == |Samples(f, row, n)|
    ensures RowOut(f, row, x) == Pixels(Samples(f, row, n), w, [0xFF, 0xFF], x)
  {
    RowShape(f, row, x, n);
  }

  /** A reconstructed scanline to its place in the output, with alpha if one is wanted. */
  method ExpandRow(f: Format, buf: array<byte>, cur: nat, out: array<byte>, dest: nat, x: nat, n: nat,
                   ghost row: seq<byte>)
    requires f.WellFormed() && buf != out && |row| == f.RowBytes(x) && n == f.imgN * x
    requires cur + |row| <= buf.Length && row == buf[cur..cur + |row|] && dest + |RowOut(f, row, x)| <= out.Length
    modifies out
    ensures out[..] == Written(old(out[..]), dest, RowOut(f, row, x))
  {
    if f.outN == f.imgN {
      PlainShape(f, row, x, n);
      if f.depth == 8 { ByteShape(f, row, x, n); }
      ExpandPlain(f, buf, cur, out, dest, n, row);
    } else if f.depth <= 8 {
      ExpandAlpha(f, buf, cur, out, dest, x, row, n);
    } else {
      ghost var w := 2 * f.imgN;
      WideAlphaShape(f, row, x, n, w);
      ExpandWideAlpha(f, buf, cur, out, dest, x, row, n, w, Samples(f, row, n), RowOut(f, row, x));
    }
  }

  method ExpandPlain(f: Format, buf: array<byte>, cur: nat, out: array<byte>, dest: nat, n: nat, ghost row: seq<byte>)
    requires f.WellFormed() && buf != out && Holds(f, |row|, n) && (f.depth == 8 ==> |row| == n)
    requires cur + |row| <= buf.Length && row == buf[cur..cur + |row|] && dest + |Samples(f, row, n)| <= out.Length
    modifies out
    ensures out[..] == Written(old(out[..]), dest, Samples(f, row, n))
  {
    if f.depth < 8 {
      UnpackRow(f, buf, cur, out, dest, n, row);
    } else if f.depth == 8 {
      BytesAreSamples(f, row, n);
      assert row[..n] == row;
      CopyRow(buf, cur, out, dest, n);
    } else {
      ExpandWide(f, buf, cur, out, dest, n, row);
    }
  }

  method ExpandAlpha(f: Format, buf: array<byte>, cur: nat, out: array<byte>, dest: nat, x: nat, ghost row: seq<byte>,
                     n: nat)
    requires f.WellFormed() && f.depth <= 8 && f.outN == f.imgN + 1 && buf != out && |row| == f.RowBytes(x)
    requires n == f.imgN * x
    requires cur + |row| <= buf.Length && row == buf[cur..cur + |row|] && dest + |RowOut(f, row, x)| <= out.Length
    modifies out
    ensures out[..] == Written(old(out[..]), dest, RowOut(f, row, x))
  {
    NarrowAlphaShape(f, row, x, n);
    if f.depth < 8 {
      UnpackAndSpread(f, f.imgN, buf, cur, out, dest, x, row, n);
    } else {
      ByteShape(f, row, x, n);
      SpreadRow(f.imgN, buf, cur, out, dest, x, row);
    }
  }

  /** Below eight bits the samples are unpacked first and then spread in place. */
  method UnpackAndSpread(f: Format, imgN: nat, buf: array<byte>, cur: nat, out: array<byte>, dest: nat, x: nat,
                         ghost row: seq<byte>, n: nat)
    requires f.WellFormed() && f.depth < 8 && imgN in {1, 3} && buf != out && n == imgN * x && Holds(f, |row|, n)
    requires cur + |row| <= buf.Length && row == buf[cur..cur + |row|] && dest + (imgN + 1) * x <= out.Length
    modifies out
    ensures x * imgN <= |Samples(f, row, n)| && |Pixels(Samples(f, row, n), imgN, [0xFF], x)| == (imgN + 1) * x
    ensures out[..] == Written(old(out[..]), dest, Pixels(Samples(f, row, n), imgN, [0xFF], x))
  {
    ghost var before := out[..];
    assert n <= (imgN + 1) * x;
    UnpackRow(f, buf, cur, out, dest, n, row);
    InsertAlpha(imgN, out, dest, x, before, Samples(f, row, n));
  }
}
