/** Writing image data of any format, plain or interlaced: the rows of the image or of its seven passes, each with a
    filter of the encoder's choice. */
module PngEncode {
  import opened Bits
  import opened Sizes
  import opened PngFilters
  import opened PngImage
  import opened PngRows
  import opened PngRaw
  import opened Adam7

  /** An image of the right size. */
  predicate Fits(f: Format, img: seq<byte>, width: nat, height: nat) {
    |img| == Times(height, Times(width, f.PixelBytes())) && width <= MAX_DIMENSION && height <= MAX_DIMENSION
  }

  /** Whose pixels the format has. */
  predicate WritableImage(f: Format, img: seq<byte>, width: nat, height: nat) {
    && f.WellFormed() && Fits(f, img, width, height)
    && forall c: nat, r: nat :: c < width && r < height ==> PixelWritable(f, img, width, c, r)
  }

  predicate PixelWritable(f: Format, img: seq<byte>, width: nat, c: nat, r: nat)
    requires f.WellFormed()
  {
    Writable(f, PixelAt(img, Times(width, f.PixelBytes()), f.PixelBytes(), c, r))
  }

  /** From eight bits on and without an added channel any image can be written. */
  lemma WholeBytesWritable(f: Format, img: seq<byte>, width: nat, height: nat)
    requires f.WellFormed() && f.depth >= 8 && f.outN == f.imgN && Fits(f, img, width, height)
    ensures WritableImage(f, img, width, height)
  {
    forall c: nat, r: nat | c < width && r < height ensures PixelWritable(f, img, width, c, r) {
      OffsetInside(width, height, Times(width, f.PixelBytes()), f.PixelBytes(), c, r);
    }
  }

  /** Pixels of a row of a pass are pixels of the image. */
  lemma ExtractWritable(f: Format, img: seq<byte>, width: nat, height: nat, p: nat, j: nat, row: nat, bytes: nat)
    requires WritableImage(f, img, width, height) && p < 7 && j < PassHeight(p, height)
    requires bytes == f.PixelBytes() && row == Times(width, bytes)
    ensures WritableRow(f, ExtractRow(img, width, height, row, bytes, p, j, PassWidth(p, width)), PassWidth(p, width))
  {
    var x := PassWidth(p, width);
    var s := ExtractRow(img, width, height, row, bytes, p, j, x);
    forall k: nat | k < x ensures Writable(f, Item(s, bytes, k)) {
      ExtractRowAt(img, width, height, row, bytes, p, j, x, k);
      PlaceIsPixel(p, k, j, width, height);
      assert PixelWritable(f, img, width, ColumnOf(p, k), RowOf(p, j));
    }
  }

  /** Row `j` of a pass, as a scanline. */
  function PassLine(f: Format, img: seq<byte>, width: nat, height: nat, p: nat, j: nat): (line: seq<byte>)
    requires WritableImage(f, img, width, height) && p < 7 && j < PassHeight(p, height)
    ensures |line| == f.RowBytes(PassWidth(p, width))
  {
    var bytes := f.PixelBytes();
    ExtractWritable(f, img, width, height, p, j, Times(width, bytes), bytes);
    ScanlineFor(f, ExtractRow(img, width, height, Times(width, bytes), bytes, p, j, PassWidth(p, width)),
                PassWidth(p, width))
  }

  lemma PassLineOut(f: Format, img: seq<byte>, width: nat, height: nat, p: nat, j: nat, row: nat, bytes: nat, x: nat,
                    line: seq<byte>)
    requires WritableImage(f, img, width, height) && p < 7 && j < PassHeight(p, height)
    requires bytes == f.PixelBytes() && row == Times(width, bytes) && x == PassWidth(p, width)
    requires line == PassLine(f, img, width, height, p, j)
    ensures |line| == f.RowBytes(x) && RowOut(f, line, x) == ExtractRow(img, width, height, row, bytes, p, j, x)
  {
    ExtractWritable(f, img, width, height, p, j, row, bytes);
    ScanlineOut(f, ExtractRow(img, width, height, row, bytes, p, j, x), x);
  }

  // ---- rows and what they are read as ----

  function Flat(outs: seq<seq<byte>>): seq<byte> {
    if outs == [] then [] else Flat(outs[..|outs| - 1]) + outs[|outs| - 1]
  }

  /** A scanline that is read as these pixels. */
  predicate ReadAs(f: Format, line: seq<byte>, x: nat, s: seq<byte>)
    requires f.WellFormed()
  {
    |line| == f.RowBytes(x) && RowOut(f, line, x) == s
  }

  predicate AllReadAs(f: Format, lines: seq<seq<byte>>, x: nat, outs: seq<seq<byte>>)
    requires f.WellFormed()
  {
    |lines| == |outs| && forall k :: 0 <= k < |lines| ==> ReadAs(f, lines[k], x, outs[k])
  }

  lemma {:induction false} RowsOutIs(f: Format, lines: seq<seq<byte>>, x: nat, outs: seq<seq<byte>>)
    requires f.WellFormed() && AllReadAs(f, lines, x, outs)
    ensures (forall k :: 0 <= k < |lines| ==> |lines[k]| == f.RowBytes(x)) && RowsOut(f, lines, x) == Flat(outs)
    decreases |lines|
  {
    forall k | 0 <= k < |lines| ensures |lines[k]| == f.RowBytes(x) { assert ReadAs(f, lines[k], x, outs[k]); }
    if lines != [] {
      var n := |lines| - 1;
      RowsOutIs(f, lines[..n], x, outs[..n]);
      assert ReadAs(f, lines[n], x, outs[n]);
    }
  }

  lemma {:induction false} ExtractIs(img: seq<byte>, width: nat, height: nat, row: nat, passRow: nat, bytes: nat,
                                     p: nat, y: nat, outs: seq<seq<byte>>)
    requires p < 7 && width <= MAX_DIMENSION && height <= MAX_DIMENSION && row == Times(width, bytes)
    requires |img| == Times(height, row) && y <= PassHeight(p, height) && passRow == Times(PassWidth(p, width), bytes)
    requires |outs| == y
    requires forall j: nat :: j < y ==> outs[j] == ExtractRow(img, width, height, row, bytes, p, j, PassWidth(p, width))
    ensures Extract(img, width, height, row, passRow, bytes, p, y) == Flat(outs)
    decreases y
  {
    if y > 0 { ExtractIs(img, width, height, row, passRow, bytes, p, y - 1, outs[..y - 1]); }
  }

  /** The rows of a pass. */
  function PassLines(f: Format, img: seq<byte>, width: nat, height: nat, p: nat): (rows: seq<seq<byte>>)
    requires WritableImage(f, img, width, height) && p < 7
  {
    seq(PassHeight(p, height), j requires 0 <= j < PassHeight(p, height) => PassLine(f, img, width, height, p, j))
  }

  /** What they are read as. */
  function PassOuts(img: seq<byte>, width: nat, height: nat, row: nat, bytes: nat, p: nat): (outs: seq<seq<byte>>)
    requires p < 7 && width <= MAX_DIMENSION && height <= MAX_DIMENSION && row == Times(width, bytes)
    requires |img| == Times(height, row)
    ensures |outs| == PassHeight(p, height)
    ensures forall j: nat :: j < |outs| ==>
              outs[j] == ExtractRow(img, width, height, row, bytes, p, j, PassWidth(p, width))
  {
    seq(PassHeight(p, height), j requires 0 <= j < PassHeight(p, height) =>
      ExtractRow(img, width, height, row, bytes, p, j, PassWidth(p, width)))
  }

  lemma PassLinesRead(f: Format, img: seq<byte>, width: nat, height: nat, p: nat, row: nat, bytes: nat, x: nat)
    requires WritableImage(f, img, width, height) && p < 7
    requires bytes == f.PixelBytes() && row == Times(width, bytes) && x == PassWidth(p, width)
    ensures AllReadAs(f, PassLines(f, img, width, height, p), x, PassOuts(img, width, height, row, bytes, p))
  {
    var lines, outs := PassLines(f, img, width, height, p), PassOuts(img, width, height, row, bytes, p);
    forall j | 0 <= j < |lines| ensures ReadAs(f, lines[j], x, outs[j]) {
      PassLineOut(f, img, width, height, p, j, row, bytes, x, lines[j]);
    }
  }

  /** Put together, the rows of a pass are its reduced image. */
  lemma LinesAreExtract(f: Format, img: seq<byte>, width: nat, height: nat, p: nat, row: nat, passRow: nat, bytes: nat,
                        x: nat, lines: seq<seq<byte>>)
    requires WritableImage(f, img, width, height) && p < 7
    requires bytes == f.PixelBytes() && row == Times(width, bytes) && x == PassWidth(p, width)
    requires passRow == Times(x, bytes) && lines == PassLines(f, img, width, height, p)
    ensures forall k :: 0 <= k < |lines| ==> |lines[k]| == f.RowBytes(x)
    ensures RowsOut(f, lines, x) == Extract(img, width, height, row, passRow, bytes, p, PassHeight(p, height))
  {
    var outs := PassOuts(img, width, height, row, bytes, p);
    PassLinesRead(f, img, width, height, p, row, bytes, x);
    RowsOutIs(f, lines, x, outs);
    ExtractIs(img, width, height, row, passRow, bytes, p, PassHeight(p, height), outs);
  }

  /** The rows of pass `p`; an empty pass has none. */
  function RowsOfPass(f: Format, img: seq<byte>, width: nat, height: nat, p: nat): seq<seq<byte>>
    requires WritableImage(f, img, width, height) && p < 7
  {
    if PassWidth(p, width) == 0 then [] else PassLines(f, img, width, height, p)
  }

  lemma EmptyExtract(f: Format, img: seq<byte>, width: nat, height: nat, p: nat, passRow: nat)
    requires Fits(f, img, width, height) && p < 7 && PassWidth(p, width) == 0
    requires passRow == Times(PassWidth(p, width), f.PixelBytes())
    ensures Extract(img, width, height, Times(width, f.PixelBytes()), passRow, f.PixelBytes(), p, PassHeight(p, height))
         == []
  {
    TimesIs(PassHeight(p, height), 0);
  }

  lemma PassIsExtract(f: Format, img: seq<byte>, width: nat, height: nat, p: nat, passRow: nat)
    requires WritableImage(f, img, width, height) && p < 7 && passRow == Times(PassWidth(p, width), f.PixelBytes())
    ensures forall k :: 0 <= k < |RowsOfPass(f, img, width, height, p)| ==>
              |RowsOfPass(f, img, width, height, p)[k]| == f.RowBytes(PassWidth(p, width))
    ensures RowsOut(f, RowsOfPass(f, img, width, height, p), PassWidth(p, width))
         == Extract(img, width, height, Times(width, f.PixelBytes()), passRow, f.PixelBytes(), p, PassHeight(p, height))
  {
    if PassWidth(p, width) == 0 {
      EmptyExtract(f, img, width, height, p, passRow);
    } else {
      LinesAreExtract(f, img, width, height, p, Times(width, f.PixelBytes()), passRow, f.PixelBytes(),
                      PassWidth(p, width), RowsOfPass(f, img, width, height, p));
    }
  }

  /** The rows of all passes. */
  function AllRows(f: Format, img: seq<byte>, width: nat, height: nat): (rows: seq<seq<seq<byte>>>)
    requires WritableImage(f, img, width, height)
    ensures |rows| == 7
  {
    seq(7, p requires 0 <= p < 7 => RowsOfPass(f, img, width, height, p))
  }

  /** A filter type for every row of every pass. */
  predicate Filters(types: seq<seq<byte>>, width: nat, height: nat) {
    |types| == 7 && forall p: nat :: p < 7 ==> PassFilters(types[p], width, height, p)
  }

  predicate PassFilters(types: seq<byte>, width: nat, height: nat, p: nat)
    requires p < 7
  {
    && |types| == (if PassWidth(p, width) == 0 then 0 else PassHeight(p, height))
    && forall k :: 0 <= k < |types| ==> types[k] <= 4
  }

  lemma RowsAreRows(f: Format, img: seq<byte>, types: seq<seq<byte>>, width: nat, height: nat)
    requires WritableImage(f, img, width, height) && Filters(types, width, height)
    ensures forall q: nat :: q < 7 ==> PassRows(f, AllRows(f, img, width, height)[q], types[q], width, height, q)
  {
    forall q: nat | q < 7 ensures PassRows(f, AllRows(f, img, width, height)[q], types[q], width, height, q) {
      assert PassFilters(types[q], width, height, q);
      PassIsExtract(f, img, width, height, q, Times(PassWidth(q, width), f.PixelBytes()));
    }
  }

  /** The next reduced image. */
  lemma InterlaceNext(f: Format, img: seq<byte>, width: nat, height: nat, p: nat, row: nat) returns (pass: seq<byte>)
    requires Fits(f, img, width, height) && p < 7 && row == Times(width, f.PixelBytes())
    ensures Interlace(img, width, height, row, f.PixelBytes(), p + 1)
         == Interlace(img, width, height, row, f.PixelBytes(), p) + [pass]
    ensures pass
         == Extract(img, width, height, row, Times(PassWidth(p, width), f.PixelBytes()), f.PixelBytes(), p,
                    PassHeight(p, height))
  {
    pass := Extract(img, width, height, row, Times(PassWidth(p, width), f.PixelBytes()), f.PixelBytes(), p,
                    PassHeight(p, height));
  }

  lemma PixelsNext(f: Format, rows: seq<seq<seq<byte>>>, types: seq<seq<byte>>, width: nat, height: nat, p: nat)
    requires f.WellFormed() && |rows| == |types| == 7 && p < 7
    requires forall q: nat :: q < 7 ==> PassRows(f, rows[q], types[q], width, height, q)
    ensures forall k :: 0 <= k < |rows[p]| ==> |rows[p][k]| == f.RowBytes(PassWidth(p, width))
    ensures PassPixels(f, rows, types, width, height, p)
         == [RowsOut(f, rows[p], PassWidth(p, width))] + PassPixels(f, rows, types, width, height, p + 1)
  {
    assert PassRows(f, rows[p], types[p], width, height, p);
  }

  lemma Regroup<T>(before: seq<T>, pass: T, after: seq<T>)
    ensures before + ([pass] + after) == before + [pass] + after
  {}

  /** From pass `p` on, the pixels of the rows are the reduced images. */
  lemma {:induction false} PixelsAreInterlaced(f: Format, img: seq<byte>, rows: seq<seq<seq<byte>>>,
                                               types: seq<seq<byte>>, width: nat, height: nat, p: nat, row: nat)
    requires WritableImage(f, img, width, height) && p <= 7 && row == Times(width, f.PixelBytes())
    requires |types| == 7 && rows == AllRows(f, img, width, height)
    requires forall q: nat :: q < 7 ==> PassRows(f, rows[q], types[q], width, height, q)
    ensures Interlace(img, width, height, row, f.PixelBytes(), p) + PassPixels(f, rows, types, width, height, p)
         == Interlace(img, width, height, row, f.PixelBytes(), 7)
    decreases 7 - p
  {
    if p < 7 {
      PixelsAreInterlaced(f, img, rows, types, width, height, p + 1, row);
      PassIsExtract(f, img, width, height, p, Times(PassWidth(p, width), f.PixelBytes()));
      var pass := InterlaceNext(f, img, width, height, p, row);
      PixelsNext(f, rows, types, width, height, p);
      Regroup(Interlace(img, width, height, row, f.PixelBytes(), p), pass,
              PassPixels(f, rows, types, width, height, p + 1));
    }
  }

  // ---- without passes ----

  lemma RowWritable(f: Format, img: seq<byte>, width: nat, height: nat, j: nat, row: nat, bytes: nat)
    requires WritableImage(f, img, width, height) && j < height && bytes == f.PixelBytes() && row == Times(width, bytes)
    ensures WritableRow(f, Item(img, row, j), width)
  {
    TimesMonotone(j, height, row);
    var s := Item(img, row, j);
    forall k: nat | k < width ensures Writable(f, Item(s, bytes, k)) {
      TimesMonotone(k, width, bytes);
      assert PixelWritable(f, img, width, k, j);
      ItemOfItem(img, row, bytes, k, j, s);
    }
  }

  lemma ItemOfItem(img: seq<byte>, row: nat, bytes: nat, k: nat, j: nat, s: seq<byte>)
    requires Times(j, row) + row <= |img| && Times(k, bytes) + bytes <= row && s == Item(img, row, j)
    ensures Item(s, bytes, k) == PixelAt(img, row, bytes, k, j)
  {
    var o, i := Times(j, row), Times(k, bytes);
    ItemIs(img, row, j, o);
    ItemIs(s, bytes, k, i);
    PixelIs(img, row, bytes, k, j, o + i);
    SliceOfSlice(img, o, row, s, i, bytes, o + i);
  }

  lemma ItemIs(p: seq<byte>, w: nat, k: nat, o: nat)
    requires o == Times(k, w) && o + w <= |p|
    ensures Item(p, w, k) == p[o..o + w]
  {}

  lemma PixelIs(img: seq<byte>, row: nat, bytes: nat, k: nat, j: nat, o: nat)
    requires o == Offset(row, bytes, k, j) && o + bytes <= |img|
    ensures PixelAt(img, row, bytes, k, j) == img[o..o + bytes]
  {}

  lemma SliceOfSlice(s: seq<byte>, o: nat, n: nat, t: seq<byte>, i: nat, m: nat, at: nat)
    requires o + n <= |s| && t == s[o..o + n] && i + m <= n && at == o + i
    ensures t[i..i + m] == s[at..at + m]
  {
    var a, b := t[i..i + m], s[at..at + m];
    assert |a| == |b| && forall k :: 0 <= k < m ==> a[k] == b[k];
  }

  /** Row `j` of the image, as a scanline. */
  function ImageLine(f: Format, img: seq<byte>, width: nat, height: nat, j: nat): (line: seq<byte>)
    requires WritableImage(f, img, width, height) && j < height
    ensures |line| == f.RowBytes(width)
  {
    RowWritable(f, img, width, height, j, Times(width, f.PixelBytes()), f.PixelBytes());
    ScanlineFor(f, Item(img, Times(width, f.PixelBytes()), j), width)
  }

  lemma ImageLineOut(f: Format, img: seq<byte>, width: nat, height: nat, j: nat, row: nat, line: seq<byte>)
    requires WritableImage(f, img, width, height) && j < height && row == Times(width, f.PixelBytes())
    requires line == ImageLine(f, img, width, height, j)
    ensures |line| == f.RowBytes(width) && RowOut(f, line, width) == Item(img, row, j)
  {
    RowWritable(f, img, width, height, j, row, f.PixelBytes());
    ScanlineOut(f, Item(img, row, j), width);
  }

  /** All of them. */
  function ImageLines(f: Format, img: seq<byte>, width: nat, height: nat): (rows: seq<seq<byte>>)
    requires WritableImage(f, img, width, height)
    ensures |rows| == height
  {
    seq(height, j requires 0 <= j < height => ImageLine(f, img, width, height, j))
  }

  function Items(img: seq<byte>, row: nat, n: nat): (outs: seq<seq<byte>>)
    ensures |outs| == n && forall j: nat :: j < n ==> outs[j] == Item(img, row, j)
  {
    seq(n, j requires 0 <= j < n => Item(img, row, j))
  }

  lemma {:induction false} ItemsFlat(img: seq<byte>, row: nat, n: nat, outs: seq<seq<byte>>)
    requires Times(n, row) <= |img| && |outs| == n && forall j: nat :: j < n ==> outs[j] == Item(img, row, j)
    ensures Flat(outs) == img[..Times(n, row)]
    decreases n
  {
    if n > 0 {
      ItemsFlat(img, row, n - 1, outs[..n - 1]);
      ItemIs(img, row, n - 1, Times(n - 1, row));
      PrefixNext(img, Times(n - 1, row), Times(n, row));
    }
  }

  lemma PrefixNext(s: seq<byte>, a: nat, b: nat)
    requires a <= b <= |s|
    ensures s[..b] == s[..a] + s[a..b]
  {}

  lemma ImageLinesRead(f: Format, img: seq<byte>, width: nat, height: nat, row: nat)
    requires WritableImage(f, img, width, height) && row == Times(width, f.PixelBytes())
    ensures AllReadAs(f, ImageLines(f, img, width, height), width, Items(img, row, height))
  {
    var lines, outs := ImageLines(f, img, width, height), Items(img, row, height);
    forall j | 0 <= j < |lines| ensures ReadAs(f, lines[j], width, outs[j]) {
      ImageLineOut(f, img, width, height, j, row, lines[j]);
    }
  }

  lemma LinesAreImage(f: Format, img: seq<byte>, width: nat, height: nat, row: nat, lines: seq<seq<byte>>)
    requires WritableImage(f, img, width, height) && row == Times(width, f.PixelBytes())
    requires lines == ImageLines(f, img, width, height)
    ensures forall k :: 0 <= k < |lines| ==> |lines[k]| == f.RowBytes(width)
    ensures RowsOut(f, lines, width) == img
  {
    ImageLinesRead(f, img, width, height, row);
    RowsOutIs(f, lines, width, Items(img, row, height));
    ItemsFlat(img, row, height, Items(img, row, height));
    assert img[..|img|] == img;
  }

  // ---- writing and reading back ----

  /** A plain image, written with any filters and read back. */
  method WritePlainAndRestore(f: Format, img: seq<byte>, types: seq<byte>, width: int32, height: int32,
                              extra: seq<byte>) returns (r: Result)
    requires 1 <= width && 1 <= height && WritableImage(f, img, width, height) && SizesValid(f, width, height)
    requires |types| == height && forall k :: 0 <= k < |types| ==> types[k] <= 4
    ensures r == Image(img)
  {
    var rows, w := ImageLines(f, img, width, height), f.RowBytes(width);
    RowBytesFit(f, width);
    LinesAreImage(f, img, width, height, Times(width, f.PixelBytes()), rows);
    var data := Scanlines(rows, types, w, f.FilterBytes(), Zeros(w)) + extra;
    OneImageBack(f, rows, types, width, height, w, extra, data);
    r := CreatePngImage(f, data, width, height, false);
  }

  /** An interlaced image, written with any filters and read back. */
  method WriteAndRestore(f: Format, img: seq<byte>, types: seq<seq<byte>>, width: int32, height: int32,
                         extra: seq<byte>) returns (r: Result)
    requires 1 <= width && 1 <= height && WritableImage(f, img, width, height) && SizesValid(f, width, height)
    requires Filters(types, width, height)
    ensures r == Image(img)
  {
    var rows := AllRows(f, img, width, height);
    var row := Times(width, f.PixelBytes());
    RowsAreRows(f, img, types, width, height);
    PixelsAreInterlaced(f, img, rows, types, width, height, 0, row);
    r := RestoreImage(f, img, rows, types, width, height, extra);
  }
}
