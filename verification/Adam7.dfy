/** Adam7 interlacing (section 8 of the W3C PNG specification): seven reduced images, scattered into one. */
module Adam7 {
  import opened Bits
  import opened PngFilters
  import opened PngImage
  import opened PngRaw
  import opened Sizes

  // ---- the passes ----

  function XOrig(p: nat): nat { if p == 1 then 4 else if p == 3 then 2 else if p == 5 then 1 else 0 }
  function YOrig(p: nat): nat { if p == 2 then 4 else if p == 4 then 2 else if p == 6 then 1 else 0 }
  function XSpc(p: nat): nat { if p <= 1 then 8 else if p <= 3 then 4 else if p <= 5 then 2 else 1 }
  function YSpc(p: nat): nat { if p <= 2 then 8 else if p <= 4 then 4 else 2 }

  /** The columns, or rows, `orig`, `orig + spc`, ... of an image of this size, counted. */
  function Columns(size: nat, orig: nat, spc: nat): nat
    requires spc > 0
    decreases if orig < size then size - orig else 0
  {
    if orig >= size then 0 else 1 + Columns(size, orig + spc, spc)
  }

  function PassWidth(p: nat, width: nat): nat { Columns(width, XOrig(p), XSpc(p)) }
  function PassHeight(p: nat, height: nat): nat { Columns(height, YOrig(p), YSpc(p)) }

  /** The column, and row, of the image that a pass pixel goes to. */
  function ColumnOf(p: nat, i: nat): nat { i * XSpc(p) + XOrig(p) }
  function RowOf(p: nat, j: nat): nat { j * YSpc(p) + YOrig(p) }

  lemma {:induction false} ColumnsExact(size: nat, orig: nat, spc: nat, i: nat)
    requires spc > 0
    ensures i < Columns(size, orig, spc) <==> i * spc + orig < size
    decreases i
  {
    if i > 0 {
      MulDistribute(i - 1, 1, spc);
      if orig < size { ColumnsExact(size, orig + spc, spc, i - 1); } else { MulMonotone(1, i, spc); }
    }
  }

  /** The size of a pass as it is computed: in unsigned 32-bit arithmetic, where a difference below zero
      wraps around and back. */
  function PassSize(size: nat, orig: nat, spc: nat): int
    requires spc > 0
  {
    (size - orig + spc - 1) % 0x1_0000_0000 / spc
  }

  /** The formula is right, also for images smaller than a pass's origin. */
  lemma PassSizeCounts(size: nat, orig: nat, spc: nat)
    requires orig < spc <= 8 && size <= MAX_DIMENSION
    ensures PassSize(size, orig, spc) == Columns(size, orig, spc)
  {
    var v := size - orig + spc - 1;
    assert v % 0x1_0000_0000 == v;
    QuotientNonNegative(v, spc);
    var q, n := v / spc, Columns(size, orig, spc);
    DivAtLeast(v, spc, n);
    DivAtLeast(v, spc, n + 1);
    MulDistribute(n, 1, spc);
    ColumnsExact(size, orig, spc, n);
    if n > 0 {
      ColumnsExact(size, orig, spc, n - 1);
      MulDistribute(n - 1, 1, spc);
    }
  }

  lemma PassWidthExact(p: nat, width: nat, i: nat)
    requires p < 7 && width <= MAX_DIMENSION
    ensures i < PassWidth(p, width) <==> ColumnOf(p, i) < width
  {
    ColumnsExact(width, XOrig(p), XSpc(p), i);
  }

  lemma PassHeightExact(p: nat, height: nat, j: nat)
    requires p < 7 && height <= MAX_DIMENSION
    ensures j < PassHeight(p, height) <==> RowOf(p, j) < height
  {
    ColumnsExact(height, YOrig(p), YSpc(p), j);
  }

  /** The pass of a pixel, by its coordinates alone. */
  function PassOf(x: nat, y: nat): (p: nat)
    ensures p < 7
  {
    if y % 2 == 1 then 6 else if x % 2 == 1 then 5 else if y % 4 == 2 then 4 else if x % 4 == 2 then 3
    else if y % 8 == 4 then 2 else if x % 8 == 4 then 1 else 0
  }

  /** A pass holds exactly the pixels that `PassOf` gives it. */
  lemma PassMembers(p: nat, x: nat, y: nat)
    requires p < 7
    ensures PassOf(x, y) == p <==> x % XSpc(p) == XOrig(p) && y % YSpc(p) == YOrig(p)
  {
    Residues(x, XSpc(p));
    Residues(y, YSpc(p));
    Residues(x, 2);
    Residues(x, 4);
    Residues(y, 2);
    Residues(y, 4);
    MembersOfTile(p, x % 8, y % 8);
  }

  lemma Residues(x: nat, spc: nat)
    requires spc in {1, 2, 4, 8}
    ensures x % spc == x % 8 % spc
  {
    var rest := if spc == 1 then 8 else if spc == 2 then 4 else if spc == 4 then 2 else 1;
    ModMod(x, spc, rest);
    assert spc * rest == 8;
  }

  /** The pattern of passes in a tile of 8 by 8. */
  lemma MembersOfTile(p: nat, x: nat, y: nat)
    requires p < 7 && x < 8 && y < 8
    ensures PassOf(x, y) == p <==> x % XSpc(p) == XOrig(p) && y % YSpc(p) == YOrig(p)
  {}

  lemma Multiple(x: nat, spc: nat, orig: nat) returns (i: nat)
    requires spc > 0 && x % spc == orig
    ensures i * spc + orig == x
  {
    QuotientNonNegative(x, spc);
    i := x / spc;
  }

  /** Every pixel of the image is one pixel of one pass. */
  lemma PixelHasPlace(x: nat, y: nat, width: nat, height: nat) returns (p: nat, i: nat, j: nat)
    requires x < width <= MAX_DIMENSION && y < height <= MAX_DIMENSION
    ensures p == PassOf(x, y) && i < PassWidth(p, width) && j < PassHeight(p, height)
    ensures ColumnOf(p, i) == x && RowOf(p, j) == y
  {
    p := PassOf(x, y);
    PassMembers(p, x, y);
    i := Multiple(x, XSpc(p), XOrig(p));
    j := Multiple(y, YSpc(p), YOrig(p));
    PassWidthExact(p, width, i);
    PassHeightExact(p, height, j);
  }

  /** And every pixel of every pass is a pixel of the image, in that pass and no other, and at no other place. */
  lemma PlaceIsPixel(p: nat, i: nat, j: nat, width: nat, height: nat)
    requires p < 7 && i < PassWidth(p, width) && j < PassHeight(p, height) && width <= MAX_DIMENSION
    requires height <= MAX_DIMENSION
    ensures ColumnOf(p, i) < width && RowOf(p, j) < height && PassOf(ColumnOf(p, i), RowOf(p, j)) == p
  {
    PassWidthExact(p, width, i);
    PassHeightExact(p, height, j);
    QuotientUnique(ColumnOf(p, i), XSpc(p), i, XOrig(p));
    QuotientUnique(RowOf(p, j), YSpc(p), j, YOrig(p));
    PassMembers(p, ColumnOf(p, i), RowOf(p, j));
  }

  lemma PlaceUnique(p: nat, i: nat, j: nat, i': nat, j': nat)
    requires p < 7 && ColumnOf(p, i) == ColumnOf(p, i') && RowOf(p, j) == RowOf(p, j')
    ensures i == i' && j == j'
  {
    QuotientUnique(ColumnOf(p, i), XSpc(p), i, XOrig(p));
    QuotientUnique(ColumnOf(p, i), XSpc(p), i', XOrig(p));
    QuotientUnique(RowOf(p, j), YSpc(p), j, YOrig(p));
    QuotientUnique(RowOf(p, j), YSpc(p), j', YOrig(p));
  }

  /** The pixels of the first `p` passes. */
  function Areas(p: nat, width: nat, height: nat): nat {
    if p == 0 then 0 else Areas(p - 1, width, height) + Times(PassHeight(p - 1, height), PassWidth(p - 1, width))
  }

  /** Refining a grid doubles it: the columns of one spacing are those of two at twice the spacing. */
  lemma {:induction false} Refine(size: nat, orig: nat, spc: nat, twice: nat)
    requires spc > 0 && twice == 2 * spc
    ensures Columns(size, orig, spc) == Columns(size, orig, twice) + Columns(size, orig + spc, twice)
    decreases if orig < size then size - orig else 0
  {
    if orig < size { Refine(size, orig + spc, spc, twice); }
  }

  lemma {:induction false} AllColumns(size: nat, orig: nat)
    requires orig <= size
    ensures Columns(size, orig, 1) == size - orig
    decreases size - orig
  {
    if orig < size { AllColumns(size, orig + 1); }
  }

  /** The widths of the seven passes, and how each follows from those before. */
  lemma Widths(width: nat) returns (ws: seq<nat>)
    requires width <= MAX_DIMENSION
    ensures |ws| == 7 && forall p: nat :: p < 7 ==> ws[p] == PassWidth(p, width)
    ensures ws[2] == ws[0] + ws[1] && ws[4] == ws[2] + ws[3] && ws[6] == ws[4] + ws[5] == width
  {
    Refine(width, 0, 4, 8);
    Refine(width, 0, 2, 4);
    Refine(width, 0, 1, 2);
    AllColumns(width, 0);
    ws := seq(7, p requires 0 <= p < 7 => PassWidth(p, width));
  }

  lemma Heights(height: nat) returns (hs: seq<nat>)
    requires height <= MAX_DIMENSION
    ensures |hs| == 7 && forall p: nat :: p < 7 ==> hs[p] == PassHeight(p, height)
    ensures hs[1] == hs[0] && hs[3] == hs[0] + hs[2] && hs[5] == hs[3] + hs[4] && hs[5] + hs[6] == height
  {
    Refine(height, 0, 4, 8);
    Refine(height, 0, 2, 4);
    Refine(height, 0, 1, 2);
    AllColumns(height, 0);
    hs := seq(7, p requires 0 <= p < 7 => PassHeight(p, height));
  }

  function AreaSum(ws: seq<nat>, hs: seq<nat>, n: nat): nat
    requires n <= |ws| == |hs|
  {
    if n == 0 then 0 else AreaSum(ws, hs, n - 1) + Times(hs[n - 1], ws[n - 1])
  }

  lemma {:induction false} AreasAreSums(ws: seq<nat>, hs: seq<nat>, width: nat, height: nat, n: nat)
    requires |ws| == |hs| == 7 && n <= 7
    requires forall p: nat :: p < 7 ==> ws[p] == PassWidth(p, width) && hs[p] == PassHeight(p, height)
    ensures Areas(n, width, height) == AreaSum(ws, hs, n)
  {
    if n > 0 { AreasAreSums(ws, hs, width, height, n - 1); }
  }

  /** Two passes complete a grid of half the spacing: one doubles the columns, one the rows. */
  lemma TwoPasses(ws: seq<nat>, hs: seq<nat>, n: nat, w: nat, h: nat)
    requires n + 2 <= |ws| == |hs| && AreaSum(ws, hs, n) == Times(h, w)
    requires hs[n] == h && ws[n + 1] == w + ws[n]
    ensures AreaSum(ws, hs, n + 2) == Times(h + hs[n + 1], w + ws[n])
  {
    TimesBeside(h, w, ws[n]);
    TimesAdd(h, hs[n + 1], w + ws[n]);
    assert AreaSum(ws, hs, n + 1) == Times(h, w + ws[n]);
  }

  /** No pixel is missing and none is sent twice: the passes' areas add up to the image's. */
  lemma AreasAddUp(width: nat, height: nat)
    requires width <= MAX_DIMENSION && height <= MAX_DIMENSION
    ensures Areas(7, width, height) == width * height
  {
    var ws := Widths(width);
    var hs := Heights(height);
    AreasAreSums(ws, hs, width, height, 7);
    FinalSum(ws, hs);
    TimesIs(height, width);
  }

  lemma FinalSum(ws: seq<nat>, hs: seq<nat>)
    requires |ws| == |hs| == 7
    requires ws[2] == ws[0] + ws[1] && ws[4] == ws[2] + ws[3] && ws[6] == ws[4] + ws[5]
    requires hs[1] == hs[0] && hs[3] == hs[0] + hs[2] && hs[5] == hs[3] + hs[4]
    ensures AreaSum(ws, hs, 7) == Times(hs[5] + hs[6], ws[6])
  {
    assert AreaSum(ws, hs, 1) == AreaSum(ws, hs, 0) + Times(hs[0], ws[0]);
    TwoPasses(ws, hs, 1, ws[0], hs[0]);
    TwoPasses(ws, hs, 3, ws[2], hs[3]);
    TwoPasses(ws, hs, 5, ws[4], hs[5]);
  }

  // ---- pixels in a buffer ----

  /** Where pixel (i, j) starts, with `row` bytes to the row and `bytes` to the pixel. */
  function Offset(row: nat, bytes: nat, i: nat, j: nat): nat {
    Times(j, row) + Times(i, bytes)
  }

  /** A pixel of the image lies inside its buffer. */
  lemma OffsetInside(width: nat, height: nat, row: nat, bytes: nat, i: nat, j: nat)
    requires i < width && j < height && row == Times(width, bytes)
    ensures Offset(row, bytes, i, j) + bytes <= Times(height, row)
  {
    TimesMonotone(i, width, bytes);
    TimesMonotone(j, height, row);
  }

  lemma OffsetBefore(width: nat, row: nat, bytes: nat, i: nat, j: nat, i': nat, j': nat)
    requires i < width && row == Times(width, bytes) && (j < j' || (j == j' && i < i'))
    ensures Offset(row, bytes, i, j) + bytes <= Offset(row, bytes, i', j')
  {
    if j < j' {
      TimesMonotone(i, width, bytes);
      TimesMonotone(j, j', row);
    } else {
      TimesMonotone(i, i', bytes);
    }
  }

  /** The bytes of a pixel. */
  function PixelAt(buf: seq<byte>, row: nat, bytes: nat, i: nat, j: nat): seq<byte> {
    var o := Offset(row, bytes, i, j);
    if o + bytes <= |buf| then buf[o..o + bytes] else []
  }

  lemma SameWindow(a: seq<byte>, i: nat, b: seq<byte>, j: nat, n: nat)
    requires i + n <= |a| && j + n <= |b| && forall t :: i <= t < i + n ==> a[t] == b[t - i + j]
    ensures a[i..i + n] == b[j..j + n]
  {}

  /** Copies one pixel; every other pixel of the image keeps its bytes. */
  method CopyPixel(final: array<byte>, to: nat, img: seq<byte>, from: nat, bytes: nat,
                   ghost width: nat, ghost row: nat, ghost x: nat, ghost y: nat)
    requires row == Times(width, bytes) && x < width && to == Offset(row, bytes, x, y)
    requires to + bytes <= final.Length && from + bytes <= |img|
    modifies final
    ensures PixelAt(final[..], row, bytes, x, y) == img[from..from + bytes]
    ensures forall x': nat, y': nat :: x' < width && (x' != x || y' != y) ==>
              PixelAt(final[..], row, bytes, x', y') == PixelAt(old(final[..]), row, bytes, x', y')
  {
    ghost var before := final[..];
    forall k | 0 <= k < bytes { final[to + k] := img[from + k]; }
    ghost var after := final[..];
    SameWindow(after, to, img, from, bytes);
    forall x': nat, y': nat | x' < width && (x' != x || y' != y)
      ensures PixelAt(after, row, bytes, x', y') == PixelAt(before, row, bytes, x', y')
    {
      OtherPixelKept(before, after, to, bytes, width, row, x, y, x', y');
    }
  }

  lemma OtherPixelKept(before: seq<byte>, after: seq<byte>, to: nat, bytes: nat, width: nat, row: nat, x: nat, y: nat,
                       x': nat, y': nat)
    requires row == Times(width, bytes) && x < width && x' < width && to == Offset(row, bytes, x, y)
    requires (x' != x || y' != y)
    requires |before| == |after| && forall k :: 0 <= k < |before| && !(to <= k < to + bytes) ==> after[k] == before[k]
    ensures PixelAt(after, row, bytes, x', y') == PixelAt(before, row, bytes, x', y')
  {
    if y' < y || (y' == y && x' < x) {
      OffsetBefore(width, row, bytes, x', y', x, y);
    } else {
      OffsetBefore(width, row, bytes, x, y, x', y');
    }
  }

  // ---- scattering ----

  /** Pixel (i, j) of pass `p` is where it belongs. */
  ghost predicate Placed(final: seq<byte>, img: seq<byte>, row: nat, passRow: nat, bytes: nat, p: nat, i: nat, j: nat) {
    PixelAt(final, row, bytes, ColumnOf(p, i), RowOf(p, j)) == PixelAt(img, passRow, bytes, i, j)
  }

  /** All of pass `p` is where it belongs. */
  ghost predicate PassPlaced(final: seq<byte>, img: seq<byte>, width: nat, height: nat, bytes: nat, p: nat) {
    forall i: nat, j: nat :: i < PassWidth(p, width) && j < PassHeight(p, height) ==>
      Placed(final, img, Times(width, bytes), Times(PassWidth(p, width), bytes), bytes, p, i, j)
  }

  /** No pixel of another pass has changed. */
  ghost predicate OthersKept(before: seq<byte>, after: seq<byte>, width: nat, row: nat, bytes: nat, p: nat) {
    forall x: nat, y: nat :: x < width && PassOf(x, y) != p ==>
      PixelAt(after, row, bytes, x, y) == PixelAt(before, row, bytes, x, y)
  }

  /** Scatters one pixel of a pass. */
  method ScatterPixel(final: array<byte>, img: seq<byte>, width: nat, height: nat, row: nat, passRow: nat, bytes: nat,
                      p: nat, i: nat, j: nat)
    requires p < 7 && width <= MAX_DIMENSION && height <= MAX_DIMENSION && i < PassWidth(p, width)
    requires j < PassHeight(p, height)
    requires row == Times(width, bytes) && passRow == Times(PassWidth(p, width), bytes)
    requires final.Length == Times(height, row) && |img| == Times(PassHeight(p, height), passRow)
    modifies final
    ensures Placed(final[..], img, row, passRow, bytes, p, i, j)
    ensures OthersKept(old(final[..]), final[..], width, row, bytes, p)
    ensures forall i': nat, j': nat ::
              i' < PassWidth(p, width) && (i' != i || j' != j)
              && Placed(old(final[..]), img, row, passRow, bytes, p, i', j') ==>
                Placed(final[..], img, row, passRow, bytes, p, i', j')
  {
    var x, y := i * XSpc(p) + XOrig(p), j * YSpc(p) + YOrig(p);
    PlaceIsPixel(p, i, j, width, height);
    OffsetInside(width, height, row, bytes, x, y);
    OffsetInside(PassWidth(p, width), PassHeight(p, height), passRow, bytes, i, j);
    TimesIs(y, row);
    TimesIs(x, bytes);
    TimesIs(j, passRow);
    TimesIs(i, bytes);
    ghost var before := final[..];
    CopyPixel(final, y * row + x * bytes, img, j * passRow + i * bytes, bytes, width, row, x, y);
    ghost var after := final[..];
    forall i': nat, j': nat | i' < PassWidth(p, width) && (i' != i || j' != j) && Placed(before, img, row, passRow,
                                                                                         bytes, p, i', j')
      ensures Placed(after, img, row, passRow, bytes, p, i', j')
    {
      if ColumnOf(p, i') == x && RowOf(p, j') == y { PlaceUnique(p, i, j, i', j'); }
      PassWidthExact(p, width, i');
    }
  }

  /** The pixels of a pass before (i, j), row by row, are placed. */
  ghost predicate PlacedBefore(final: seq<byte>, img: seq<byte>, width: nat, row: nat, passRow: nat, bytes: nat,
                               p: nat, i: nat, j: nat) {
    forall i': nat, j': nat :: i' < PassWidth(p, width) && (j' < j || (j' == j && i' < i)) ==>
      Placed(final, img, row, passRow, bytes, p, i', j')
  }

  /** Scatters the rest of a row of a pass, one pixel at a time. */
  method ScatterRow(final: array<byte>, img: seq<byte>, width: nat, height: nat, row: nat, passRow: nat, bytes: nat,
                    p: nat, j: nat, x: nat)
    requires p < 7 && width <= MAX_DIMENSION && height <= MAX_DIMENSION && x == PassWidth(p, width)
    requires j < PassHeight(p, height)
    requires row == Times(width, bytes) && passRow == Times(x, bytes)
    requires final.Length == Times(height, row) && |img| == Times(PassHeight(p, height), passRow)
    requires PlacedBefore(final[..], img, width, row, passRow, bytes, p, 0, j)
    modifies final
    ensures PlacedBefore(final[..], img, width, row, passRow, bytes, p, 0, j + 1)
    ensures OthersKept(old(final[..]), final[..], width, row, bytes, p)
  {
    ghost var before := final[..];
    for i := 0 to x
      invariant PlacedBefore(final[..], img, width, row, passRow, bytes, p, i, j)
      invariant OthersKept(before, final[..], width, row, bytes, p)
    {
      ScatterPixel(final, img, width, height, row, passRow, bytes, p, i, j);
    }
  }

  /** Scatters a pass. */
  method ScatterPass(final: array<byte>, img: seq<byte>, width: nat, height: nat, row: nat, bytes: nat, p: nat, x: nat,
                     y: nat, passRow: nat)
    requires p < 7 && width <= MAX_DIMENSION && height <= MAX_DIMENSION && x == PassWidth(p, width)
    requires y == PassHeight(p, height)
    requires row == Times(width, bytes) && passRow == Times(x, bytes) && final.Length == Times(height, row)
    requires |img| == Times(y, passRow)
    modifies final
    ensures PassPlaced(final[..], img, width, height, bytes, p)
    ensures OthersKept(old(final[..]), final[..], width, row, bytes, p)
  {
    ghost var before := final[..];
    for j := 0 to y
      invariant PlacedBefore(final[..], img, width, row, passRow, bytes, p, 0, j)
      invariant OthersKept(before, final[..], width, row, bytes, p)
    {
      ScatterRow(final, img, width, height, row, passRow, bytes, p, j, x);
    }
  }

  /** Scattering a later pass leaves an earlier one where it is. */
  lemma StaysPlaced(before: seq<byte>, after: seq<byte>, img: seq<byte>, width: nat, height: nat, bytes: nat, p: nat,
                    q: nat)
    requires p < 7 && q < 7 && p != q && width <= MAX_DIMENSION && height <= MAX_DIMENSION
    requires PassPlaced(before, img, width, height, bytes, q)
    requires OthersKept(before, after, width, Times(width, bytes), bytes, p)
    ensures PassPlaced(after, img, width, height, bytes, q)
  {
    forall i: nat, j: nat | i < PassWidth(q, width) && j < PassHeight(q, height)
      ensures Placed(after, img, Times(width, bytes), Times(PassWidth(q, width), bytes), bytes, q, i, j)
    {
      PlaceIsPixel(q, i, j, width, height);
      assert Placed(before, img, Times(width, bytes), Times(PassWidth(q, width), bytes), bytes, q, i, j);
    }
  }

  /** An empty pass has nothing to place. */
  lemma EmptyPassPlaced(final: seq<byte>, img: seq<byte>, width: nat, height: nat, bytes: nat, p: nat)
    requires PassWidth(p, width) == 0 || PassHeight(p, height) == 0
    ensures PassPlaced(final, img, width, height, bytes, p)
  {}

  // ---- the whole image ----

  /** The image made of seven passes. */
  ghost predicate Deinterlaced(final: seq<byte>, imgs: seq<seq<byte>>, width: nat, height: nat, bytes: nat)
    requires |imgs| == 7
  {
    && |final| == Times(height, Times(width, bytes))
    && forall p: nat :: p < 7 ==> PassPlaced(final, imgs[p], width, height, bytes, p)
  }

  /** Every pixel of a de-interlaced image is the pixel of the one pass it belongs to. */
  lemma PixelComesFromPass(final: seq<byte>, imgs: seq<seq<byte>>, width: nat, height: nat, bytes: nat, x: nat, y: nat)
    returns (p: nat, i: nat, j: nat)
    requires |imgs| == 7 && Deinterlaced(final, imgs, width, height, bytes)
    requires x < width <= MAX_DIMENSION && y < height <= MAX_DIMENSION
    ensures p == PassOf(x, y) && ColumnOf(p, i) == x && RowOf(p, j) == y
    ensures PixelAt(final, Times(width, bytes), bytes, x, y)
         == PixelAt(imgs[p], Times(PassWidth(p, width), bytes), bytes, i, j)
  {
    p, i, j := PixelHasPlace(x, y, width, height);
    assert PassPlaced(final, imgs[p], width, height, bytes, p);
    PlacedPixel(final, imgs[p], width, height, bytes, p, i, j);
  }

  lemma PlacedPixel(final: seq<byte>, img: seq<byte>, width: nat, height: nat, bytes: nat, p: nat, i: nat, j: nat)
    requires PassPlaced(final, img, width, height, bytes, p) && i < PassWidth(p, width) && j < PassHeight(p, height)
    ensures PixelAt(final, Times(width, bytes), bytes, ColumnOf(p, i), RowOf(p, j))
         == PixelAt(img, Times(PassWidth(p, width), bytes), bytes, i, j)
  {
    assert Placed(final, img, Times(width, bytes), Times(PassWidth(p, width), bytes), bytes, p, i, j);
  }

  /** Two buffers with the same pixels are the same. */
  lemma PixelsDetermine(a: seq<byte>, b: seq<byte>, width: nat, height: nat, bytes: nat)
    requires |a| == |b| == Times(height, Times(width, bytes))
    requires forall x: nat, y: nat :: x < width && y < height ==>
               PixelAt(a, Times(width, bytes), bytes, x, y) == PixelAt(b, Times(width, bytes), bytes, x, y)
    ensures a == b
  {
    var row := Times(width, bytes);
    forall k: nat | k < |a| ensures a[k] == b[k] {
      var x, y, r := Coordinates(k, width, height, row, bytes);
      OffsetInside(width, height, row, bytes, x, y);
      assert PixelAt(a, row, bytes, x, y)[r] == PixelAt(b, row, bytes, x, y)[r];
    }
  }

  lemma Coordinates(k: nat, width: nat, height: nat, row: nat, bytes: nat) returns (x: nat, y: nat, r: nat)
    requires k < Times(height, row) && row == Times(width, bytes)
    ensures x < width && y < height && r < bytes && k == Offset(row, bytes, x, y) + r
  {
    TimesIs(height, row);
    TimesIs(width, bytes);
    if row == 0 { assert false; }
    if bytes == 0 { assert false; }
    QuotientNonNegative(k, row);
    y, r := k / row, k % row;
    assert k == y * row + r;
    DivAtLeast(k, row, height);
    QuotientNonNegative(r, bytes);
    DivAtLeast(r, bytes, width);
    var rest := r;
    x, r := rest / bytes, rest % bytes;
    assert rest == x * bytes + r;
    TimesIs(y, row);
    TimesIs(x, bytes);
  }

  /** The passes determine the image. */
  lemma DeinterlacedUnique(a: seq<byte>, b: seq<byte>, imgs: seq<seq<byte>>, width: nat, height: nat, bytes: nat)
    requires width <= MAX_DIMENSION && height <= MAX_DIMENSION && |imgs| == 7
    requires Deinterlaced(a, imgs, width, height, bytes) && Deinterlaced(b, imgs, width, height, bytes)
    ensures a == b
  {
    forall x: nat, y: nat | x < width && y < height
      ensures PixelAt(a, Times(width, bytes), bytes, x, y) == PixelAt(b, Times(width, bytes), bytes, x, y) {
      var p, i, j := PixelComesFromPass(a, imgs, width, height, bytes, x, y);
      var p', i', j' := PixelComesFromPass(b, imgs, width, height, bytes, x, y);
      PlaceUnique(p, i, j, i', j');
    }
    PixelsDetermine(a, b, width, height, bytes);
  }

  // ---- extraction: what an encoder does ----

  /** The first `n` pixels of row `j` of a pass. */
  function ExtractRow(img: seq<byte>, width: nat, height: nat, row: nat, bytes: nat, p: nat, j: nat,
                      n: nat): (s: seq<byte>)
    requires p < 7 && width <= MAX_DIMENSION && height <= MAX_DIMENSION && row == Times(width, bytes)
    requires |img| == Times(height, row)
    requires n <= PassWidth(p, width) && j < PassHeight(p, height)
    ensures |s| == Times(n, bytes)
    decreases n
  {
    if n == 0 then []
    else
      PlaceIsPixel(p, n - 1, j, width, height);
      OffsetInside(width, height, row, bytes, ColumnOf(p, n - 1), RowOf(p, j));
      ExtractRow(img, width, height, row, bytes, p, j, n - 1) + PixelAt(img, row, bytes, ColumnOf(p, n - 1),
                                                                        RowOf(p, j))
  }

  /** The first `n` rows of a pass. */
  function Extract(img: seq<byte>, width: nat, height: nat, row: nat, passRow: nat, bytes: nat, p: nat,
                   n: nat): (s: seq<byte>)
    requires p < 7 && width <= MAX_DIMENSION && height <= MAX_DIMENSION && row == Times(width, bytes)
    requires |img| == Times(height, row)
    requires n <= PassHeight(p, height) && passRow == Times(PassWidth(p, width), bytes)
    ensures |s| == Times(n, passRow)
    decreases n
  {
    if n == 0 then []
    else
      Extract(img, width, height, row, passRow, bytes, p, n - 1) + ExtractRow(img, width, height, row, bytes, p,
                                                                              n - 1, PassWidth(p, width))
  }

  lemma {:induction false} ExtractRowAt(img: seq<byte>, width: nat, height: nat, row: nat, bytes: nat, p: nat, j: nat,
                                        n: nat, i: nat)
    requires p < 7 && width <= MAX_DIMENSION && height <= MAX_DIMENSION && row == Times(width, bytes)
    requires |img| == Times(height, row)
    requires i < n <= PassWidth(p, width) && j < PassHeight(p, height)
    ensures Times(i, bytes) + bytes <= Times(n, bytes)
    ensures ExtractRow(img, width, height, row, bytes, p, j, n)[Times(i, bytes)..Times(i, bytes) + bytes]
         == PixelAt(img, row, bytes, ColumnOf(p, i), RowOf(p, j))
    decreases n
  {
    TimesMonotone(i, n, bytes);
    PlaceIsPixel(p, n - 1, j, width, height);
    OffsetInside(width, height, row, bytes, ColumnOf(p, n - 1), RowOf(p, j));
    var before, last := ExtractRow(img, width, height, row, bytes, p, j, n - 1), PixelAt(img, row, bytes,
                                                                                         ColumnOf(p, n - 1),
                                                                                         RowOf(p, j));
    assert ExtractRow(img, width, height, row, bytes, p, j, n) == before + last;
    if i < n - 1 {
      ExtractRowAt(img, width, height, row, bytes, p, j, n - 1, i);
      TakeSlice(before, last, Times(i, bytes), Times(i, bytes) + bytes);
    } else {
      DropSlice(before, last, 0, bytes);
    }
  }

  lemma TakeSlice(a: seq<byte>, b: seq<byte>, from: nat, to: nat)
    requires from <= to <= |a|
    ensures (a + b)[from..to] == a[from..to]
  {}

  lemma DropSlice(a: seq<byte>, b: seq<byte>, from: nat, to: nat)
    requires from <= to <= |b|
    ensures (a + b)[|a| + from..|a| + to] == b[from..to]
  {}

  /** Row `j` of an extracted pass. */
  lemma {:induction false} RowOfExtract(img: seq<byte>, width: nat, height: nat, row: nat, passRow: nat, bytes: nat,
                                        p: nat, n: nat, j: nat)
    requires p < 7 && width <= MAX_DIMENSION && height <= MAX_DIMENSION && row == Times(width, bytes)
    requires |img| == Times(height, row)
    requires j < n <= PassHeight(p, height) && passRow == Times(PassWidth(p, width), bytes)
    ensures Times(j, passRow) + passRow <= Times(n, passRow)
    ensures Extract(img, width, height, row, passRow, bytes, p, n)[Times(j, passRow)..Times(j, passRow) + passRow]
         == ExtractRow(img, width, height, row, bytes, p, j, PassWidth(p, width))
    decreases n
  {
    var before := Extract(img, width, height, row, passRow, bytes, p, n - 1);
    var last := ExtractRow(img, width, height, row, bytes, p, n - 1, PassWidth(p, width));
    TimesMonotone(j, n, passRow);
    var at := Times(j, passRow);
    assert Extract(img, width, height, row, passRow, bytes, p, n) == before + last;
    if j < n - 1 {
      RowOfExtract(img, width, height, row, passRow, bytes, p, n - 1, j);
      TakeSlice(before, last, at, at + passRow);
    } else {
      assert |before| == at && |last| == passRow;
      Tail(before, last);
    }
  }

  lemma Tail(a: seq<byte>, b: seq<byte>)
    ensures (a + b)[|a|..|a| + |b|] == b
  {}

  lemma SliceOfSlice(s: seq<byte>, a: nat, m: nat, b: nat, k: nat)
    requires a + m <= |s| && b + k <= m
    ensures s[a..a + m][b..b + k] == s[a + b..a + b + k]
  {
    var x, y := s[a..a + m], s[a + b..a + b + k];
    forall t | 0 <= t < k ensures x[b..b + k][t] == y[t] {
      assert x[b + t] == s[a + (b + t)];
    }
  }

  lemma PixelOfLine(s: seq<byte>, passRow: nat, bytes: nat, i: nat, j: nat, line: seq<byte>)
    requires Times(j, passRow) + passRow <= |s| && s[Times(j, passRow)..Times(j, passRow) + passRow] == line
    requires Times(i, bytes) + bytes <= |line|
    ensures PixelAt(s, passRow, bytes, i, j) == line[Times(i, bytes)..Times(i, bytes) + bytes]
  {
    SliceOfSlice(s, Times(j, passRow), passRow, Times(i, bytes), bytes);
  }

  lemma ExtractAt(img: seq<byte>, width: nat, height: nat, row: nat, passRow: nat, bytes: nat, p: nat, n: nat, i: nat,
                  j: nat)
    requires p < 7 && width <= MAX_DIMENSION && height <= MAX_DIMENSION && row == Times(width, bytes)
    requires |img| == Times(height, row)
    requires n <= PassHeight(p, height) && passRow == Times(PassWidth(p, width), bytes) && i < PassWidth(p, width)
    requires j < n
    ensures PixelAt(Extract(img, width, height, row, passRow, bytes, p, n), passRow, bytes, i, j)
         == PixelAt(img, row, bytes, ColumnOf(p, i), RowOf(p, j))
  {
    RowOfExtract(img, width, height, row, passRow, bytes, p, n, j);
    ExtractRowAt(img, width, height, row, bytes, p, j, PassWidth(p, width), i);
    PixelOfLine(Extract(img, width, height, row, passRow, bytes, p, n), passRow, bytes, i, j,
                ExtractRow(img, width, height, row, bytes, p, j, PassWidth(p, width)));
  }

  /** The seven reduced images of an image. */
  function Interlace(img: seq<byte>, width: nat, height: nat, row: nat, bytes: nat, n: nat): (imgs: seq<seq<byte>>)
    requires width <= MAX_DIMENSION && height <= MAX_DIMENSION && row == Times(width, bytes)
    requires |img| == Times(height, row) && n <= 7
    ensures |imgs| == n
  {
    if n == 0 then [] else (
      var pass := Extract(img, width, height, row, Times(PassWidth(n - 1, width), bytes), bytes, n - 1,
                          PassHeight(n - 1, height));
      Interlace(img, width, height, row, bytes, n - 1) + [pass]
    )
  }

  lemma ExtractIsPlaced(img: seq<byte>, width: nat, height: nat, row: nat, bytes: nat, p: nat, passRow: nat, y: nat)
    requires width <= MAX_DIMENSION && height <= MAX_DIMENSION && row == Times(width, bytes)
    requires |img| == Times(height, row) && p < 7
    requires passRow == Times(PassWidth(p, width), bytes) && y == PassHeight(p, height)
    ensures PassPlaced(img, Extract(img, width, height, row, passRow, bytes, p, y), width, height, bytes, p)
  {
    var s := Extract(img, width, height, row, passRow, bytes, p, y);
    forall i: nat, j: nat | i < PassWidth(p, width) && j < y ensures Placed(img, s, row, passRow, bytes, p, i, j) {
      ExtractAt(img, width, height, row, passRow, bytes, p, y, i, j);
    }
  }

  lemma {:induction false} InterlacedIsPlaced(img: seq<byte>, width: nat, height: nat, row: nat, bytes: nat, n: nat,
                                              p: nat)
    requires width <= MAX_DIMENSION && height <= MAX_DIMENSION && row == Times(width, bytes)
    requires |img| == Times(height, row) && p < n <= 7
    ensures PassPlaced(img, Interlace(img, width, height, row, bytes, n)[p], width, height, bytes, p)
    decreases n
  {
    if p < n - 1 {
      InterlacedIsPlaced(img, width, height, row, bytes, n - 1, p);
    } else {
      var passRow, y := Times(PassWidth(p, width), bytes), PassHeight(p, height);
      ExtractIsPlaced(img, width, height, row, bytes, p, passRow, y);
      assert Interlace(img, width, height, row, bytes, n)[p] == Extract(img, width, height, row, passRow, bytes, p, y);
    }
  }

  /** Scattering inverts extraction: the image whose passes were taken from another is that image. */
  lemma DeinterlaceUndoesInterlace(img: seq<byte>, final: seq<byte>, width: nat, height: nat, bytes: nat)
    requires width <= MAX_DIMENSION && height <= MAX_DIMENSION && |img| == Times(height, Times(width, bytes))
    requires Deinterlaced(final, Interlace(img, width, height, Times(width, bytes), bytes, 7), width, height, bytes)
    ensures final == img
  {
    var imgs := Interlace(img, width, height, Times(width, bytes), bytes, 7);
    forall p: nat | p < 7 ensures PassPlaced(img, imgs[p], width, height, bytes, p) {
      InterlacedIsPlaced(img, width, height, Times(width, bytes), bytes, 7, p);
    }
    DeinterlacedUnique(img, final, imgs, width, height, bytes);
  }

  // ---- decoding pass by pass ----

  datatype Passes = Decoded(imgs: seq<seq<byte>>) | Stopped(error: PngError)

  function Prepend(done: seq<seq<byte>>, r: Passes): Passes {
    match r
    case Decoded(imgs) => Decoded(done + imgs)
    case Stopped(e) => Stopped(e)
  }

  lemma {:induction false} ColumnsBound(size: nat, orig: nat, spc: nat)
    requires spc > 0
    ensures Columns(size, orig, spc) <= if orig < size then size - orig else 0
    decreases if orig < size then size - orig else 0
  {
    if orig < size { ColumnsBound(size, orig + spc, spc); }
  }

  /** A pass has no more columns or rows than the image. */
  lemma PassIsSmaller(p: nat, width: nat, height: nat)
    requires p < 7 && width <= MAX_DIMENSION && height <= MAX_DIMENSION
    ensures PassWidth(p, width) <= width && PassHeight(p, height) <= height
  {
    ColumnsBound(width, XOrig(p), XSpc(p));
    ColumnsBound(height, YOrig(p), YSpc(p));
  }

  /** The images of the passes from `p` on; an empty pass takes no data. */
  function DecodePasses(f: Format, data: seq<byte>, width: nat, height: nat, p: nat): (r: Passes)
    requires f.WellFormed() && width <= MAX_DIMENSION && height <= MAX_DIMENSION
    ensures r.Decoded? ==> |r.imgs| == if p < 7 then 7 - p else 0
    decreases 7 - p
  {
    if p >= 7 then Decoded([])
    else
      var x, y := PassWidth(p, width), PassHeight(p, height);
      if x == 0 || y == 0 then Prepend([[]], DecodePasses(f, data, width, height, p + 1))
      else
        PassIsSmaller(p, width, height);
        match ImageResult(f, data, x, y)
        case Failed(e) => Stopped(e)
        case Image(pixels) => Prepend([pixels],
                                      DecodePasses(f, AfterLines(data, f.RowBytes(x), y), width, height, p + 1))
  }

  /** The data behind the scanlines. */
  method SkipLines(data: seq<byte>, w: nat, y: nat) returns (rest: seq<byte>)
    requires HasLines(data, w, y)
    ensures rest == AfterLines(data, w, y)
  {
    AfterLinesIs(data, w, y);
    rest := data[(w + 1) * y..];
  }

  /** Decodes and scatters pass `p`; returns what is left of the data. */
  method DecodePass(f: Format, final: array<byte>, data: seq<byte>, width: nat, height: nat, row: nat, p: nat,
                    ghost done: seq<seq<byte>>)
    returns (error: Option<PngError>, rest: seq<byte>, ghost img: seq<byte>)
    requires f.WellFormed() && width <= MAX_DIMENSION && height <= MAX_DIMENSION && |done| == p < 7
    requires row == Times(width, f.PixelBytes()) && final.Length == Times(height, row)
    requires PassesPlaced(final[..], done, width, height, f.PixelBytes(), p)
    modifies final
    ensures DecodePasses(f, data, width, height, p)
         == if error.Some? then Stopped(error.value) else Prepend([img], DecodePasses(f, rest, width, height, p + 1))
    ensures error == None ==> PassesPlaced(final[..], done + [img], width, height, f.PixelBytes(), p + 1)
  {
    error, rest, img := None, data, [];
    PassSizeCounts(width, XOrig(p), XSpc(p));
    PassSizeCounts(height, YOrig(p), YSpc(p));
    var x, y := PassSize(width, XOrig(p), XSpc(p)), PassSize(height, YOrig(p), YSpc(p));
    ghost var before := final[..];
    if x > 0 && y > 0 {
      PassIsSmaller(p, width, height);
      var r := CreatePngImageRaw(f, data, x, y);
      if r.Failed? { return Some(r.error), rest, img; }
      img := r.pixels;
      rest := SkipLines(data, f.RowBytes(x), y);
      TimesIs(x, f.PixelBytes());
      TimesIs(y, x * f.PixelBytes());
      ScatterPass(final, r.pixels, width, height, row, f.PixelBytes(), p, x, y, x * f.PixelBytes());
    } else {
      EmptyPassPlaced(final[..], img, width, height, f.PixelBytes(), p);
    }
    StayPlaced(before, final[..], done, img, width, height, f.PixelBytes(), p);
  }

  /** The first `n` passes are placed. */
  ghost predicate PassesPlaced(final: seq<byte>, imgs: seq<seq<byte>>, width: nat, height: nat, bytes: nat, n: nat) {
    n <= |imgs| && forall q: nat :: q < n ==> PassPlaced(final, imgs[q], width, height, bytes, q)
  }

  lemma StayPlaced(before: seq<byte>, after: seq<byte>, done: seq<seq<byte>>, img: seq<byte>, width: nat, height: nat,
                   bytes: nat, p: nat)
    requires p < 7 && |done| == p && width <= MAX_DIMENSION && height <= MAX_DIMENSION
    requires PassesPlaced(before, done, width, height, bytes, p)
    requires OthersKept(before, after, width, Times(width, bytes), bytes, p)
    requires PassPlaced(after, img, width, height, bytes, p)
    ensures PassesPlaced(after, done + [img], width, height, bytes, p + 1)
  {
    forall q: nat | q < p ensures PassPlaced(after, (done + [img])[q], width, height, bytes, q) {
      StaysPlaced(before, after, done[q], width, height, bytes, p, q);
    }
  }

  /** The image data to pixels, plain or interlaced. */
  method CreatePngImage(f: Format, data: seq<byte>, width: int32, height: int32, interlaced: bool) returns (r: Result)
    requires f.WellFormed() && 1 <= width <= MAX_DIMENSION && 1 <= height <= MAX_DIMENSION
    ensures !interlaced ==> r == ImageResult(f, data, width, height)
    ensures interlaced && !Mad3SizesValid(width, height, f.PixelBytes(), 0) ==> r == Failed(OutOfMemory)
    ensures interlaced && Mad3SizesValid(width, height, f.PixelBytes(), 0) ==>
              match DecodePasses(f, data, width, height, 0)
              case Stopped(e) => r == Failed(e)
              case Decoded(imgs) => r.Image? && Deinterlaced(r.pixels, imgs, width, height, f.PixelBytes())
  {
    if !interlaced {
      r := CreatePngImageRaw(f, data, width, height);
      return;
    }
    if !Mad3SizesValid(width, height, f.PixelBytes(), 0) { return Failed(OutOfMemory); }
    var row := width * f.PixelBytes();
    TimesIs(width, f.PixelBytes());
    TimesIs(height, row);
    var final := new byte[height * row](_ => 0);
    var rest := data;
    ghost var done: seq<seq<byte>> := [];
    for p := 0 to 7
      invariant |done| == p && PassesPlaced(final[..], done, width, height, f.PixelBytes(), p)
      invariant DecodePasses(f, data, width, height, 0) == Prepend(done, DecodePasses(f, rest, width, height, p))
    {
      var error;
      ghost var img;
      ghost var before := rest;
      error, rest, img := DecodePass(f, final, rest, width, height, row, p, done);
      if error.Some? { return Failed(error.value); }
      PrependTwice(done, [img], DecodePasses(f, rest, width, height, p + 1));
      done := done + [img];
    }
    r := Image(final[..]);
  }

  lemma PrependTwice(a: seq<seq<byte>>, b: seq<seq<byte>>, r: Passes)
    ensures Prepend(a, Prepend(b, r)) == Prepend(a + b, r)
  {
    if r.Decoded? { assert a + (b + r.imgs) == a + b + r.imgs; }
  }

  // ---- an interlaced image and back ----

  /** The size checks an image passes whatever its data. */
  predicate SizesValid(f: Format, x: int32, y: int32)
    requires f.WellFormed() && x >= 1 && y >= 1
  {
    && Mad3SizesValid(x, y, f.PixelBytes(), 0) && Mad3SizesValid(f.imgN, x, f.depth, 7)
    && (RowBytesFit(f, x); Mad2SizesValid(f.RowBytes(x), y, f.RowBytes(x)))
  }

  lemma ProductsShrink(a: nat, b: nat, c: nat, x: nat, y: nat)
    requires x <= a && y <= b
    ensures x * y <= a * b && x * y * c <= a * b * c
  {
    MulMonotone(x, a, y);
    MulMonotone(y, b, a);
    MulMonotone(x * y, a * b, c);
  }

  /** An image no larger than one that passes the checks passes them too. */
  lemma SizesShrink(f: Format, width: int32, height: int32, x: int32, y: int32)
    requires f.WellFormed() && 1 <= x <= width && 1 <= y <= height && SizesValid(f, width, height)
    ensures SizesValid(f, x, y)
  {
    Mad3SizesExact(width, height, f.PixelBytes(), 0);
    Mad3SizesExact(f.imgN, width, f.depth, 7);
    ProductsShrink(width, height, f.PixelBytes(), x, y);
    ProductsShrink(f.imgN, width, f.depth, f.imgN, x);
    Mad3SizesExact(x, y, f.PixelBytes(), 0);
    Mad3SizesExact(f.imgN, x, f.depth, 7);
    RowBytesFit(f, width);
    RowBytesFit(f, x);
    RowsShrink(f.RowBytes(width), height, f.RowBytes(x), y);
  }

  lemma RowsShrink(w: int32, height: int32, v: int32, y: int32)
    requires 0 <= v <= w && 1 <= y <= height && Mad2SizesValid(w, height, w)
    ensures Mad2SizesValid(v, y, v)
  {
    Mad2SizesExact(w, height, w);
    Mad2SizesExact(v, y, v);
    ProductsShrink(w, height, 0, v, y);
  }

  /** Rows and filter types for pass `p`, none when it is empty. */
  predicate PassRows(f: Format, rows: seq<seq<byte>>, types: seq<byte>, width: nat, height: nat, p: nat) {
    var x, y := PassWidth(p, width), PassHeight(p, height);
    && |rows| == |types| == (if x == 0 then 0 else y)
    && (forall k :: 0 <= k < |rows| ==> |rows[k]| == f.RowBytes(x))
    && (forall k :: 0 <= k < |types| ==> types[k] <= 4)
  }

  /** An encoder's data: the scanlines of the passes from `p` on. */
  function EncodePasses(f: Format, rows: seq<seq<seq<byte>>>, types: seq<seq<byte>>, width: nat, height: nat,
                        p: nat): seq<byte>
    requires f.WellFormed() && |rows| == |types| == 7
    requires forall q: nat :: q < 7 ==> PassRows(f, rows[q], types[q], width, height, q)
    decreases 7 - p
  {
    if p >= 7 then []
    else
      var w := f.RowBytes(PassWidth(p, width));
      assert PassRows(f, rows[p], types[p], width, height, p);
      Scanlines(rows[p], types[p], w, f.FilterBytes(), Zeros(w)) + EncodePasses(f, rows, types, width, height, p + 1)
  }

  /** The pixels of the passes from `p` on. */
  function PassPixels(f: Format, rows: seq<seq<seq<byte>>>, types: seq<seq<byte>>, width: nat, height: nat,
                      p: nat): seq<seq<byte>>
    requires f.WellFormed() && |rows| == |types| == 7
    requires forall q: nat :: q < 7 ==> PassRows(f, rows[q], types[q], width, height, q)
    decreases 7 - p
  {
    if p >= 7 then []
    else
      assert PassRows(f, rows[p], types[p], width, height, p);
      [RowsOut(f, rows[p], PassWidth(p, width))] + PassPixels(f, rows, types, width, height, p + 1)
  }

  /** An encoder's data, and what it stands for, one pass at a time. */
  lemma EncodeStep(f: Format, rows: seq<seq<seq<byte>>>, types: seq<seq<byte>>, width: nat, height: nat, p: nat,
                   extra: seq<byte>, w: nat)
    requires f.WellFormed() && |rows| == |types| == 7
    requires forall q: nat :: q < 7 ==> PassRows(f, rows[q], types[q], width, height, q)
    requires p < 7 && w == f.RowBytes(PassWidth(p, width))
    ensures PassRows(f, rows[p], types[p], width, height, p)
    ensures EncodePasses(f, rows, types, width, height, p) + extra
         == Scanlines(rows[p], types[p], w, f.FilterBytes(), Zeros(w)) + (EncodePasses(f, rows, types, width, height,
                                                                                       p + 1) + extra)
    ensures PassPixels(f, rows, types, width, height, p)
         == [RowsOut(f, rows[p], PassWidth(p, width))] + PassPixels(f, rows, types, width, height, p + 1)
  {
    assert PassRows(f, rows[p], types[p], width, height, p);
  }

  /** Decoding the passes undoes encoding them, whatever rows and filter types they were made of. */
  lemma {:induction false} PassesUndoEncode(f: Format, rows: seq<seq<seq<byte>>>, types: seq<seq<byte>>, width: int32,
                                            height: int32, p: nat, extra: seq<byte>)
    requires f.WellFormed() && 1 <= width <= MAX_DIMENSION && 1 <= height <= MAX_DIMENSION
    requires SizesValid(f, width, height)
    requires |rows| == |types| == 7 && forall q: nat :: q < 7 ==> PassRows(f, rows[q], types[q], width, height, q)
    ensures DecodePasses(f, EncodePasses(f, rows, types, width, height, p) + extra, width, height, p)
         == Decoded(PassPixels(f, rows, types, width, height, p))
    decreases 7 - p
  {
    if p < 7 {
      var w := f.RowBytes(PassWidth(p, width));
      EncodeStep(f, rows, types, width, height, p, extra, w);
      PassesUndoEncode(f, rows, types, width, height, p + 1, extra);
      OnePassBack(f, rows[p], types[p], width, height, p, w, EncodePasses(f, rows, types, width, height, p + 1) + extra,
                  EncodePasses(f, rows, types, width, height, p) + extra);
    }
  }

  lemma OnePassBack(f: Format, rows: seq<seq<byte>>, types: seq<byte>, width: int32, height: int32, p: nat, w: nat,
                    rest: seq<byte>, data: seq<byte>)
    requires f.WellFormed() && 1 <= width <= MAX_DIMENSION && 1 <= height <= MAX_DIMENSION
    requires SizesValid(f, width, height)
    requires p < 7 && w == f.RowBytes(PassWidth(p, width)) && PassRows(f, rows, types, width, height, p)
    requires data == Scanlines(rows, types, w, f.FilterBytes(), Zeros(w)) + rest
    ensures DecodePasses(f, data, width, height, p)
         == Prepend([RowsOut(f, rows, PassWidth(p, width))], DecodePasses(f, rest, width, height, p + 1))
  {
    var x, y := PassWidth(p, width), PassHeight(p, height);
    if x == 0 || y == 0 {
      assert data == rest;
    } else {
      PassIsSmaller(p, width, height);
      SizesShrink(f, width, height, x, y);
      OneImageBack(f, rows, types, x, y, w, rest, data);
    }
  }

  lemma OneImageBack(f: Format, rows: seq<seq<byte>>, types: seq<byte>, x: int32, y: int32, w: nat, rest: seq<byte>,
                     data: seq<byte>)
    requires f.WellFormed() && x >= 1 && y >= 1 && SizesValid(f, x, y) && w == f.RowBytes(x) && |rows| == |types| == y
    requires (forall k :: 0 <= k < |rows| ==> |rows[k]| == w) && forall k :: 0 <= k < |types| ==> types[k] <= 4
    requires data == Scanlines(rows, types, w, f.FilterBytes(), Zeros(w)) + rest
    ensures ImageResult(f, data, x, y) == Image(RowsOut(f, rows, x)) && AfterLines(data, w, y) == rest
  {
    RowsUndoScanlines(rows, types, w, f.FilterBytes(), Zeros(w), rest);
    LinesByLength(data, w, y);
    AfterScanlines(rows, types, w, f.FilterBytes(), Zeros(w), rest);
  }

  lemma {:induction false} AfterScanlines(rows: seq<seq<byte>>, types: seq<byte>, w: nat, fb: nat, prior: seq<byte>,
                                          rest: seq<byte>)
    requires fb >= 1 && |prior| == w && |types| == |rows| && forall k :: 0 <= k < |rows| ==> |rows[k]| == w
    ensures HasLines(Scanlines(rows, types, w, fb, prior) + rest, w, |rows|)
    ensures AfterLines(Scanlines(rows, types, w, fb, prior) + rest, w, |rows|) == rest
    decreases |rows|
  {
    if rows == [] {
      assert Scanlines(rows, types, w, fb, prior) + rest == rest;
    } else {
      var more := ScanlinesStep(rows, types, w, fb, prior, rest);
      var line := FilterRow(types[0], rows[0], prior, fb);
      AfterScanlines(rows[1..], types[1..], w, fb, rows[0], rest);
      AfterFront(types[0], line, more, Scanlines(rows, types, w, fb, prior) + rest, w, |rows| - 1);
    }
  }

  lemma AfterFront(t: byte, line: seq<byte>, more: seq<byte>, raw: seq<byte>, w: nat, y: nat)
    requires |line| == w && raw == [t] + line + more && HasLines(more, w, y)
    ensures HasLines(raw, w, y + 1) && AfterLines(raw, w, y + 1) == AfterLines(more, w, y)
  {
    FrontLine(t, line, more, raw);
  }

  /** End to end: an image taken apart into its passes, their rows filtered in any way, and anything
      behind them, is decoded to the image. */
  method RestoreImage(f: Format, img: seq<byte>, rows: seq<seq<seq<byte>>>, types: seq<seq<byte>>, width: int32,
                      height: int32, extra: seq<byte>)
    returns (r: Result)
    requires f.WellFormed() && 1 <= width <= MAX_DIMENSION && 1 <= height <= MAX_DIMENSION
    requires SizesValid(f, width, height)
    requires |rows| == |types| == 7 && forall q: nat :: q < 7 ==> PassRows(f, rows[q], types[q], width, height, q)
    requires |img| == Times(height, Times(width, f.PixelBytes()))
    requires PassPixels(f, rows, types, width, height, 0)
          == Interlace(img, width, height, Times(width, f.PixelBytes()), f.PixelBytes(), 7)
    ensures r == Image(img)
  {
    PassesUndoEncode(f, rows, types, width, height, 0, extra);
    r := CreatePngImage(f, EncodePasses(f, rows, types, width, height, 0) + extra, width, height, true);
    DeinterlaceUndoesInterlace(img, r.pixels, width, height, f.PixelBytes());
  }
}
