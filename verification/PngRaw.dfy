/** Reading one image's scanlines: the row loop, and its round trip with an encoder's filtering. */
module PngRaw {
  import opened Bits
  import opened Buffers
  import opened PngFilters
  import opened PngImage
  import opened Sizes

  datatype PngError = OutOfMemory | TooLarge | NotEnoughPixels | InvalidFilter
  datatype Result = Image(pixels: seq<byte>) | Failed(error: PngError)

  const MAX_DIMENSION: nat := 0x100_0000

  // ---- what the scanlines mean ----

  /** There are bytes for `y` scanlines of `w` bytes and a filter type each. */
  predicate HasLines(raw: seq<byte>, w: nat, y: nat)
    decreases y
  {
    y == 0 || (w + 1 <= |raw| && HasLines(raw[w + 1..], w, y - 1))
  }

  lemma {:induction false} LinesByLength(raw: seq<byte>, w: nat, y: nat)
    ensures HasLines(raw, w, y) <==> (w + 1) * y <= |raw|
    decreases y
  {
    if y == 0 {
      assert (w + 1) * y == 0;
    } else {
      var n: nat := w + 1;
      LineMore(n, y);
      if n <= |raw| { LinesByLength(raw[n..], w, y - 1); }
    }
  }

  lemma LineMore(n: nat, y: nat)
    requires y > 0
    ensures n * y == n * (y - 1) + n && n * (y - 1) >= 0
  {}

  /** The first `y` scanlines, reconstructed: each from its filter type, its bytes and the row above. */
  function Rows(raw: seq<byte>, w: nat, fb: nat, prior: seq<byte>, y: nat): (rows: seq<seq<byte>>)
    requires fb >= 1 && |prior| == w && HasLines(raw, w, y)
    ensures |rows| == y && forall k :: 0 <= k < y ==> |rows[k]| == w
    decreases y
  {
    if y == 0 then []
    else
      var row := Recon(raw[0], raw[1..w + 1], prior, fb);
      [row] + Rows(raw[w + 1..], w, fb, row, y - 1)
  }

  /** Every one of the first `y` scanlines names one of the five filter types. */
  predicate FiltersKnown(raw: seq<byte>, w: nat, y: nat)
    requires HasLines(raw, w, y)
    decreases y
  {
    y == 0 || (raw[0] <= 4 && FiltersKnown(raw[w + 1..], w, y - 1))
  }

  /** An encoder's scanlines: each row filtered with the type chosen for it. */
  function Scanlines(rows: seq<seq<byte>>, types: seq<byte>, w: nat, fb: nat, prior: seq<byte>): (raw: seq<byte>)
    requires fb >= 1 && |prior| == w && |types| == |rows| && forall k :: 0 <= k < |rows| ==> |rows[k]| == w
    decreases |rows|
  {
    if rows == [] then []
    else [types[0]] + FilterRow(types[0], rows[0], prior, fb) + Scanlines(rows[1..], types[1..], w, fb, rows[0])
  }

  /** A scanline in front of others. */
  lemma FrontLine(t: byte, line: seq<byte>, rest: seq<byte>, raw: seq<byte>)
    requires raw == [t] + line + rest
    ensures |line| + 1 <= |raw| && raw[0] == t && raw[1..|line| + 1] == line && raw[|line| + 1..] == rest
  {}

  /** Decoding a scanline in front of others. */
  lemma DecodeFront(t: byte, row: seq<byte>, rest: seq<byte>, raw: seq<byte>, w: nat, fb: nat, prior: seq<byte>, y: nat)
    requires fb >= 1 && |prior| == |row| == w && t <= 4 && raw == [t] + FilterRow(t, row, prior, fb) + rest
    requires HasLines(rest, w, y) && FiltersKnown(rest, w, y)
    ensures HasLines(raw, w, y + 1) && FiltersKnown(raw, w, y + 1)
    ensures Rows(raw, w, fb, prior, y + 1) == [row] + Rows(rest, w, fb, row, y)
  {
    FrontLine(t, FilterRow(t, row, prior, fb), rest, raw);
    ReconUndoesFilter(t, row, prior, fb);
  }

  /** The first of an encoder's scanlines, and the rest. */
  lemma ScanlinesStep(rows: seq<seq<byte>>, types: seq<byte>, w: nat, fb: nat, prior: seq<byte>, extra: seq<byte>)
    returns (more: seq<byte>)
    requires fb >= 1 && |prior| == w && |types| == |rows| > 0 && forall k :: 0 <= k < |rows| ==> |rows[k]| == w
    ensures more == Scanlines(rows[1..], types[1..], w, fb, rows[0]) + extra
    ensures Scanlines(rows, types, w, fb, prior) + extra == [types[0]] + FilterRow(types[0], rows[0], prior, fb) + more
  {
    var rest := Scanlines(rows[1..], types[1..], w, fb, rows[0]);
    var line := FilterRow(types[0], rows[0], prior, fb);
    more := rest + extra;
    assert [types[0]] + line + rest + extra == [types[0]] + line + (rest + extra);
  }

  /** Decoding undoes encoding, for every image, every choice of filter types, every pixel size and
      whatever follows the scanlines. */
  lemma {:induction false} RowsUndoScanlines(rows: seq<seq<byte>>, types: seq<byte>, w: nat, fb: nat, prior: seq<byte>,
                                             extra: seq<byte>)
    requires fb >= 1 && |prior| == w && |types| == |rows| && forall k :: 0 <= k < |rows| ==> |rows[k]| == w
    requires forall k :: 0 <= k < |types| ==> types[k] <= 4
    ensures var raw := Scanlines(rows, types, w, fb, prior) + extra;
            HasLines(raw, w, |rows|) && FiltersKnown(raw, w, |rows|) && Rows(raw, w, fb, prior, |rows|) == rows
    decreases |rows|
  {
    if rows != [] {
      var more := ScanlinesStep(rows, types, w, fb, prior, extra);
      RowsUndoScanlines(rows[1..], types[1..], w, fb, rows[0], extra);
      DecodeFront(types[0], rows[0], more, Scanlines(rows, types, w, fb, prior) + extra, w, fb, prior, |rows| - 1);
      assert rows == [rows[0]] + rows[1..];
    }
  }

  /** The filter types the scanlines name. */
  function FilterTypes(raw: seq<byte>, w: nat, y: nat): (types: seq<byte>)
    requires HasLines(raw, w, y)
    ensures |types| == y
    decreases y
  {
    if y == 0 then [] else [raw[0]] + FilterTypes(raw[w + 1..], w, y - 1)
  }

  /** What follows the scanlines. */
  function AfterLines(raw: seq<byte>, w: nat, y: nat): seq<byte>
    requires HasLines(raw, w, y)
    decreases y
  {
    if y == 0 then raw else AfterLines(raw[w + 1..], w, y - 1)
  }

  lemma {:induction false} AfterLinesIs(raw: seq<byte>, w: nat, y: nat)
    requires HasLines(raw, w, y)
    ensures 0 <= (w + 1) * y <= |raw| && AfterLines(raw, w, y) == raw[(w + 1) * y..]
    decreases y
  {
    LinesByLength(raw, w, y);
    if y > 0 {
      AfterLinesIs(raw[w + 1..], w, y - 1);
      assert (w + 1) * y == (w + 1) * (y - 1) + w + 1;
    }
  }

  /** And encoding undoes decoding: scanlines are determined by their rows and filter types. */
  lemma {:induction false} ScanlinesUndoRows(raw: seq<byte>, w: nat, fb: nat, prior: seq<byte>, y: nat)
    requires fb >= 1 && |prior| == w && HasLines(raw, w, y)
    ensures Scanlines(Rows(raw, w, fb, prior, y), FilterTypes(raw, w, y), w, fb, prior) + AfterLines(raw, w, y) == raw
    decreases y
  {
    if y > 0 {
      var row := Recon(raw[0], raw[1..w + 1], prior, fb);
      var rows, types := Rows(raw[w + 1..], w, fb, row, y - 1), FilterTypes(raw[w + 1..], w, y - 1);
      ScanlinesUndoRows(raw[w + 1..], w, fb, row, y - 1);
      EncodeFront(raw, row, types, rows, w, fb, prior, AfterLines(raw[w + 1..], w, y - 1));
    }
  }

  lemma EncodeFront(raw: seq<byte>, row: seq<byte>, types: seq<byte>, rows: seq<seq<byte>>, w: nat, fb: nat,
                    prior: seq<byte>, after: seq<byte>)
    requires fb >= 1 && |prior| == w < |raw| && |types| == |rows| && forall k :: 0 <= k < |rows| ==> |rows[k]| == w
    requires row == Recon(raw[0], raw[1..w + 1], prior, fb)
    requires Scanlines(rows, types, w, fb, row) + after == raw[w + 1..]
    ensures Scanlines([row] + rows, [raw[0]] + types, w, fb, prior) + after == raw
  {
    FilterUndoesRecon(raw[0], raw[1..w + 1], prior, fb);
    assert ([row] + rows)[1..] == rows && ([raw[0]] + types)[1..] == types;
    var line := FilterRow(raw[0], row, prior, fb);
    assert [raw[0]] + line + Scanlines(rows, types, w, fb, row) + after == [raw[0]] + line + raw[w + 1..];
    assert [raw[0]] + line + raw[w + 1..] == raw;
  }

  /** The output of a run of rows. */
  function RowsOut(f: Format, rows: seq<seq<byte>>, x: nat): (p: seq<byte>)
    requires f.WellFormed() && forall k :: 0 <= k < |rows| ==> |rows[k]| == f.RowBytes(x)
  {
    if rows == [] then [] else RowsOut(f, rows[..|rows| - 1], x) + RowOut(f, rows[|rows| - 1], x)
  }

  lemma {:induction false} RowsOutLength(f: Format, rows: seq<seq<byte>>, x: nat, stride: nat)
    requires f.WellFormed() && forall k :: 0 <= k < |rows| ==> |rows[k]| == f.RowBytes(x)
    requires stride == x * f.PixelBytes()
    ensures |RowsOut(f, rows, x)| == |rows| * stride
    decreases |rows|
  {
    if rows != [] {
      MulDistribute(|rows| - 1, 1, stride);
      RowsOutLength(f, rows[..|rows| - 1], x, stride);
    }
  }

  lemma RowsOutAppend(f: Format, rows: seq<seq<byte>>, row: seq<byte>, x: nat)
    requires f.WellFormed() && |row| == f.RowBytes(x) && forall k :: 0 <= k < |rows| ==> |rows[k]| == f.RowBytes(x)
    ensures RowsOut(f, rows + [row], x) == RowsOut(f, rows, x) + RowOut(f, row, x)
  {
    assert (rows + [row])[..|rows|] == rows;
  }

  /** The image that `y` scanlines of `x` pixels decode to. */
  function ImageOf(f: Format, raw: seq<byte>, x: nat, y: nat): (p: seq<byte>)
    requires f.WellFormed() && HasLines(raw, f.RowBytes(x), y)
    ensures |p| == y * (x * f.PixelBytes())
  {
    var rows := Rows(raw, f.RowBytes(x), f.FilterBytes(), Zeros(f.RowBytes(x)), y);
    RowsOutLength(f, rows, x, x * f.PixelBytes());
    RowsOut(f, rows, x)
  }

  // ---- sizes ----

  /** The size checks, in the order they are made; `None` when all pass. */
  function SizeError(f: Format, x: int32, y: int32, available: nat): (e: Option<PngError>)
    requires f.WellFormed() && x >= 1 && y >= 1
  {
    if !Mad3SizesValid(x, y, f.PixelBytes(), 0) then Some(OutOfMemory)
    else if !Mad3SizesValid(f.imgN, x, f.depth, 7) then Some(TooLarge)
    else
      RowBytesFit(f, x);
      if !Mad2SizesValid(f.RowBytes(x), y, f.RowBytes(x)) then Some(TooLarge)
      else if available < (f.RowBytes(x) + 1) * y then Some(NotEnoughPixels)
      else None
  }

  /** A row that passes the check has a length that fits, and at least one byte. */
  lemma RowBytesFit(f: Format, x: int32)
    requires f.WellFormed() && x >= 1 && Mad3SizesValid(f.imgN, x, f.depth, 7)
    ensures 1 <= f.FilterBytes() <= f.RowBytes(x) <= INT_MAX
    ensures f.depth >= 8 ==> f.RowBytes(x) == x * f.FilterBytes()
  {
    Mad3SizesExact(f.imgN, x, f.depth, 7);
    MulMonotone(1, x, f.imgN);
    if f.depth == 8 {
      assert f.RowBytes(x) == f.imgN * x;
    } else if f.depth == 16 {
      assert f.RowBytes(x) == f.imgN * x * 2;
      assert x * (f.imgN * 2) == f.imgN * x * 2;
    } else {
      MulMonotone(1, f.depth, f.imgN * x);
    }
  }

  /** When the checks pass, no size computed on the way exceeds 32 bits, and the workspace fits too. */
  lemma SizesFit(f: Format, x: int32, y: int32, available: nat)
    requires f.WellFormed() && 1 <= x && 1 <= y <= MAX_DIMENSION && SizeError(f, x, y, available) == None
    ensures y * (x * f.PixelBytes()) <= INT_MAX
    ensures f.RowBytes(x) <= INT_MAX && Mad2SizesValid(f.RowBytes(x), 2, 0)
    ensures (f.RowBytes(x) + 1) * y < 0x1_0000_0000
  {
    RowBytesFit(f, x);
    PixelsFit(x, y, f.PixelBytes());
    WorkspaceFits(f.RowBytes(x), y);
  }

  lemma PixelsFit(x: int32, y: int32, pixel: int32)
    requires Mad3SizesValid(x, y, pixel, 0)
    ensures y * (x * pixel) <= INT_MAX
  {
    Mad3SizesExact(x, y, pixel, 0);
    MulAssociate(y, x, pixel);
  }

  lemma WorkspaceFits(w: int32, y: int32)
    requires w >= 0 && 1 <= y <= MAX_DIMENSION && Mad2SizesValid(w, y, w)
    ensures Mad2SizesValid(w, 2, 0) && (w + 1) * y < 0x1_0000_0000
  {
    Mad2SizesExact(w, y, w);
    Mad2SizesExact(w, 2, 0);
    MulMonotone(1, y, w);
    MulDistribute(w, 1, y);
  }

  /** What reading an image must come to: the first check that fails, or the pixels. */
  function ImageResult(f: Format, raw: seq<byte>, x: int32, y: int32): (r: Result)
    requires f.WellFormed() && x >= 1 && y >= 1
    ensures r.Image? ==> HasLines(raw, f.RowBytes(x), y) && |r.pixels| == y * (x * f.PixelBytes())
  {
    var e := SizeError(f, x, y, |raw|);
    if e.Some? then Failed(e.value)
    else
      LinesByLength(raw, f.RowBytes(x), y);
      if FiltersKnown(raw, f.RowBytes(x), y) then Image(ImageOf(f, raw, x, y)) else Failed(InvalidFilter)
  }

  // ---- the row loop ----

  /** The workspace holds the row above in its `prior` half, and the output all rows so far. */
  ghost predicate RowsDone(f: Format, buf: array<byte>, out: array<byte>, prior: nat, x: nat, done: seq<seq<byte>>,
                           above: seq<byte>, before: seq<byte>)
    requires f.WellFormed()
    reads buf, out
  {
    && |above| == f.RowBytes(x) && prior + |above| <= buf.Length
    && (if done == [] then above == Zeros(|above|) else buf[prior..prior + |above|] == above)
    && (forall k :: 0 <= k < |done| ==> |done[k]| == f.RowBytes(x))
    && |RowsOut(f, done, x)| <= |before|
    && out[..] == Written(before, 0, RowsOut(f, done, x))
  }

  /** Moves a reconstructed row to the output. */
  method EmitRow(f: Format, buf: array<byte>, out: array<byte>, cur: nat, dest: nat, x: nat, n: nat,
                 ghost done: seq<seq<byte>>, ghost row: seq<byte>, ghost before: seq<byte>, ghost stride: nat)
    requires f.WellFormed() && buf != out && n == f.imgN * x && |row| == f.RowBytes(x)
    requires cur + |row| <= buf.Length && buf[cur..cur + |row|] == row
    requires forall k :: 0 <= k < |done| ==> |done[k]| == f.RowBytes(x)
    requires dest == |RowsOut(f, done, x)| && stride == x * f.PixelBytes() && dest + stride <= |before|
    requires out[..] == Written(before, 0, RowsOut(f, done, x))
    modifies out
    ensures |RowsOut(f, done + [row], x)| == dest + stride
    ensures out[..] == Written(before, 0, RowsOut(f, done + [row], x))
  {
    RowsOutAppend(f, done, row, x);
    WrittenAppend(before, RowsOut(f, done, x), RowOut(f, row, x));
    ExpandRow(f, buf, cur, out, dest, x, n, row);
  }

  /** One scanline: undo its filter, then move it to the output. */
  method DecodeRow(f: Format, buf: array<byte>, out: array<byte>, cur: nat, prior: nat, dest: nat, x: nat, n: nat,
                   filter: byte, line: seq<byte>, first: bool, ghost done: seq<seq<byte>>, ghost above: seq<byte>,
                   ghost before: seq<byte>, fb: nat, ghost stride: nat)
    returns (ghost row: seq<byte>)
    requires f.WellFormed() && buf != out && n == f.imgN * x && |line| == f.RowBytes(x) && fb == f.FilterBytes()
    requires 1 <= fb <= |line| && filter <= 4
    requires Halves(buf.Length, |line|, cur, prior) && (first <==> done == [])
    requires RowsDone(f, buf, out, prior, x, done, above, before) && dest == |RowsOut(f, done, x)|
    requires stride == x * f.PixelBytes() && dest + stride <= |before|
    modifies buf, out
    ensures row == Recon(filter, line, above, fb)
    ensures RowsDone(f, buf, out, cur, x, done + [row], row, before) && |RowsOut(f, done + [row], x)| == dest + stride
  {
    UnfilterRow(buf, cur, prior, line, fb, filter, first);
    row := buf[cur..cur + |line|];
    EmitRow(f, buf, out, cur, dest, x, n, done, row, before, stride);
  }

  /** What is left of the scanlines after some rows: with `all` rows of the image, and `known` saying
      whether all their filter types are. */
  ghost predicate Remaining(all: seq<seq<byte>>, known: bool, rest: seq<byte>, w: nat, fb: nat, done: seq<seq<byte>>,
                            above: seq<byte>, left: nat)
  {
    && fb >= 1 && |above| == w && |done| + left == |all| && HasLines(rest, w, left)
    && all == done + Rows(rest, w, fb, above, left)
    && (known <==> FiltersKnown(rest, w, left))
  }

  lemma RemainingNext(all: seq<seq<byte>>, known: bool, rest: seq<byte>, w: nat, fb: nat, done: seq<seq<byte>>,
                      above: seq<byte>, left: nat, row: seq<byte>)
    requires left > 0 && Remaining(all, known, rest, w, fb, done, above, left)
    requires w + 1 <= |rest| && rest[0] <= 4 && row == Recon(rest[0], rest[1..w + 1], above, fb)
    ensures Remaining(all, known, rest[w + 1..], w, fb, done + [row], row, left - 1)
  {
    RowsAssociate(done, row, Rows(rest[w + 1..], w, fb, row, left - 1));
  }

  lemma RowsAssociate(done: seq<seq<byte>>, row: seq<byte>, more: seq<seq<byte>>)
    ensures done + ([row] + more) == (done + [row]) + more
  {}

  /** A scanline that is there, and whose filter type decides. */
  lemma RemainingLine(all: seq<seq<byte>>, known: bool, rest: seq<byte>, w: nat, fb: nat, done: seq<seq<byte>>,
                      above: seq<byte>, left: nat)
    requires left > 0 && Remaining(all, known, rest, w, fb, done, above, left)
    ensures w + 1 <= |rest| && (rest[0] > 4 ==> !known)
  {}

  lemma AllDone(all: seq<seq<byte>>, known: bool, rest: seq<byte>, w: nat, fb: nat, done: seq<seq<byte>>,
                above: seq<byte>)
    requires |done| == |all| && Remaining(all, known, rest, w, fb, done, above, 0)
    ensures known && all == done
  {
    assert Rows(rest, w, fb, above, 0) == [];
  }

  /** Where row `j` is reconstructed: the halves of the workspace take turns. */
  function Half(j: nat, w: nat): (at: nat)
    ensures at == 0 || at == w
  {
    if j == 0 then 0 else w - Half(j - 1, w)
  }

  method Alternate(j: nat, w: nat) returns (cur: nat, prior: nat)
    ensures cur == Half(j, w) == Half(j + 2, w) && prior == Half(j + 1, w) && Halves(2 * w, w, cur, prior)
  {
    cur, prior := j % 2 * w, (1 - j % 2) * w;
    HalfIs(j, w);
  }

  lemma {:induction false} HalfIs(j: nat, w: nat)
    ensures Half(j, w) == j % 2 * w
  {
    if j > 0 { HalfIs(j - 1, w); }
  }

  /** There is room for another row. */
  lemma NextRow(f: Format, done: seq<seq<byte>>, x: nat, stride: nat, y: nat)
    requires f.WellFormed() && forall k :: 0 <= k < |done| ==> |done[k]| == f.RowBytes(x)
    requires |done| < y && stride == x * f.PixelBytes()
    ensures |RowsOut(f, done, x)| + stride <= Times(y, stride)
  {
    RowsOutLength(f, done, x, stride);
    TimesIs(|done|, stride);
    TimesMonotone(|done| + 1, y, stride);
    TimesIs(|done| + 1, stride);
    MulDistribute(|done|, 1, stride);
  }

  /** Row `j`, in the half of the workspace whose turn it is. */
  method PlaceRow(f: Format, buf: array<byte>, out: array<byte>, j: nat, dest: nat, x: nat, n: nat, fb: nat,
                  filter: byte, line: seq<byte>, ghost done: seq<seq<byte>>, ghost above: seq<byte>,
                  ghost before: seq<byte>, ghost stride: nat)
    returns (ghost row: seq<byte>)
    requires f.WellFormed() && buf != out && n == f.imgN * x && |line| == f.RowBytes(x) && fb == f.FilterBytes()
    requires 1 <= fb <= |line| && filter <= 4
    requires buf.Length == 2 * |line| && |done| == j && stride == x * f.PixelBytes() && dest + stride <= |before|
    requires RowsDone(f, buf, out, Half(j + 1, |line|), x, done, above, before) && dest == |RowsOut(f, done, x)|
    modifies buf, out
    ensures row == Recon(filter, line, above, fb)
    ensures RowsDone(f, buf, out, Half(j + 2, |line|), x, done + [row], row, before)
    ensures |RowsOut(f, done + [row], x)| == dest + stride
  {
    var cur, prior := Alternate(j, |line|);
    row := DecodeRow(f, buf, out, cur, prior, dest, x, n, filter, line, j == 0, done, above, before, fb, stride);
  }

  /** The row loop before row `j`, with `left` rows to go: what is done is in the output, the row above
      in the workspace, and what is left in `rest`. */
  ghost predicate LoopState(f: Format, buf: array<byte>, out: array<byte>, rest: seq<byte>, x: nat, w: nat, fb: nat,
                            j: nat, left: nat, dest: nat, all: seq<seq<byte>>, known: bool, done: seq<seq<byte>>,
                            above: seq<byte>, before: seq<byte>)
    requires f.WellFormed()
    reads buf, out
  {
    match f
    case Format(_, _, _, _, _) =>
      && j == |done| && Remaining(all, known, rest, w, fb, done, above, left)
      && RowsDone(f, buf, out, Half(j + 1, w), x, done, above, before) && dest == |RowsOut(f, done, x)|
  }

  lemma LoopStart(f: Format, buf: array<byte>, out: array<byte>, raw: seq<byte>, x: nat, w: nat, fb: nat, y: nat,
                  all: seq<seq<byte>>, known: bool, above: seq<byte>)
    requires f.WellFormed() && w == f.RowBytes(x) && buf.Length == 2 * w && above == Zeros(w)
    requires Remaining(all, known, raw, w, fb, [], above, y)
    ensures LoopState(f, buf, out, raw, x, w, fb, 0, y, 0, all, known, [], above, out[..])
  {}

  lemma LoopEnd(f: Format, buf: array<byte>, out: array<byte>, rest: seq<byte>, x: nat, w: nat, fb: nat, j: nat,
                dest: nat, all: seq<seq<byte>>, known: bool, done: seq<seq<byte>>, above: seq<byte>, before: seq<byte>)
    requires f.WellFormed() && LoopState(f, buf, out, rest, x, w, fb, j, 0, dest, all, known, done, above, before)
    ensures known && (forall k :: 0 <= k < |all| ==> |all[k]| == f.RowBytes(x))
    ensures |RowsOut(f, all, x)| <= |before| && out[..] == Written(before, 0, RowsOut(f, all, x))
  {
    AllDone(all, known, rest, w, fb, done, above);
  }

  /** A row: its filter type, if it is known, is undone, and its pixels are placed. */
  method RowRound(f: Format, rest: seq<byte>, x: nat, ghost y: nat, w: nat, fb: nat, n: nat, stride: nat,
                  buf: array<byte>, out: array<byte>, j: nat, dest: nat, ghost left: nat, ghost all: seq<seq<byte>>,
                  ghost known: bool, ghost done: seq<seq<byte>>, ghost above: seq<byte>, ghost before: seq<byte>)
    returns (ok: bool, ghost row: seq<byte>)
    requires f.WellFormed() && w == f.RowBytes(x) && fb == f.FilterBytes() && 1 <= fb <= w && buf != out
    requires n == f.imgN * x && stride == x * f.PixelBytes() && buf.Length == 2 * w && |before| == Times(y, stride)
    requires LoopState(f, buf, out, rest, x, w, fb, j, left, dest, all, known, done, above, before) && j < y && left > 0
    modifies buf, out
    ensures w + 1 <= |rest|
    ensures !ok ==> !known
    ensures ok ==>
              LoopState(f, buf, out, rest[w + 1..], x, w, fb, j + 1, left - 1, dest + stride, all, known,
                        done + [row], row, before)
  {
    row := above;
    RemainingLine(all, known, rest, w, fb, done, above, left);
    if rest[0] > 4 { return false, row; }
    NextRow(f, done, x, stride, y);
    row := PlaceRow(f, buf, out, j, dest, x, n, fb, rest[0], rest[1..w + 1], done, above, before, stride);
    RemainingNext(all, known, rest, w, fb, done, above, left, row);
    ok := true;
  }

  /** The row loop; a filter type that is not known ends it. */
  method RowLoop(f: Format, raw: seq<byte>, x: nat, y: nat, w: nat, fb: nat, n: nat, stride: nat, buf: array<byte>,
                 out: array<byte>, ghost all: seq<seq<byte>>, ghost known: bool)
    returns (ok: bool)
    requires f.WellFormed() && w == f.RowBytes(x) && fb == f.FilterBytes() && 1 <= fb <= w && buf != out
    requires n == f.imgN * x && stride == x * f.PixelBytes() && out.Length == Times(y, stride) && buf.Length == 2 * w
    requires Remaining(all, known, raw, w, fb, [], Zeros(w), y)
    modifies buf, out
    ensures ok <==> known
    ensures ok ==> forall k :: 0 <= k < |all| ==> |all[k]| == f.RowBytes(x)
    ensures ok ==> |RowsOut(f, all, x)| <= out.Length && out[..] == Written(old(out[..]), 0, RowsOut(f, all, x))
  {
    var j: nat, dest: nat := 0, 0;
    var rest := raw;
    ghost var done, before, above, left: nat := [], out[..], Zeros(w), y;
    LoopStart(f, buf, out, raw, x, w, fb, y, all, known, above);
    while j < y
      invariant j + left == y && LoopState(f, buf, out, rest, x, w, fb, j, left, dest, all, known, done, above, before)
      decreases y - j
    {
      ghost var row;
      ok, row := RowRound(f, rest, x, y, w, fb, n, stride, buf, out, j, dest, left, all, known, done, above, before);
      if !ok { return; }
      done, above, left := done + [row], row, left - 1;
      rest, j, dest := rest[w + 1..], j + 1, dest + stride;
    }
    LoopEnd(f, buf, out, rest, x, w, fb, j, dest, all, known, done, above, before);
    ok := true;
  }

  lemma RowsBegin(raw: seq<byte>, w: nat, fb: nat, y: nat, all: seq<seq<byte>>, known: bool)
    requires fb >= 1 && HasLines(raw, w, y) && all == Rows(raw, w, fb, Zeros(w), y) && known == FiltersKnown(raw, w, y)
    ensures Remaining(all, known, raw, w, fb, [], Zeros(w), y)
  {
    assert [] + all == all;
  }

  /** The buffers, and the row loop. */
  method DecodeImage(f: Format, raw: seq<byte>, x: nat, y: nat, w: nat, fb: nat, n: nat, stride: nat)
    returns (r: Result)
    requires f.WellFormed() && w == f.RowBytes(x) && fb == f.FilterBytes() && 1 <= fb <= w && HasLines(raw, w, y)
    requires n == f.imgN * x && stride == x * f.PixelBytes()
    ensures r == if FiltersKnown(raw, w, y) then Image(ImageOf(f, raw, x, y)) else Failed(InvalidFilter)
  {
    MulMonotone(0, y, stride);
    TimesIs(y, stride);
    var out := new byte[y * stride](_ => 0);
    var buf := new byte[2 * w](_ => 0);
    ghost var before, all := out[..], Rows(raw, w, fb, Zeros(w), y);
    RowsBegin(raw, w, fb, y, all, FiltersKnown(raw, w, y));
    var ok := RowLoop(f, raw, x, y, w, fb, n, stride, buf, out, all, FiltersKnown(raw, w, y));
    if ok {
      RowsOutLength(f, all, x, stride);
      WrittenAll(before, RowsOut(f, all, x));
      r := Image(out[..]);
    } else {
      r := Failed(InvalidFilter);
    }
  }

  /** The size checks, made one after the other. */
  method CheckSizes(f: Format, x: int32, y: int32, available: nat) returns (e: Option<PngError>)
    requires f.WellFormed() && x >= 1 && y >= 1
    ensures e == SizeError(f, x, y, available)
  {
    if !Mad3SizesValid(x, y, f.PixelBytes(), 0) { return Some(OutOfMemory); }
    if !Mad3SizesValid(f.imgN, x, f.depth, 7) { return Some(TooLarge); }
    RowBytesFit(f, x);
    var w := f.RowBytes(x);
    if !Mad2SizesValid(w, y, w) { return Some(TooLarge); }
    if available < (w + 1) * y { return Some(NotEnoughPixels); }
    return None;
  }

  /** A whole image from its scanlines. */
  method CreatePngImageRaw(f: Format, raw: seq<byte>, x: int32, y: int32) returns (r: Result)
    requires f.WellFormed() && 1 <= x <= MAX_DIMENSION && 1 <= y <= MAX_DIMENSION
    ensures r == ImageResult(f, raw, x, y)
  {
    var e := CheckSizes(f, x, y, |raw|);
    if e.Some? { return Failed(e.value); }
    var w := f.RowBytes(x);
    RowReady(f, raw, x, y, w);
    if !Mad2SizesValid(w, 2, 0) { assert false; }
    var n: nat := f.imgN * x;
    var stride: nat := x * f.PixelBytes();
    r := DecodeImage(f, raw, x, y, w, f.FilterBytes(), n, stride);
  }

  /** What the decoding of the rows can count on once the sizes are checked. */
  lemma RowReady(f: Format, raw: seq<byte>, x: int32, y: int32, w: nat)
    requires f.WellFormed() && 1 <= x <= MAX_DIMENSION && 1 <= y <= MAX_DIMENSION && SizeError(f, x, y, |raw|) == None
    requires w == f.RowBytes(x)
    ensures 1 <= f.FilterBytes() <= w <= INT_MAX && Mad2SizesValid(w, 2, 0) && HasLines(raw, w, y)
    ensures f.imgN * x >= 0 && x * f.PixelBytes() >= 0
    ensures ImageResult(f, raw, x, y)
         == if FiltersKnown(raw, w, y) then Image(ImageOf(f, raw, x, y)) else Failed(InvalidFilter)
  {
    RowBytesFit(f, x);
    SizesFit(f, x, y, |raw|);
    LinesByLength(raw, w, y);
  }

  /** End to end: filter an image's rows in any way, append anything, decode, and its pixels come out. */
  lemma DecodeUndoesEncode(f: Format, rows: seq<seq<byte>>, types: seq<byte>, x: nat, extra: seq<byte>)
    requires f.WellFormed() && |types| == |rows| && forall k :: 0 <= k < |rows| ==> |rows[k]| == f.RowBytes(x)
    requires forall k :: 0 <= k < |types| ==> types[k] <= 4
    ensures var w := f.RowBytes(x);
            var raw := Scanlines(rows, types, w, f.FilterBytes(), Zeros(w)) + extra;
            && HasLines(raw, w, |rows|) && FiltersKnown(raw, w, |rows|)
            && ImageOf(f, raw, x, |rows|) == RowsOut(f, rows, x)
  {
    RowsUndoScanlines(rows, types, f.RowBytes(x), f.FilterBytes(), Zeros(f.RowBytes(x)), extra);
  }
}
