/** Where the pixels of a GIF frame go: the cursor that walks its rows, plain or interlaced
    (Appendix E of GIF89a). */
module GifRaster {
  import opened Bits
  import opened Buffers

  // ---- the order of rows ----

  /** Rows `o`, `o + s`, ... of a frame of height `h`. */
  function RowsFrom(o: nat, s: nat, h: nat): seq<nat>
    requires s > 0
    decreases if o < h then h - o else 0
  {
    if o >= h then [] else [o] + RowsFrom(o + s, s, h)
  }

  /** The rows in the order they are sent: four passes when interlaced. */
  function RowOrder(h: nat, interlaced: bool): seq<nat> {
    if interlaced then RowsFrom(0, 8, h) + (RowsFrom(4, 8, h) + (RowsFrom(2, 4, h) + (RowsFrom(1, 2, h) + [])))
    else RowsFrom(0, 1, h)
  }

  lemma {:induction false} RowsFromMembers(o: nat, s: nat, h: nat, r: nat)
    requires s > 0
    ensures r in RowsFrom(o, s, h) <==> o <= r < h && (r - o) % s == 0
    decreases if o < h then h - o else 0
  {
    if o < h {
      RowsFromMembers(o + s, s, h, r);
      if o <= r < h {
        if r - o < s {
          QuotientUnique(r - o, s, 0, r - o);
        } else {
          ModStep(r - o, s);
        }
      }
    }
  }

  lemma {:induction false} RowsFromDistinct(o: nat, s: nat, h: nat)
    requires s > 0
    ensures Distinct(RowsFrom(o, s, h))
    decreases if o < h then h - o else 0
  {
    if o < h {
      RowsFromDistinct(o + s, s, h);
      RowsFromMembers(o + s, s, h, o);
    }
  }

  lemma DistinctAppend(a: seq<nat>, b: seq<nat>)
    requires Distinct(a) && Distinct(b) && forall r: nat :: !(r in a && r in b)
    ensures Distinct(a + b)
  {
    forall i, j | 0 <= i < j < |a + b| ensures (a + b)[i] != (a + b)[j] {
      if i < |a| <= j { assert (a + b)[i] in a && (a + b)[j] in b; }
    }
  }

  lemma PassResidue(o: nat, s: nat, h: nat, r: nat)
    requires o < s
    ensures r in RowsFrom(o, s, h) <==> r < h && r % s == o
  {
    RowsFromMembers(o, s, h, r);
    if r < o {
      QuotientUnique(r, s, 0, r);
    } else {
      OffsetResidue(o, s, r, r - o);
    }
  }

  lemma OffsetResidue(o: nat, s: nat, r: nat, d: nat)
    requires o < s && r == o + d
    ensures d % s == 0 <==> r % s == o
  {
    if d % s == 0 {
      QuotientUnique(r, s, d / s, o);
    } else if r % s == o {
      QuotientUnique(d, s, r / s, 0);
    }
  }

  /** The residues that tell the passes apart. */
  lemma PassResidues(h: nat, r: nat)
    ensures r in RowsFrom(0, 8, h) <==> r < h && r % 8 == 0
    ensures r in RowsFrom(4, 8, h) <==> r < h && r % 8 == 4
    ensures r in RowsFrom(2, 4, h) <==> r < h && r % 4 == 2
    ensures r in RowsFrom(1, 2, h) <==> r < h && r % 2 == 1
    ensures r in RowsFrom(0, 1, h) <==> r < h
  {
    PassResidue(0, 8, h, r);
    PassResidue(4, 8, h, r);
    PassResidue(2, 4, h, r);
    PassResidue(1, 2, h, r);
    PassResidue(0, 1, h, r);
  }

  /** Every row of the frame is sent. */
  lemma RowOrderCovers(h: nat, interlaced: bool, r: nat)
    ensures r in RowOrder(h, interlaced) <==> r < h
  {
    PassResidues(h, r);
    OneResidue(r);
  }

  lemma OneResidue(r: nat)
    ensures r % 8 == 0 || r % 8 == 4 || r % 4 == 2 || r % 2 == 1
  {
    ModMod(r, 4, 2);
    ModMod(r, 2, 4);
    TileResidue(r % 8);
  }

  lemma TileResidue(e: nat)
    requires e < 8
    ensures e == 0 || e == 4 || e % 4 == 2 || e % 2 == 1
  {}

  /** And none twice: the order of rows is a permutation, for every height. */
  lemma RowOrderDistinct(h: nat, interlaced: bool)
    ensures Distinct(RowOrder(h, interlaced))
  {
    forall o: nat, s: nat | s > 0 ensures Distinct(RowsFrom(o, s, h)) { RowsFromDistinct(o, s, h); }
    forall r: nat
      ensures r in RowsFrom(0, 8, h) <==> r < h && r % 8 == 0
      ensures r in RowsFrom(4, 8, h) <==> r < h && r % 8 == 4
      ensures r in RowsFrom(2, 4, h) <==> r < h && r % 4 == 2
      ensures r in RowsFrom(1, 2, h) <==> r < h && r % 2 == 1
      ensures r % 8 % 4 == r % 4 && r % 4 % 2 == r % 2
    {
      PassResidues(h, r);
      ModMod(r, 4, 2);
      ModMod(r, 2, 2);
    }
    var p4 := RowsFrom(1, 2, h) + [];
    DistinctAppend(RowsFrom(1, 2, h), []);
    DistinctAppend(RowsFrom(2, 4, h), p4);
    DistinctAppend(RowsFrom(4, 8, h), RowsFrom(2, 4, h) + p4);
    DistinctAppend(RowsFrom(0, 8, h), RowsFrom(4, 8, h) + (RowsFrom(2, 4, h) + p4));
  }

  lemma {:induction false} RowsFromCount(o: nat, h: nat)
    requires o <= h
    ensures |RowsFrom(o, 1, h)| == h - o
    decreases h - o
  {
    if o < h { RowsFromCount(o + 1, h); }
  }

  lemma {:induction false} RowsFromSplit(o: nat, s: nat, twice: nat, h: nat)
    requires s > 0 && twice == 2 * s
    ensures |RowsFrom(o, s, h)| == |RowsFrom(o, twice, h)| + |RowsFrom(o + s, twice, h)|
    decreases if o < h then h - o else 0
  {
    if o < h { RowsFromSplit(o + s, s, twice, h); }
  }

  lemma RowOrderCount(h: nat, interlaced: bool)
    ensures |RowOrder(h, interlaced)| == h
  {
    RowsFromCount(0, h);
    RowsFromSplit(0, 1, 2, h);
    RowsFromSplit(0, 2, 4, h);
    RowsFromSplit(0, 4, 8, h);
  }

  // ---- the walk ----

  /** The passes still to come when `parse` are left. */
  function LaterRows(parse: nat, h: nat): seq<nat> {
    if parse == 0 then [] else RowsFrom(Pow2(parse - 1), Pow2(parse), h) + LaterRows(parse - 1, h)
  }

  /** The rows from the cursor's on. */
  function RowsLeft(row: nat, step: nat, parse: nat, h: nat): seq<nat>
    requires step > 0
  {
    RowsFrom(row, step, h) + LaterRows(parse, h)
  }

  /** At the start the rows left are all rows, in order. */
  lemma WalkStarts(h: nat, interlaced: bool)
    ensures RowsLeft(0, if interlaced then 8 else 1, if interlaced then 3 else 0, h) == RowOrder(h, interlaced)
  {
    if interlaced {
      var three := 3;
      Pow2Value(3);
      Pow2Value(2);
      Pow2Value(1);
      Pow2Value(0);
      assert LaterRows(three, h) == RowsFrom(4, 8, h) + LaterRows(2, h);
      assert LaterRows(2, h) == RowsFrom(2, 4, h) + LaterRows(1, h);
      assert LaterRows(1, h) == RowsFrom(1, 2, h) + LaterRows(0, h);
    } else {
      assert RowsFrom(0, 1, h) + [] == RowsFrom(0, 1, h);
    }
  }

  // ---- the frame and what is drawn in it ----

  /** A frame at (x, y) of a canvas. */
  datatype Frame = Frame(x: nat, y: nat, w: nat, h: nat, interlaced: bool, canvasW: nat, canvasH: nat)
  {
    predicate Fits() {
      x + w <= canvasW && y + h <= canvasH
    }

    /** The pixel of the canvas in column `c` of row `r` of the frame. */
    function Pixel(c: nat, r: nat): nat {
      Times(y + r, canvasW) + x + c
    }
  }

  /** Canvas pixels, four bytes each, and which of them were touched. */
  datatype Screen = Screen(out: seq<byte>, history: seq<byte>)

  predicate ScreenFits(fr: Frame, s: Screen) {
    |s.history| == Times(fr.canvasH, fr.canvasW) && |s.out| == 4 * |s.history|
  }

  lemma PixelInside(fr: Frame, s: Screen, c: nat, r: nat)
    requires fr.Fits() && ScreenFits(fr, s) && c < fr.w && r < fr.h
    ensures 4 * fr.Pixel(c, r) + 4 <= |s.out| && fr.Pixel(c, r) < |s.history|
  {
    TimesMonotone(fr.y + r, fr.canvasH, fr.canvasW);
  }

  /** One pixel: colour `v` of the table, in the byte order of the canvas; transparent ones only count
      as touched. */
  function Draw(s: Screen, at: nat, table: seq<byte>, v: byte): (t: Screen)
    requires 4 * at + 4 <= |s.out| && at < |s.history| && |table| == 1024
    ensures |t.out| == |s.out| && |t.history| == |s.history|
  {
    var pixel := [table[4 * v + 2], table[4 * v + 1], table[4 * v], table[4 * v + 3]];
    Screen(if table[4 * v + 3] > 128 then Written(s.out, 4 * at, pixel) else s.out, s.history[at := 1])
  }

  /** All rows of an order are rows of the frame. */
  predicate RowsInside(fr: Frame, order: seq<nat>) {
    forall i :: 0 <= i < |order| ==> order[i] < fr.h
  }

  lemma OrderInside(fr: Frame)
    ensures RowsInside(fr, RowOrder(fr.h, fr.interlaced))
  {
    var order := RowOrder(fr.h, fr.interlaced);
    forall i | 0 <= i < |order| ensures order[i] < fr.h { RowOrderCovers(fr.h, fr.interlaced, order[i]); }
  }

  /** Where the k-th pixel of the frame goes: left to right in the k/w-th row of the order; nowhere once
      the rows are used up. */
  function PlaceOf(fr: Frame, order: seq<nat>, k: nat): Option<nat> {
    if fr.w == 0 || Group(fr.w, k) >= |order| then None else Some(fr.Pixel(Within(fr.w, k), order[Group(fr.w, k)]))
  }

  lemma PlaceInside(fr: Frame, order: seq<nat>, s: Screen, k: nat)
    requires fr.Fits() && RowsInside(fr, order) && ScreenFits(fr, s) && PlaceOf(fr, order, k).Some?
    ensures 4 * PlaceOf(fr, order, k).value + 4 <= |s.out| && PlaceOf(fr, order, k).value < |s.history|
  {
    PixelInside(fr, s, Within(fr.w, k), order[Group(fr.w, k)]);
  }

  /** The screen after the pixels `colours` were drawn in turn. */
  function Painted(fr: Frame, order: seq<nat>, s: Screen, table: seq<byte>, colours: seq<byte>): (t: Screen)
    requires fr.Fits() && RowsInside(fr, order) && ScreenFits(fr, s) && |table| == 1024
    ensures ScreenFits(fr, t)
    decreases |colours|
  {
    if colours == [] then s
    else
      var k := |colours| - 1;
      var before := Painted(fr, order, s, table, colours[..k]);
      match PlaceOf(fr, order, k)
      case None => before
      case Some(at) => PlaceInside(fr, order, before, k); Draw(before, at, table, colours[k])
  }

  /** Drawing one pixel more. */
  lemma PaintedNext(fr: Frame, order: seq<nat>, s: Screen, table: seq<byte>, colours: seq<byte>, v: byte)
    requires fr.Fits() && RowsInside(fr, order) && ScreenFits(fr, s) && |table| == 1024
    ensures PlaceOf(fr, order, |colours|) == None ==>
              Painted(fr, order, s, table, colours + [v]) == Painted(fr, order, s, table, colours)
    ensures PlaceOf(fr, order, |colours|).Some? ==>
              var at, t := PlaceOf(fr, order, |colours|).value, Painted(fr, order, s, table, colours);
              && 4 * at + 4 <= |t.out| && at < |t.history|
              && Painted(fr, order, s, table, colours + [v]) == Draw(t, at, table, v)
  {
    assert (colours + [v])[..|colours|] == colours;
    if PlaceOf(fr, order, |colours|).Some? { PlaceInside(fr, order, Painted(fr, order, s, table, colours), |colours|); }
  }

  /** Different pixels go to different places. */
  lemma PlacesDistinct(fr: Frame, order: seq<nat>, k: nat, l: nat)
    requires fr.Fits() && Distinct(order) && PlaceOf(fr, order, k).Some?
    requires PlaceOf(fr, order, k) == PlaceOf(fr, order, l)
    ensures k == l
  {
    var rk, rl := order[Group(fr.w, k)], order[Group(fr.w, l)];
    if rk < rl { TimesMonotone(fr.y + rk, fr.y + rl, fr.canvasW); }
    if rl < rk { TimesMonotone(fr.y + rl, fr.y + rk, fr.canvasW); }
    SameGroup(fr.w, k, l);
  }

  lemma {:induction false} SameGroup(w: nat, k: nat, l: nat)
    requires w > 0 && Group(w, k) == Group(w, l) && Within(w, k) == Within(w, l)
    ensures k == l
    decreases k
  {
    if k >= w && l >= w { SameGroup(w, k - w, l - w); }
  }

  lemma {:induction false} ItemOf(w: nat, g: nat, m: nat) returns (k: nat)
    requires m < w
    ensures Group(w, k) == g && Within(w, k) == m
    decreases g
  {
    if g == 0 {
      k := m;
    } else {
      k := ItemOf(w, g - 1, m);
      k := k + w;
    }
  }

  /** Placement is a permutation of the frame: w * h pixels, interlaced or not, go to w * h different
      places, and any pixel beyond goes nowhere; `PlacesCover` adds that every pixel is one of them. */
  lemma PlacementIsPermutation(fr: Frame, order: seq<nat>)
    requires fr.Fits() && order == RowOrder(fr.h, fr.interlaced)
    ensures forall k: nat :: PlaceOf(fr, order, k).Some? <==> k < fr.h * fr.w
    ensures forall k: nat, l: nat :: PlaceOf(fr, order, k).Some? && PlaceOf(fr, order, k) == PlaceOf(fr, order, l) ==>
              k == l
  {
    RowOrderCount(fr.h, fr.interlaced);
    RowOrderDistinct(fr.h, fr.interlaced);
    forall k: nat ensures PlaceOf(fr, order, k).Some? <==> k < fr.h * fr.w {
      if fr.w > 0 {
        GroupIs(fr.w, k);
        DivAtLeast(k, fr.w, fr.h);
      }
    }
    forall k: nat, l: nat | PlaceOf(fr, order, k).Some? && PlaceOf(fr, order, k) == PlaceOf(fr, order, l)
      ensures k == l {
      PlacesDistinct(fr, order, k, l);
    }
  }

  lemma PlacesCover(fr: Frame, order: seq<nat>, c: nat, r: nat) returns (k: nat)
    requires fr.Fits() && order == RowOrder(fr.h, fr.interlaced) && c < fr.w && r < fr.h
    ensures PlaceOf(fr, order, k) == Some(fr.Pixel(c, r))
  {
    RowOrderCovers(fr.h, fr.interlaced, r);
    var g: nat :| g < |order| && order[g] == r;
    k := ItemOf(fr.w, g, c);
  }

  // ---- what the screen shows in the end ----

  /** The bytes of pixel `at`. */
  function PixelBytes(s: Screen, at: nat): (p: seq<byte>)
    requires 4 * at + 4 <= |s.out|
    ensures |p| == 4
  {
    s.out[4 * at..4 * at + 4]
  }

  /** Pixel `at` was drawn with colour `v` of the table, which shows when it is opaque. */
  ghost predicate Drawn(s: Screen, t: Screen, at: nat, table: seq<byte>, v: byte)
    requires |t.out| == |s.out| && |t.history| == |s.history| && |table| == 1024
  {
    && 4 * at + 4 <= |s.out| && at < |s.history| && t.history[at] == 1
    && PixelBytes(t, at) == if table[4 * v + 3] > 128
                            then [table[4 * v + 2], table[4 * v + 1], table[4 * v], table[4 * v + 3]]
                            else PixelBytes(s, at)
  }

  ghost predicate Untouched(s: Screen, t: Screen, at: nat)
    requires |t.out| == |s.out| && |t.history| == |s.history|
  {
    4 * at + 4 <= |s.out| && at < |s.history| ==>
      t.history[at] == s.history[at] && PixelBytes(t, at) == PixelBytes(s, at)
  }

  lemma DrawShows(s: Screen, at: nat, table: seq<byte>, v: byte)
    requires 4 * at + 4 <= |s.out| && at < |s.history| && |table| == 1024
    ensures Drawn(s, Draw(s, at, table, v), at, table, v)
  {}

  lemma DrawLeaves(s: Screen, at: nat, table: seq<byte>, v: byte, other: nat)
    requires 4 * at + 4 <= |s.out| && at < |s.history| && |table| == 1024 && other != at
    ensures Untouched(s, Draw(s, at, table, v), other)
  {}

  /** A place that none of the pixels goes to is as it was. */
  lemma {:induction false} PaintedElsewhere(fr: Frame, order: seq<nat>, s: Screen, table: seq<byte>,
                                            colours: seq<byte>, at: nat)
    requires fr.Fits() && RowsInside(fr, order) && ScreenFits(fr, s) && |table| == 1024
    requires forall k: nat :: k < |colours| ==> PlaceOf(fr, order, k) != Some(at)
    ensures Untouched(s, Painted(fr, order, s, table, colours), at)
    decreases |colours|
  {
    if colours != [] {
      var k := |colours| - 1;
      var before := Painted(fr, order, s, table, colours[..k]);
      PaintedElsewhere(fr, order, s, table, colours[..k], at);
      if PlaceOf(fr, order, k).Some? {
        PlaceInside(fr, order, before, k);
        DrawLeaves(before, PlaceOf(fr, order, k).value, table, colours[k], at);
      }
    }
  }

  /** The place of a pixel shows that pixel. */
  lemma {:induction false} PaintedAt(fr: Frame, order: seq<nat>, s: Screen, table: seq<byte>, colours: seq<byte>,
                                     k: nat, at: nat)
    requires fr.Fits() && RowsInside(fr, order) && Distinct(order) && ScreenFits(fr, s) && |table| == 1024
    requires k < |colours| && PlaceOf(fr, order, k) == Some(at)
    ensures Drawn(s, Painted(fr, order, s, table, colours), at, table, colours[k])
    decreases |colours|
  {
    var l := |colours| - 1;
    var before := Painted(fr, order, s, table, colours[..l]);
    if k == l {
      forall m: nat | m < l ensures PlaceOf(fr, order, m) != Some(at) {
        if PlaceOf(fr, order, m) == Some(at) { PlacesDistinct(fr, order, k, m); }
      }
      PaintedElsewhere(fr, order, s, table, colours[..l], at);
      PlaceInside(fr, order, before, k);
      DrawShows(before, at, table, colours[k]);
    } else {
      PaintedAt(fr, order, s, table, colours[..l], k, at);
      if PlaceOf(fr, order, l).Some? {
        if PlaceOf(fr, order, l) == Some(at) { PlacesDistinct(fr, order, k, l); }
        PlaceInside(fr, order, before, l);
        DrawLeaves(before, PlaceOf(fr, order, l).value, table, colours[l], at);
      }
    }
  }

  /** The frame's pixels are at their places over what was on the screen, and nothing else has changed. */
  ghost predicate FrameShown(fr: Frame, s: Screen, t: Screen, table: seq<byte>, pixels: seq<byte>)
    requires |table| == 1024
  {
    var order := RowOrder(fr.h, fr.interlaced);
    && |t.out| == |s.out| && |t.history| == |s.history|
    && (forall k: nat, at: nat :: k < |pixels| && PlaceOf(fr, order, k) == Some(at) ==>
          Drawn(s, t, at, table, pixels[k]))
    && forall at: nat :: (forall k: nat :: k < |pixels| ==> PlaceOf(fr, order, k) != Some(at)) ==> Untouched(s, t, at)
  }

  lemma PaintedIsShown(fr: Frame, order: seq<nat>, s: Screen, table: seq<byte>, pixels: seq<byte>)
    requires fr.Fits() && RowsInside(fr, order) && order == RowOrder(fr.h, fr.interlaced)
    requires ScreenFits(fr, s) && |table| == 1024
    ensures FrameShown(fr, s, Painted(fr, order, s, table, pixels), table, pixels)
  {
    var t := Painted(fr, order, s, table, pixels);
    RowOrderDistinct(fr.h, fr.interlaced);
    forall k: nat, at: nat | k < |pixels| && PlaceOf(fr, order, k) == Some(at)
      ensures Drawn(s, t, at, table, pixels[k]) {
      PaintedAt(fr, order, s, table, pixels, k, at);
    }
    forall at: nat | forall k: nat :: k < |pixels| ==> PlaceOf(fr, order, k) != Some(at)
      ensures Untouched(s, t, at) {
      PaintedElsewhere(fr, order, s, table, pixels, at);
    }
  }

  lemma {:induction false} TimesFour(n: nat, d: nat)
    ensures Times(n, 4 * d) == 4 * Times(n, d)
  {
    if n > 0 { TimesFour(n - 1, d); }
  }

  // ---- the cursor ----

  /** The cursor, in byte offsets, is in row `r` of the frame, and the rows still to come are those of
      the order from number `g` on. */
  ghost predicate Walking(startY: nat, lineSize: nat, h: nat, order: seq<nat>, curY: nat, step: nat, parse: nat,
                          r: nat, sp: nat, g: nat) {
    && sp > 0 && curY == startY + Times(r, lineSize) && step == Times(sp, lineSize)
    && (if r < h then g < |order| && RowsLeft(r, sp, parse, h) == order[g..] else g >= |order|)
  }

  lemma InFrame(lineSize: nat, h: nat, r: nat)
    requires lineSize > 0
    ensures Times(r, lineSize) >= Times(h, lineSize) <==> r >= h
  {
    if r >= h { TimesMonotone(h, r, lineSize); } else { TimesMonotone(r, h, lineSize); }
  }

  /** The rows left, without the current one. */
  lemma LeaveRow(row: nat, sp: nat, parse: nat, h: nat, order: seq<nat>, g: nat)
    requires sp > 0 && row < h && g < |order| && RowsLeft(row, sp, parse, h) == order[g..]
    ensures RowsLeft(row + sp, sp, parse, h) == order[g + 1..]
  {
    assert RowsLeft(row, sp, parse, h) == [row] + RowsLeft(row + sp, sp, parse, h);
    assert order[g..][1..] == order[g + 1..];
  }

  /** A pass that is over gives way to the next. */
  lemma LeavePass(row: nat, sp: nat, parse: nat, h: nat)
    requires sp > 0 && row >= h && parse > 0
    ensures RowsLeft(row, sp, parse, h) == RowsLeft(Pow2(parse - 1), Pow2(parse), parse - 1, h)
  {
    assert RowsFrom(row, sp, h) == [];
  }

  /** The first row of the next pass, as byte offsets. */
  lemma PassStart(parse: nat, lineSize: nat)
    requires parse > 0
    ensures Pow2(parse) * lineSize == Times(Pow2(parse), lineSize)
    ensures Pow2(parse) * lineSize / 2 == Times(Pow2(parse - 1), lineSize)
  {
    TimesAdd(Pow2(parse - 1), Pow2(parse - 1), lineSize);
    TimesIs(Pow2(parse), lineSize);
  }

  /** On to the next row that exists: empty passes are skipped. */
  method NextRow(startY: nat, maxY: nat, lineSize: nat, curY0: nat, step0: nat, parse0: nat,
                 ghost h: nat, ghost order: seq<nat>, ghost row0: nat, ghost sp0: nat, ghost g: nat)
    returns (curY: nat, step: nat, parse: nat, ghost row: nat, ghost sp: nat)
    requires lineSize > 0 && maxY == startY + Times(h, lineSize) && row0 < h
    requires Walking(startY, lineSize, h, order, curY0, step0, parse0, row0, sp0, g)
    ensures Walking(startY, lineSize, h, order, curY, step, parse, row, sp, g + 1)
  {
    LeaveRow(row0, sp0, parse0, h, order, g);
    TimesAdd(row0, sp0, lineSize);
    curY, step, parse := curY0 + step0, step0, parse0;
    row, sp := row0 + sp0, sp0;
    InFrame(lineSize, h, row);
    while curY >= maxY && parse > 0
      invariant sp > 0 && curY == startY + Times(row, lineSize) && step == Times(sp, lineSize)
      invariant curY >= maxY <==> row >= h
      invariant RowsLeft(row, sp, parse, h) == order[g + 1..]
      decreases parse
    {
      LeavePass(row, sp, parse, h);
      PassStart(parse, lineSize);
      step := Pow2(parse) * lineSize;
      curY := startY + step / 2;
      parse := parse - 1;
      row, sp := Pow2(parse), Pow2(parse + 1);
      InFrame(lineSize, h, row);
    }
    LastRow(row, sp, parse, h, order, g);
  }

  lemma LastRow(row: nat, sp: nat, parse: nat, h: nat, order: seq<nat>, g: nat)
    requires sp > 0 && g < |order| && RowsLeft(row, sp, parse, h) == order[g + 1..] && (row < h || parse == 0)
    ensures if row < h then g + 1 < |order| else g + 1 >= |order|
  {
    if row < h {
      assert RowsLeft(row, sp, parse, h)[0] == row;
    } else {
      assert RowsLeft(row, sp, parse, h) == [];
    }
  }

  /** A frame begins at the first row of its order. */
  lemma StartWalking(startY: nat, lineSize: nat, h: nat, interlaced: bool, order: seq<nat>, step: nat)
    requires order == RowOrder(h, interlaced) && step == (if interlaced then 8 * lineSize else lineSize)
    ensures Walking(startY, lineSize, h, order, startY, step,
                    if interlaced then 3 else 0, 0, if interlaced then 8 else 1, 0)
  {
    WalkStarts(h, interlaced);
    RowOrderCount(h, interlaced);
    TimesIs(if interlaced then 8 else 1, lineSize);
    assert order[0..] == order;
  }

  /** What the cursor stands for: the frame, the order of its rows, what was on the canvas, the colour
      table, the pixels drawn so far, and the row and row spacing the cursor is at. */
  datatype Walk = Walk(frame: Frame, order: seq<nat>, before: Screen, table: seq<byte>, drawn: seq<byte>, row: nat,
                       spacing: nat)
  {
    ghost predicate Fits() {
      frame.Fits() && RowsInside(frame, order) && ScreenFits(frame, before) && |table| == 1024
    }

    /** What the canvas must look like. */
    ghost function Canvas(): Screen
      requires Fits()
    {
      Painted(frame, order, before, table, drawn)
    }

    /** The same walk, further on. */
    ghost predicate Continues(from: Walk) {
      frame == from.frame && order == from.order && before == from.before && table == from.table
    }

    /** The rows are sent in the order of the frame. */
    ghost predicate InOrder() {
      order == RowOrder(frame.h, frame.interlaced)
    }
  }

  /** The walk of a frame that begins on a screen. */
  ghost function FirstWalk(fr: Frame, now: Screen, table: seq<byte>): Walk {
    Walk(fr, RowOrder(fr.h, fr.interlaced), now, table, [], 0, if fr.interlaced then 8 else 1)
  }

  /** The raster half of the source's decoder state. Positions are byte offsets. */
  class Raster {
    var out: array<byte>
    var history: array<byte>
    var colorTable: seq<byte>
    var parse: nat
    var step: nat
    var startX: nat
    var startY: nat
    var maxX: nat
    var maxY: nat
    var curX: nat
    var curY: nat
    var lineSize: nat

    ghost var walk: Walk

    /** The canvas as it is. */
    ghost function Now(): Screen
      reads this, out, history
    {
      Screen(out[..], history[..])
    }

    /** The numbers describe the frame, and the cursor its next pixel. */
    ghost predicate Valid()
      reads this
    {
      match walk
      case Walk(frame, _, _, table, drawn, _, _) =>
        && walk.Fits() && out != history && colorTable == table
        && lineSize == 4 * frame.canvasW && startX == 4 * frame.x && startY == Times(frame.y, lineSize)
        && maxX == startX + 4 * frame.w && maxY == startY + Times(frame.h, lineSize)
        && (frame.w == 0 ==> curY >= maxY)
        && (frame.w > 0 ==> AtPixel(|drawn|))
    }

    /** The cursor is where the k-th pixel goes. */
    ghost predicate AtPixel(k: nat)
      requires walk.frame.w > 0
      reads this
    {
      && Walking(startY, lineSize, walk.frame.h, walk.order, curY, step, parse, walk.row, walk.spacing,
                 Group(walk.frame.w, k))
      && (walk.row < walk.frame.h ==> curX == startX + 4 * Within(walk.frame.w, k))
    }

    /** Writes a pixel of the canvas. */
    method DrawPixel(idx: nat, v: byte, ghost at: nat)
      requires idx == 4 * at && 4 * |Now().history| == |Now().out| && at < |Now().history| && |colorTable| == 1024
      requires out != history
      modifies out, history
      ensures Now() == Draw(old(Now()), at, colorTable, v)
    {
      ghost var was := Now();
      history[idx / 4] := 1;
      var c := colorTable[4 * v..4 * v + 4];
      if c[3] > 128 {
        out[idx], out[idx + 1], out[idx + 2], out[idx + 3] := c[2], c[1], c[0], c[3];
        WrittenAt(was.out, out[..], idx, [c[2], c[1], c[0], c[3]]);
      }
    }

    /** The cursor's byte offset is that of the next pixel. */
    lemma CursorPlace(k: nat)
      requires Valid() && walk.frame.w > 0 && walk.row < walk.frame.h && k == |walk.drawn|
      ensures PlaceOf(walk.frame, walk.order, k).Some? && curX + curY == 4 * PlaceOf(walk.frame, walk.order, k).value
      ensures Within(walk.frame.w, k) + 1 < walk.frame.w <==> curX + 4 < maxX
    {
      var g := Group(walk.frame.w, k);
      assert RowsLeft(walk.row, walk.spacing, parse, walk.frame.h)[0] == walk.row;
      assert walk.order[g..][0] == walk.order[g];
      TimesAdd(walk.frame.y, walk.row, lineSize);
      TimesFour(walk.frame.y + walk.row, walk.frame.canvasW);
    }

    /** Paints the pixel at the cursor. */
    method PaintNext(v: byte, ghost w: Walk)
      requires Valid() && walk.frame.w > 0 && walk.row < walk.frame.h && Now() == walk.Canvas()
      requires w == walk.(drawn := walk.drawn + [v])
      modifies out, history
      ensures Now() == w.Canvas()
    {
      ghost var k := |walk.drawn|;
      CursorPlace(k);
      PaintedNext(walk.frame, walk.order, walk.before, walk.table, walk.drawn, v);
      DrawPixel(curX + curY, v, PlaceOf(walk.frame, walk.order, k).value);
    }

    /** Beyond the last row there is no place. */
    lemma NoPlace(v: byte, w: Walk)
      requires Valid() && curY >= maxY && w == walk.(drawn := walk.drawn + [v])
      ensures w.Canvas() == walk.Canvas()
      ensures walk.frame.w > 0 ==> AtPixel(|w.drawn|)
    {
      if walk.frame.w > 0 {
        InFrame(lineSize, walk.frame.h, walk.row);
        NextInGroup(walk.frame.w, |walk.drawn|);
      }
      PaintedNext(walk.frame, walk.order, walk.before, walk.table, walk.drawn, v);
    }

    /** The pixel that comes next, and the cursor past it; beyond the last row nothing happens. */
    method Put(v: byte)
      requires Valid() && Now() == walk.Canvas()
      modifies `curX, `curY, `step, `parse, `walk, out, history
      ensures Valid() && walk.Continues(old(walk)) && walk.drawn == old(walk.drawn) + [v]
      ensures Now() == walk.Canvas()
    {
      ghost var w := walk.(drawn := walk.drawn + [v]);
      if curY >= maxY {
        NoPlace(v, w);
        walk := w;
      } else {
        if walk.frame.w > 0 { InFrame(lineSize, walk.frame.h, walk.row); }
        PaintNext(v, w);
        Advance(w);
      }
    }

    /** The cursor moves to the next pixel. */
    method Advance(ghost w: Walk)
      requires Valid() && walk.frame.w > 0 && walk.row < walk.frame.h && |w.drawn| == |walk.drawn| + 1
      requires w == walk.(drawn := w.drawn)
      modifies `curX, `curY, `step, `parse, `walk
      ensures Valid() && walk == w.(row := walk.row, spacing := walk.spacing)
    {
      ghost var row, sp := StepOn(|walk.drawn|);
      walk := w.(row := row, spacing := sp);
    }

    /** A pixel to the right, or to the start of the next row. */
    method StepOn(ghost k: nat) returns (ghost row: nat, ghost sp: nat)
      requires Valid() && walk.frame.w > 0 && walk.row < walk.frame.h && k == |walk.drawn|
      modifies `curX, `curY, `step, `parse
      ensures Walking(startY, lineSize, walk.frame.h, walk.order, curY, step, parse, row, sp,
                      Group(walk.frame.w, k + 1))
      ensures row < walk.frame.h ==> curX == startX + 4 * Within(walk.frame.w, k + 1)
    {
      CursorPlace(k);
      NextInGroup(walk.frame.w, k);
      curX := curX + 4;
      row, sp := walk.row, walk.spacing;
      if curX >= maxX {
        curX := startX;
        curY, step, parse, row, sp :=
          NextRow(startY, maxY, lineSize, curY, step, parse, walk.frame.h, walk.order, row, sp, Group(walk.frame.w, k));
      }
    }

    /** Begins a frame on the canvas as it is. */
    method Start(fr: Frame, table: seq<byte>)
      requires fr.Fits() && |table| == 1024 && out != history && ScreenFits(fr, Now())
      modifies `colorTable, `parse, `step, `startX, `startY, `maxX, `maxY, `curX, `curY, `lineSize, `walk
      ensures Valid() && Now() == walk.Canvas() && walk.InOrder()
      ensures walk == FirstWalk(fr, old(Now()), table)
    {
      Place(fr, table, RowOrder(fr.h, fr.interlaced));
      walk := FirstWalk(fr, Now(), table);
      Started(fr, Now());
    }

    /** The frame's numbers, and the cursor at its first pixel. */
    method Place(fr: Frame, table: seq<byte>, ghost order: seq<nat>)
      requires order == RowOrder(fr.h, fr.interlaced)
      modifies `colorTable, `parse, `step, `startX, `startY, `maxX, `maxY, `curX, `curY, `lineSize
      ensures colorTable == table && lineSize == 4 * fr.canvasW && startX == 4 * fr.x && startY == Times(fr.y, lineSize)
      ensures maxX == startX + 4 * fr.w && maxY == startY + Times(fr.h, lineSize)
      ensures curX == startX && (fr.w == 0 ==> curY >= maxY)
      ensures fr.w > 0 ==>
                Walking(startY, lineSize, fr.h, order, curY, step, parse, 0, if fr.interlaced then 8 else 1, 0)
    {
      colorTable := table;
      startX, maxX := fr.x * 4, fr.x * 4 + fr.w * 4;
      curX := startX;
      lineSize, startY, maxY, curY, step, parse := Measure(fr);
    }

    /** With the frame measured and nothing drawn yet, all is as it should be. */
    lemma Started(fr: Frame, now: Screen)
      requires fr.Fits() && |colorTable| == 1024 && out != history && now == Now() && ScreenFits(fr, now)
      requires walk == FirstWalk(fr, now, colorTable)
      requires lineSize == 4 * fr.canvasW && startX == 4 * fr.x && startY == Times(fr.y, lineSize)
      requires maxX == startX + 4 * fr.w && maxY == startY + Times(fr.h, lineSize)
      requires curX == startX && (fr.w == 0 ==> curY >= maxY)
      requires fr.w > 0 ==> Walking(startY, lineSize, fr.h, walk.order, curY, step, parse, walk.row, walk.spacing, 0)
      ensures Valid() && Now() == walk.Canvas() && walk.InOrder()
    {
      OrderInside(fr);
    }
  }

  /** The vertical measures of a frame, in bytes, and the cursor's first row. */
  method Measure(fr: Frame) returns (lineSize: nat, startY: nat, maxY: nat, curY: nat, step: nat, parse: nat)
    ensures lineSize == 4 * fr.canvasW && startY == Times(fr.y, lineSize) && maxY == startY + Times(fr.h, lineSize)
    ensures fr.w == 0 ==> curY >= maxY
    ensures fr.w > 0 ==>
              Walking(startY, lineSize, fr.h, RowOrder(fr.h, fr.interlaced), curY, step, parse, 0,
                      if fr.interlaced then 8 else 1, 0)
  {
    lineSize := fr.canvasW * 4;
    TimesIs(fr.y, lineSize);
    TimesIs(fr.h, lineSize);
    startY := fr.y * lineSize;
    maxY := startY + fr.h * lineSize;
    curY := if fr.w == 0 then maxY else startY;
    if fr.interlaced {
      step, parse := 8 * lineSize, 3;
    } else {
      step, parse := lineSize, 0;
    }
    StartWalking(startY, lineSize, fr.h, fr.interlaced, RowOrder(fr.h, fr.interlaced), step);
  }
}
