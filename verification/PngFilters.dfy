/** Scanline filters (section 9 of the W3C PNG specification) and the row loop that undoes them. */
module PngFilters {
  import opened Bits

  // ---- the predictors ----

  function Abs(x: int): int {
    if x < 0 then -x else x
  }

  /** The Paeth predictor as the specification defines it: of left, above and upper left the one
      nearest to left + above - upper left, ties in that order. */
  function PaethPredictor(a: int, b: int, c: int): int {
    var p := a + b - c;
    var pa, pb, pc := Abs(p - a), Abs(p - b), Abs(p - c);
    if pa <= pb && pa <= pc then a else if pb <= pc then b else c
  }

  /** The formulation of the implementation. */
  function Paeth(a: int, b: int, c: int): (r: int)
    ensures r == PaethPredictor(a, b, c)
  {
    var thresh := c * 3 - (a + b);
    var lo := if a < b then a else b;
    var hi := if a < b then b else a;
    var t0 := if hi <= thresh then lo else c;
    if thresh <= lo then hi else t0
  }

  const NONE: nat := 0
  const SUB: nat := 1
  const UP: nat := 2
  const AVG: nat := 3
  const PAETH: nat := 4
  /** The synthetic filter for the first row: averaging with nothing above. */
  const AVG_FIRST: nat := 5

  /** What a filter type predicts from the bytes to the left, above, and above left. */
  function Predict(f: nat, a: byte, b: byte, c: byte): int {
    if f == NONE then 0
    else if f == SUB then a
    else if f == UP then b
    else if f == AVG then (a + b as int) / 2
    else if f == PAETH then PaethPredictor(a, b, c)
    else (a as int) / 2
  }

  /** The byte `bpp` places before `k`, or zero before the row. */
  function Left(row: seq<byte>, k: nat, bpp: nat): byte
    requires bpp >= 1 && k <= |row|
  {
    if k >= bpp then row[k - bpp] else 0
  }

  /** Filtering: what an encoder sends for a row. */
  function FilterRow(f: nat, row: seq<byte>, prior: seq<byte>, bpp: nat): (r: seq<byte>)
    requires |prior| == |row| && bpp >= 1
    ensures |r| == |row|
  {
    seq(|row|,
        k requires 0 <= k < |row| => (row[k] - Predict(f, Left(row, k, bpp), prior[k], Left(prior, k, bpp))) % 256)
  }

  /** Reconstruction: what a decoder makes of it. */
  function Recon(f: nat, raw: seq<byte>, prior: seq<byte>, bpp: nat): (r: seq<byte>)
    requires |prior| == |raw| && bpp >= 1
    ensures |r| == |raw|
  {
    if raw == [] then []
    else
      var k := |raw| - 1;
      var r := Recon(f, raw[..k], prior[..k], bpp);
      r + [(raw[k] + Predict(f, Left(r, k, bpp), prior[k], Left(prior, k, bpp))) % 256]
  }

  /** Reconstruction undoes filtering, whatever the filter type, the prior row and the pixel size. */
  lemma {:induction false} ReconUndoesFilter(f: nat, row: seq<byte>, prior: seq<byte>, bpp: nat)
    requires |prior| == |row| && bpp >= 1
    ensures Recon(f, FilterRow(f, row, prior, bpp), prior, bpp) == row
    decreases |row|
  {
    if row != [] {
      var k := |row| - 1;
      var raw := FilterRow(f, row, prior, bpp);
      ReconUndoesFilter(f, row[..k], prior[..k], bpp);
      assert raw[..k] == FilterRow(f, row[..k], prior[..k], bpp);
      var p := Predict(f, Left(row, k, bpp), prior[k], Left(prior, k, bpp));
      assert ((row[k] - p) % 256 + p) % 256 == row[k];
      assert row == row[..k] + [row[k]];
    }
  }

  /** Filtering looks back only: a prefix of a filtered row is the filtered prefix. */
  lemma FilterPrefix(f: nat, row: seq<byte>, prior: seq<byte>, bpp: nat, k: nat)
    requires |prior| == |row| && bpp >= 1 && k <= |row|
    ensures FilterRow(f, row, prior, bpp)[..k] == FilterRow(f, row[..k], prior[..k], bpp)
  {}

  /** And filtering undoes reconstruction: the filtered row is determined by the row it stands for. */
  lemma {:induction false} FilterUndoesRecon(f: nat, raw: seq<byte>, prior: seq<byte>, bpp: nat)
    requires |prior| == |raw| && bpp >= 1
    ensures FilterRow(f, Recon(f, raw, prior, bpp), prior, bpp) == raw
    decreases |raw|
  {
    if raw != [] {
      var k := |raw| - 1;
      var row, r := Recon(f, raw, prior, bpp), Recon(f, raw[..k], prior[..k], bpp);
      FilterUndoesRecon(f, raw[..k], prior[..k], bpp);
      FilterPrefix(f, row, prior, bpp, k);
      LastByte(f, raw[k], r, row[k], prior, bpp);
      assert row[..k] == r;
      assert raw == raw[..k] + [raw[k]];
    }
  }

  lemma LastByte(f: nat, raw: byte, r: seq<byte>, v: byte, prior: seq<byte>, bpp: nat)
    requires bpp >= 1 && |prior| == |r| + 1
    requires v == (raw + Predict(f, Left(r, |r|, bpp), prior[|r|], Left(prior, |r|, bpp))) % 256
    ensures FilterRow(f, r + [v], prior, bpp)[|r|] == raw
  {
    assert Left(r + [v], |r|, bpp) == Left(r, |r|, bpp);
  }

  // ---- the first row ----

  const FIRST_ROW_FILTER: seq<nat> := [NONE, SUB, NONE, AVG_FIRST, SUB]

  function Zeros(n: nat): (z: seq<byte>)
    ensures |z| == n && forall i :: 0 <= i < n ==> z[i] == 0
  {
    seq(n, _ => 0)
  }

  /** The first row's filters, which never look above, act like the real ones below a row of zeros. */
  lemma {:induction false} FirstRow(f: nat, raw: seq<byte>, any: seq<byte>, bpp: nat)
    requires f <= 4 && bpp >= 1 && |any| == |raw|
    ensures Recon(f, raw, Zeros(|raw|), bpp) == Recon(FIRST_ROW_FILTER[f], raw, any, bpp)
    decreases |raw|
  {
    if raw != [] {
      var k := |raw| - 1;
      FirstRow(f, raw[..k], any[..k], bpp);
      assert Zeros(|raw|)[..k] == Zeros(k);
    }
  }

  // ---- one row, in a buffer that holds the current and the prior row ----

  /** The first `k` bytes of the current row are reconstructed. */
  ghost predicate Reconstructed(buf: array<byte>, cur: nat, f: nat, raw: seq<byte>, prior: seq<byte>, bpp: nat, k: nat)
    requires bpp >= 1 && |prior| == |raw| && k <= |raw| && cur + |raw| <= buf.Length
    reads buf
  {
    buf[cur..cur + k] == Recon(f, raw[..k], prior[..k], bpp)
  }

  lemma ReconstructNext(buf: array<byte>, cur: nat, f: nat, raw: seq<byte>, prior: seq<byte>, bpp: nat, k: nat)
    requires bpp >= 1 && |prior| == |raw| && k < |raw| && cur + |raw| <= buf.Length
    requires Reconstructed(buf, cur, f, raw, prior, bpp, k)
    requires buf[cur + k]
         == (raw[k] + Predict(f, if k >= bpp then buf[cur + k - bpp] else 0, prior[k], Left(prior, k, bpp))) % 256
    ensures Reconstructed(buf, cur, f, raw, prior, bpp, k + 1)
  {
    assert raw[..k + 1][..k] == raw[..k] && prior[..k + 1][..k] == prior[..k];
    assert buf[cur..cur + k + 1] == buf[cur..cur + k] + [buf[cur + k]];
    if k >= bpp { assert buf[cur..cur + k][k - bpp] == buf[cur + k - bpp]; }
  }

  /** The two halves of the workspace: `cur` and `prior` in some order. */
  predicate Halves(length: nat, n: nat, cur: nat, prior: nat) {
    length == 2 * n && ((cur == 0 && prior == n) || (cur == n && prior == 0))
  }

  /** The other half of the workspace holds the row above. */
  ghost predicate IsAbove(buf: array<byte>, prior: nat, above: seq<byte>, n: nat)
    requires prior + n <= buf.Length
    reads buf
  {
    |above| == n && forall k :: 0 <= k < n ==> above[k] == buf[prior + k]
  }

  /** At the left edge the average is half of what is above, and the Paeth predictor is what is above. */
  lemma PredictAtEdge(b: byte)
    ensures Predict(AVG, 0, b, 0) == b as int / 2 && Predict(PAETH, 0, b, 0) == b
  {}

  lemma PredictPaeth(a: byte, b: byte, c: byte)
    ensures Predict(PAETH, a, b, c) == Paeth(a, b, c)
  {}

  /** Stores byte `k` of the current row. */
  method Store(buf: array<byte>, cur: nat, prior: nat, ghost f: nat, raw: seq<byte>, ghost above: seq<byte>, fb: nat,
               k: nat, v: int)
    requires Halves(buf.Length, |raw|, cur, prior) && fb >= 1 && IsAbove(buf, prior, above, |raw|) && k < |raw|
    requires Reconstructed(buf, cur, f, raw, above, fb, k)
    requires v == raw[k] + Predict(f, if k >= fb then buf[cur + k - fb] else 0, above[k], Left(above, k, fb))
    modifies buf
    ensures Reconstructed(buf, cur, f, raw, above, fb, k + 1)
    ensures IsAbove(buf, prior, above, |raw|)
  {
    buf[cur + k] := v % 256;
    ReconstructNext(buf, cur, f, raw, above, fb, k);
  }

  method UnfilterNone(buf: array<byte>, cur: nat, prior: nat, raw: seq<byte>, ghost above: seq<byte>, fb: nat)
    requires Halves(buf.Length, |raw|, cur, prior) && 1 <= fb <= |raw| && IsAbove(buf, prior, above, |raw|)
    modifies buf
    ensures Reconstructed(buf, cur, NONE, raw, above, fb, |raw|)
    ensures IsAbove(buf, prior, above, |raw|)
  {
    var k := 0;
    while k < |raw|
      invariant k <= |raw| && Reconstructed(buf, cur, NONE, raw, above, fb, k)
      invariant IsAbove(buf, prior, above, |raw|)
    {
      Store(buf, cur, prior, NONE, raw, above, fb, k, raw[k]);
      k := k + 1;
    }
  }

  /** The first pixel of each of the filters that look left, and the rest of the row. */
  method StartSub(buf: array<byte>, cur: nat, prior: nat, raw: seq<byte>, ghost above: seq<byte>, fb: nat)
    requires Halves(buf.Length, |raw|, cur, prior) && 1 <= fb <= |raw| && IsAbove(buf, prior, above, |raw|)
    modifies buf
    ensures Reconstructed(buf, cur, SUB, raw, above, fb, fb)
    ensures IsAbove(buf, prior, above, |raw|)
  {
    var k := 0;
    while k < fb
      invariant k <= fb && Reconstructed(buf, cur, SUB, raw, above, fb, k)
      invariant IsAbove(buf, prior, above, |raw|)
    {
      Store(buf, cur, prior, SUB, raw, above, fb, k, raw[k]);
      k := k + 1;
    }
  }

  method RestSub(buf: array<byte>, cur: nat, prior: nat, raw: seq<byte>, ghost above: seq<byte>, fb: nat)
    requires Halves(buf.Length, |raw|, cur, prior) && 1 <= fb <= |raw| && IsAbove(buf, prior, above, |raw|)
    requires Reconstructed(buf, cur, SUB, raw, above, fb, fb)
    modifies buf
    ensures Reconstructed(buf, cur, SUB, raw, above, fb, |raw|)
    ensures IsAbove(buf, prior, above, |raw|)
  {
    var k := fb;
    while k < |raw|
      invariant fb <= k <= |raw| && Reconstructed(buf, cur, SUB, raw, above, fb, k)
      invariant IsAbove(buf, prior, above, |raw|)
    {
      Store(buf, cur, prior, SUB, raw, above, fb, k, raw[k] as int + buf[cur + k - fb] as int);
      k := k + 1;
    }
  }

  method UnfilterUp(buf: array<byte>, cur: nat, prior: nat, raw: seq<byte>, ghost above: seq<byte>, fb: nat)
    requires Halves(buf.Length, |raw|, cur, prior) && 1 <= fb <= |raw| && IsAbove(buf, prior, above, |raw|)
    modifies buf
    ensures Reconstructed(buf, cur, UP, raw, above, fb, |raw|)
    ensures IsAbove(buf, prior, above, |raw|)
  {
    var k := 0;
    while k < |raw|
      invariant k <= |raw| && Reconstructed(buf, cur, UP, raw, above, fb, k) && IsAbove(buf, prior, above, |raw|)
    {
      Store(buf, cur, prior, UP, raw, above, fb, k, raw[k] as int + buf[prior + k] as int);
      k := k + 1;
    }
  }

  method StartAvg(buf: array<byte>, cur: nat, prior: nat, raw: seq<byte>, ghost above: seq<byte>, fb: nat)
    requires Halves(buf.Length, |raw|, cur, prior) && 1 <= fb <= |raw| && IsAbove(buf, prior, above, |raw|)
    modifies buf
    ensures Reconstructed(buf, cur, AVG, raw, above, fb, fb)
    ensures IsAbove(buf, prior, above, |raw|)
  {
    var k := 0;
    while k < fb
      invariant k <= fb && Reconstructed(buf, cur, AVG, raw, above, fb, k) && IsAbove(buf, prior, above, |raw|)
    {
      PredictAtEdge(above[k]);
      Store(buf, cur, prior, AVG, raw, above, fb, k, raw[k] as int + buf[prior + k] as int / 2);
      k := k + 1;
    }
  }

  method RestAvg(buf: array<byte>, cur: nat, prior: nat, raw: seq<byte>, ghost above: seq<byte>, fb: nat)
    requires Halves(buf.Length, |raw|, cur, prior) && 1 <= fb <= |raw| && IsAbove(buf, prior, above, |raw|)
    requires Reconstructed(buf, cur, AVG, raw, above, fb, fb)
    modifies buf
    ensures Reconstructed(buf, cur, AVG, raw, above, fb, |raw|)
    ensures IsAbove(buf, prior, above, |raw|)
  {
    var k := fb;
    while k < |raw|
      invariant fb <= k <= |raw| && Reconstructed(buf, cur, AVG, raw, above, fb, k) && IsAbove(buf, prior, above, |raw|)
    {
      var sum := buf[prior + k] as int + buf[cur + k - fb] as int;
      assert sum == buf[cur + k - fb] as int + above[k] as int;
      Store(buf, cur, prior, AVG, raw, above, fb, k, raw[k] as int + sum / 2);
      k := k + 1;
    }
  }

  method StartPaeth(buf: array<byte>, cur: nat, prior: nat, raw: seq<byte>, ghost above: seq<byte>, fb: nat)
    requires Halves(buf.Length, |raw|, cur, prior) && 1 <= fb <= |raw| && IsAbove(buf, prior, above, |raw|)
    modifies buf
    ensures Reconstructed(buf, cur, PAETH, raw, above, fb, fb)
    ensures IsAbove(buf, prior, above, |raw|)
  {
    var k := 0;
    while k < fb
      invariant k <= fb && Reconstructed(buf, cur, PAETH, raw, above, fb, k) && IsAbove(buf, prior, above, |raw|)
    {
      PredictAtEdge(above[k]);
      Store(buf, cur, prior, PAETH, raw, above, fb, k, raw[k] as int + buf[prior + k] as int);
      k := k + 1;
    }
  }

  method PaethByte(buf: array<byte>, cur: nat, prior: nat, raw: seq<byte>, ghost above: seq<byte>, fb: nat, k: nat)
    requires Halves(buf.Length, |raw|, cur, prior) && 1 <= fb <= k < |raw| && IsAbove(buf, prior, above, |raw|)
    requires Reconstructed(buf, cur, PAETH, raw, above, fb, k)
    modifies buf
    ensures Reconstructed(buf, cur, PAETH, raw, above, fb, k + 1) && IsAbove(buf, prior, above, |raw|)
  {
    var a, b, c := buf[cur + k - fb], buf[prior + k], buf[prior + k - fb];
    PredictPaeth(a, b, c);
    Store(buf, cur, prior, PAETH, raw, above, fb, k, raw[k] as int + Paeth(a, b, c));
  }

  method RestPaeth(buf: array<byte>, cur: nat, prior: nat, raw: seq<byte>, ghost above: seq<byte>, fb: nat)
    requires Halves(buf.Length, |raw|, cur, prior) && 1 <= fb <= |raw| && IsAbove(buf, prior, above, |raw|)
    requires Reconstructed(buf, cur, PAETH, raw, above, fb, fb)
    modifies buf
    ensures Reconstructed(buf, cur, PAETH, raw, above, fb, |raw|)
    ensures IsAbove(buf, prior, above, |raw|)
  {
    var k := fb;
    while k < |raw|
      invariant fb <= k <= |raw| && Reconstructed(buf, cur, PAETH, raw, above, fb, k)
      invariant IsAbove(buf, prior, above, |raw|)
    {
      PaethByte(buf, cur, prior, raw, above, fb, k);
      k := k + 1;
    }
  }

  method StartAvgFirst(buf: array<byte>, cur: nat, prior: nat, raw: seq<byte>, ghost above: seq<byte>, fb: nat)
    requires Halves(buf.Length, |raw|, cur, prior) && 1 <= fb <= |raw| && IsAbove(buf, prior, above, |raw|)
    modifies buf
    ensures Reconstructed(buf, cur, AVG_FIRST, raw, above, fb, fb)
    ensures IsAbove(buf, prior, above, |raw|)
  {
    var k := 0;
    while k < fb
      invariant k <= fb && Reconstructed(buf, cur, AVG_FIRST, raw, above, fb, k)
      invariant IsAbove(buf, prior, above, |raw|)
    {
      Store(buf, cur, prior, AVG_FIRST, raw, above, fb, k, raw[k]);
      k := k + 1;
    }
  }

  method RestAvgFirst(buf: array<byte>, cur: nat, prior: nat, raw: seq<byte>, ghost above: seq<byte>, fb: nat)
    requires Halves(buf.Length, |raw|, cur, prior) && 1 <= fb <= |raw| && IsAbove(buf, prior, above, |raw|)
    requires Reconstructed(buf, cur, AVG_FIRST, raw, above, fb, fb)
    modifies buf
    ensures Reconstructed(buf, cur, AVG_FIRST, raw, above, fb, |raw|)
    ensures IsAbove(buf, prior, above, |raw|)
  {
    var k := fb;
    while k < |raw|
      invariant fb <= k <= |raw| && Reconstructed(buf, cur, AVG_FIRST, raw, above, fb, k)
      invariant IsAbove(buf, prior, above, |raw|)
    {
      Store(buf, cur, prior, AVG_FIRST, raw, above, fb, k, raw[k] as int + buf[cur + k - fb] as int / 2);
      k := k + 1;
    }
  }

  /** The filters, and the one for a first row. */
  method ApplyFilter(buf: array<byte>, cur: nat, prior: nat, raw: seq<byte>, ghost above: seq<byte>, fb: nat, f: nat)
    requires Halves(buf.Length, |raw|, cur, prior) && 1 <= fb <= |raw| && IsAbove(buf, prior, above, |raw|)
    requires f <= AVG_FIRST
    modifies buf
    ensures Reconstructed(buf, cur, f, raw, above, fb, |raw|) && IsAbove(buf, prior, above, |raw|)
  {
    if f == NONE {
      UnfilterNone(buf, cur, prior, raw, above, fb);
    } else if f == SUB {
      StartSub(buf, cur, prior, raw, above, fb);
      RestSub(buf, cur, prior, raw, above, fb);
    } else if f == UP {
      UnfilterUp(buf, cur, prior, raw, above, fb);
    } else if f == AVG {
      StartAvg(buf, cur, prior, raw, above, fb);
      RestAvg(buf, cur, prior, raw, above, fb);
    } else if f == PAETH {
      StartPaeth(buf, cur, prior, raw, above, fb);
      RestPaeth(buf, cur, prior, raw, above, fb);
    } else {
      StartAvgFirst(buf, cur, prior, raw, above, fb);
      RestAvgFirst(buf, cur, prior, raw, above, fb);
    }
  }

  /** One row of filter type `filter` at most 4; in the first row nothing above is looked at, and the
      result is that of a row of zeros above. The other half stays as it is. */
  method UnfilterRow(buf: array<byte>, cur: nat, prior: nat, raw: seq<byte>, fb: nat, filter: nat, first: bool)
    requires Halves(buf.Length, |raw|, cur, prior) && 1 <= fb <= |raw| && filter <= 4
    modifies buf
    ensures buf[cur..cur + |raw|]
         == Recon(filter, raw, if first then Zeros(|raw|) else old(buf[prior..prior + |raw|]), fb)
    ensures buf[prior..prior + |raw|] == old(buf[prior..prior + |raw|])
  {
    ghost var above := buf[prior..prior + |raw|];
    var f := if first then FIRST_ROW_FILTER[filter] else filter;
    ApplyFilter(buf, cur, prior, raw, above, fb, f);
    assert raw[..|raw|] == raw && above[..|raw|] == above;
    if first { FirstRow(filter, raw, above, fb); }
  }
}
