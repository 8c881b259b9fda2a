/** Writing GIF raster data (Appendix F of GIF89a), and the round trip: what any encoder writes for any
    pixels is decoded and drawn as these pixels. */
module GifEncode {
  import opened Bits
  import opened BitStream
  import opened GifLzw
  import opened GifRaster
  import opened GifDecoder

  // ---- sub-blocks ----

  /** A sub-block holds from 1 to 255 bytes. */
  predicate AreSubBlocks(chunks: seq<seq<byte>>) {
    forall i :: 0 <= i < |chunks| ==> 1 <= |chunks[i]| <= 255
  }

  /** Each sub-block behind its length, and the empty one that ends them. */
  function SubBlocks(chunks: seq<seq<byte>>): (s: seq<byte>)
    requires AreSubBlocks(chunks)
    ensures s != []
  {
    if chunks == [] then [0] else [|chunks[0]|] + chunks[0] + SubBlocks(chunks[1..])
  }

  /** The bytes `s` stand in `data` from `pos` on. */
  predicate Stands(data: seq<byte>, pos: nat, s: seq<byte>) {
    pos + |s| <= |data| && data[pos..pos + |s|] == s
  }

  lemma StandParts(data: seq<byte>, pos: nat, a: seq<byte>, b: seq<byte>)
    requires Stands(data, pos, a + b)
    ensures Stands(data, pos, a) && Stands(data, pos + |a|, b)
  {
    assert (a + b)[..|a|] == a && (a + b)[|a|..] == b;
    assert data[pos..pos + |a + b|][..|a|] == data[pos..pos + |a|];
    assert data[pos..pos + |a + b|][|a|..] == data[pos + |a|..pos + |a| + |b|];
  }

  lemma StandingTaken(data: seq<byte>, pos: nat, s: seq<byte>)
    requires Stands(data, pos, s)
    ensures Taken(data, pos, |s|) == s
  {
    forall i | 0 <= i < |s|
      ensures Taken(data, pos, |s|)[i] == s[i] { assert data[pos..pos + |s|][i] == data[pos + i]; }
  }

  /** The first sub-block is read for what it is, and then the others. */
  lemma FirstSubBlock(data: seq<byte>, pos: nat, chunk: seq<byte>, rest: seq<byte>, s: seq<byte>)
    requires 1 <= |chunk| <= 255 && s == [|chunk|] + chunk + rest && Stands(data, pos, s)
    ensures Stands(data, pos + 1 + |chunk|, rest)
    ensures Payload(data, pos) == chunk + Payload(data, pos + 1 + |chunk|)
    ensures AfterBlocks(data, pos) == AfterBlocks(data, pos + 1 + |chunk|)
  {
    StandParts(data, pos, [|chunk|] + chunk, rest);
    StandParts(data, pos, [|chunk|], chunk);
    StandingTaken(data, pos + 1, chunk);
    assert data[pos..pos + 1][0] == data[pos];
  }

  lemma LastSubBlock(data: seq<byte>, pos: nat)
    requires Stands(data, pos, [0])
    ensures Payload(data, pos) == [] && AfterBlocks(data, pos) == pos + 1
  {
    assert data[pos..pos + 1][0] == data[pos];
  }

  /** However a payload was cut into sub-blocks, it is read back, up to the end of the empty one. */
  lemma {:induction false} SubBlocksRead(data: seq<byte>, pos: nat, chunks: seq<seq<byte>>, s: seq<byte>)
    requires AreSubBlocks(chunks) && s == SubBlocks(chunks) && Stands(data, pos, s)
    ensures Payload(data, pos) == Joined(chunks) && AfterBlocks(data, pos) == pos + |s|
    decreases |chunks|, 1
  {
    if chunks == [] {
      LastSubBlock(data, pos);
    } else {
      SubBlocksReadOn(data, pos, chunks, s, chunks[0], chunks[1..], SubBlocks(chunks[1..]));
    }
  }

  lemma {:induction false} SubBlocksReadOn(data: seq<byte>, pos: nat, chunks: seq<seq<byte>>, s: seq<byte>,
                                           first: seq<byte>, more: seq<seq<byte>>, rest: seq<byte>)
    requires 1 <= |first| <= 255 && s == [|first|] + first + rest && AreSubBlocks(more) && rest == SubBlocks(more)
    requires Stands(data, pos, s) && |more| < |chunks|
    ensures Payload(data, pos) == first + Joined(more) && AfterBlocks(data, pos) == pos + |s|
    decreases |chunks|, 0
  {
    FirstSubBlock(data, pos, first, rest, s);
    SubBlocksRead(data, pos + 1 + |first|, more, rest);
  }

  // ---- raster data ----

  /** What an encoder decides: the root size, the segments with their dictionary words, how the packed
      codes are cut into sub-blocks, and what follows the end code in the last of them. */
  datatype Encoding = Encoding(rootBits: nat, segments: seq<Segment>, chunks: seq<seq<byte>>, trailer: seq<byte>)
  {
    function Codes(): seq<nat> {
      ImageCodes(Pow2(rootBits), segments)
    }

    /** All root sizes; segments that the table takes; sub-blocks that hold the packed codes. */
    predicate WellFormed() {
      && rootBits <= 12 && ImageAcceptable(rootBits, 0, segments)
      && AreSubBlocks(chunks) && Joined(chunks) == Pack(CodeBits(Initial(rootBits), Codes())) + trailer
    }

    function Bytes(): (s: seq<byte>)
      requires WellFormed()
    {
      [rootBits] + SubBlocks(chunks)
    }
  }

  lemma CodesDecode(e: Encoding, st: Lzw, payload: seq<byte>)
    requires e.WellFormed() && st == Initial(e.rootBits) && payload == Joined(e.chunks)
    ensures st.Valid() && Decode(payload, 0, st) == Decoded(ImagePixels(e.segments), Finished)
  {
    InitialWidth(e.rootBits, false);
    ImageSent(st, e.segments);
    PackedDecodes(st, e.Codes(), ImagePixels(e.segments), Finished, e.trailer, payload);
  }

  /** The round trip: what was written at `pos` decodes to the pixels that were encoded, and the data
      goes on right behind it. */
  lemma RasterUndoesEncoding(e: Encoding, data: seq<byte>, pos: nat)
    requires e.WellFormed() && Stands(data, pos, e.Bytes())
    ensures DecodedRaster(data, pos) == Decoded(ImagePixels(e.segments), Finished)
    ensures AfterBlocks(data, AfterByte(data, pos)) == pos + |e.Bytes()|
  {
    StandParts(data, pos, [e.rootBits], SubBlocks(e.chunks));
    assert data[pos..pos + 1][0] == data[pos];
    SubBlocksRead(data, pos + 1, e.chunks, SubBlocks(e.chunks));
    CodesDecode(e, Initial(e.rootBits), Joined(e.chunks));
  }

  /** And the decoder draws them: from the encoder's decisions to the canvas. */
  method DrawEncoded(ghost e: Encoding, reader: BlockReader, raster: Raster, codes: array<LzwEntry>)
    returns (outcome: Outcome)
    requires codes.Length == MAX_CODES && reader.pos <= |reader.data|
    requires raster.Valid() && raster.Now() == raster.walk.Canvas()
    requires e.WellFormed() && Stands(reader.data, reader.pos, e.Bytes())
    modifies reader, codes, raster`curX, raster`curY, raster`step, raster`parse, raster`walk, raster.out, raster.history
    ensures outcome == Finished && reader.pos == old(reader.pos) + |e.Bytes()|
    ensures Showing(raster, old(raster.walk), ImagePixels(e.segments))
  {
    RasterUndoesEncoding(e, reader.data, reader.pos);
    outcome := ProcessGifRaster(reader, raster, codes);
  }

  /** A frame from its first pixel on: in the end every pixel is at its place on the canvas, opaque ones in their
      colour, and the rest of the canvas is as before. */
  method DrawFrame(ghost e: Encoding, reader: BlockReader, raster: Raster, codes: array<LzwEntry>, fr: Frame,
                   table: seq<byte>)
    returns (outcome: Outcome)
    requires codes.Length == MAX_CODES && reader.pos <= |reader.data|
    requires fr.Fits() && |table| == 1024 && raster.out != raster.history && ScreenFits(fr, raster.Now())
    requires e.WellFormed() && Stands(reader.data, reader.pos, e.Bytes())
    modifies reader, codes, raster, raster.out, raster.history
    ensures outcome == Finished && reader.pos == old(reader.pos) + |e.Bytes()|
    ensures FrameShown(fr, old(raster.Now()), raster.Now(), table, ImagePixels(e.segments))
  {
    ghost var before, pixels := raster.Now(), ImagePixels(e.segments);
    raster.Start(fr, table);
    outcome := DrawEncoded(e, reader, raster, codes);
    assert raster.walk.drawn == [] + pixels == pixels;
    OrderInside(fr);
    PaintedIsShown(fr, RowOrder(fr.h, fr.interlaced), before, table, pixels);
  }

  // ---- every image can be written ----

  /** Every pixel a root in a segment of its own, but for the last two, which share one. */
  function SinglePixels(pixels: seq<byte>): (segments: seq<Segment>)
    ensures segments == [] <==> pixels == []
  {
    if pixels == [] then []
    else if |pixels| <= 2 then [RootsOf(pixels)]
    else [RootsOf(pixels[..1])] + SinglePixels(pixels[1..])
  }

  function RootsOf(pixels: seq<byte>): (s: Segment)
    ensures |s.codes| == |s.words| == |pixels|
    ensures forall k :: 0 <= k < |pixels| ==> s.codes[k] == pixels[k] && s.words[k] == [pixels[k]]
  {
    Segment(seq(|pixels|, k requires 0 <= k < |pixels| => pixels[k]),
            seq(|pixels|, k requires 0 <= k < |pixels| => [pixels[k]]))
  }

  lemma RootsAccepted(rootBits: nat, pixels: seq<byte>)
    requires rootBits <= 12 && |pixels| <= 2 && forall k :: 0 <= k < |pixels| ==> pixels[k] < Pow2(rootBits)
    ensures RootsOf(pixels).Acceptable(rootBits)
  {
    var s := RootsOf(pixels);
    Pow2Value(rootBits);
    forall k | 0 <= k < |pixels|
      ensures ParsedAt(Pow2(rootBits), s.codes, s.words, k) && s.codes[k] < Pow2(WidthAfter(rootBits, k)) {
      RootsFit(rootBits, k);
      RootParsed(Pow2(rootBits), s, pixels, k);
    }
  }

  lemma RootParsed(clear: nat, s: Segment, pixels: seq<byte>, k: nat)
    requires s == RootsOf(pixels) && k < |pixels| && pixels[k] < clear
    ensures ParsedAt(clear, s.codes, s.words, k)
  {}

  lemma {:induction false} RootsJoined(pixels: seq<byte>, words: seq<seq<byte>>)
    requires |words| == |pixels| && forall k :: 0 <= k < |pixels| ==> words[k] == [pixels[k]]
    ensures Joined(words) == pixels
    decreases |pixels|
  {
    if pixels != [] {
      RootsJoined(pixels[1..], words[1..]);
      assert pixels == [pixels[0]] + pixels[1..];
    }
  }

  lemma {:induction false} SingleSegments(rootBits: nat, pixels: seq<byte>)
    requires rootBits <= 12 && forall i :: 0 <= i < |pixels| ==> pixels[i] < Pow2(rootBits)
    ensures forall i :: 0 <= i < |SinglePixels(pixels)| ==> SinglePixels(pixels)[i].Acceptable(rootBits)
    ensures pixels != [] ==> var s := SinglePixels(pixels); |s[|s| - 1].codes| == if |pixels| == 1 then 1 else 2
    decreases |pixels|
  {
    if pixels != [] { RootsAccepted(rootBits, if |pixels| <= 2 then pixels else pixels[..1]); }
    if |pixels| > 2 { SingleSegments(rootBits, pixels[1..]); }
  }

  lemma {:induction false} SinglePixelsBack(pixels: seq<byte>)
    ensures ImagePixels(SinglePixels(pixels)) == pixels
    decreases |pixels|
  {
    if pixels != [] {
      var first := if |pixels| <= 2 then pixels else pixels[..1];
      var s := SinglePixels(pixels);
      RootsJoined(first, s[0].words);
      if |pixels| > 2 { SinglePixelsBack(pixels[1..]); }
      assert s[1..] == if |pixels| <= 2 then [] else SinglePixels(pixels[1..]);
      assert pixels == first + pixels[|first|..];
    }
  }

  /** Any pixels that are roots can be encoded; with roots of no bits, from two pixels on. */
  lemma EveryImageHasSegments(rootBits: nat, pixels: seq<byte>)
    requires rootBits <= 12 && forall i :: 0 <= i < |pixels| ==> pixels[i] < Pow2(rootBits)
    ensures ImageAcceptable(rootBits, 0, SinglePixels(pixels)) <==> rootBits >= 1 || |pixels| >= 2
    ensures ImagePixels(SinglePixels(pixels)) == pixels
  {
    SingleSegments(rootBits, pixels);
    SinglePixelsBack(pixels);
  }
}
