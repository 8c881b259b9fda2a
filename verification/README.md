# Verification of the decoders, the queues, the pool, the packet framing and the parallel filter

A model in Dafny 4.11 of the integer code at the centre of this repository, with proofs. `dafny verify dfyconfig.toml`
checks all of it. No code of the repository is part of it, and nothing here runs it.

What is modelled, each part in modules of its own:

- **DEFLATE** (`BitReverse`, `Canonical`, `ZHuffman`, `ZInputs`, `Lz77`, `DeflateFormat`, `DeflateBlocks`, `ZBufs`,
  `DeflateEncode`, `DeflateRuns`, `DeflateSamples`, `DeflateDynamic`): the decompressor of `stb_image.h` and
  RFC 1951. Bits, codes, tokens, blocks and streams are described as predicates on the zero-padded bit string of the
  input; the decoder, in classes with the fields of the original, is proved sound (what it returns is the expansion of
  a stream that stands there) and complete (every acceptable stream is decompressed), such streams are proved unique,
  and an encoder for all three kinds of block closes the round trip.
- **PNG** (`Sizes`, `PngFilters`, `PngImage`, `PngRows`, `PngRaw`, `Adam7`, `PngEncode`, `PngPlain`): size checks,
  scanline filters, the row loop with its two alternating buffers, sample unpacking, the added alpha channel and
  Adam7, and an encoder for all of it.
- **GIF** (`GifRaster`, `GifLzw`, `GifDecoder`, `GifEncode`, `GifSample`): the interlaced cursor, the linked LZW
  dictionary, sub-blocks and the code buffer, and an encoder with any parse into dictionary words.
- **JPEG entropy decoding** (`JpegHuffman`, `JpegDecode`, `JpegFastAc`, `JpegPlain`): the Huffman tables, the
  bit buffer over stuffed bytes, symbols and signed values, and the table that decodes a coefficient in one step.
- **Queues** (`RingQueue`, `SpinQueue`): the ring behind a mutex as a class; the ring behind a spin lock as a state
  machine over the interleaved steps of any number of threads.
- **Resource pool** (`ResourcePool`): slots, generations and handles, per call and over whole runs.
- **CRC-32 and framing** (`CrcTables`, `Crc32`, `CrcPlain`, `Framing`): the table loop against the bit-by-bit
  register, error detection, and packets over a byte stream that may be split anywhere.
- **Parallel compaction and factorials** (`Compaction`, `Factorial`): the filter whose tasks reserve their output with
  an atomic addition, as a state machine over all interleavings, and factorials in decimal digits.
- Formats in plain numbers (`DeflateRuns`, `DeflateSamples`, `DeflateDynamic`, `PngPlain`, `GifSample`, `JpegPlain`,
  `CrcPlain`): decoder and encoder, or method and specification, share definitions such as how long a run is or what a
  filter predicts. These modules say what the shared definitions mean without them, in the numbers of the standards,
  and decode small inputs byte for byte.
- `Bits`, `BitStream` and `Buffers` hold what the parts share: powers of two, bit operations on naturals, windows of
  bits and writes into buffers.

## How to read the model

- An operation that changes state is a method proved against a function or predicate on values; the lemmas are about
  those. Parameters that only the proofs need are ghost. Many methods carry a `want`: what an encoder meant; the
  contract says what follows when it stands in the input.
- Machine words are naturals with their widths written out (`uint32`, `byte`, `% 0x1_0000_0000`, `U16`). Shifts and
  masks are defined on naturals in `Bits` and proved to be what they are as numbers.
- Guards of the original that cannot fire are kept as branches that end in `assert false`, so that it is proved that
  nothing reaches them: the corruption guard in `stbi__fill_bits`, the index and size checks of the slow path,
  `n != ntot` after the code lengths, the second workspace check before the row loop.
- The `stbi__zbuf` structure is two classes, `ZInput` for the reading half and `ZBuf` for the writing half with the
  tables; `stbi__gif` is `Raster` for the cursor and canvas, the code table, and `BlockReader` for the input.
- The length `len ^ 0xffff` of a stored block is written `0xFFFF - len`, the same number.
- The three loops that unpack samples of 1, 2 and 4 bits differ in constants only and are one method with these as
  parameters. The byte order of 16-bit samples is a parameter.
- Interleaved steps read and write one shared field each; the compare-exchange is one step, and so is the atomic
  addition.

## Where the code differs from what is written about it

- `stbi__process_gif_raster` has a comment that a missing first clear code is supported; the code reports "no clear
  code". `GifLzw.NoClearCodeExactly` says for which payloads, and `NoClearCodeHappens` gives one.
- GIF89a lets an encoder defer the clear code for as long as it likes once the table is full. The code goes on adding
  entries, up to 8192, and then stops with "too many codes": `GifLzw.TableLimit` says exactly when, and `TableFills` and
  `TooManyCodesHappens` give codes and payloads that are stopped so.
- The code size is meant to grow so that the next entry fits. It does so if and only if roots have at least one bit
  (`GifLzw.RootsDecide`); with roots of no bits, which GIF89a does not have but the code accepts, it stays a bit behind
  (`ZeroRootsFallBehind`).
- The nine-bit table of a JPEG Huffman table marks an index without an entry with 255, which is also the number of the
  last symbol of a full table. `HuffDecode` therefore reads every symbol right if and only if it is not number 255
  with a code of up to nine bits (`JpegDecode.Misread`); `MisreadHappens` gives an accepted table with such a symbol.
  The table for coefficients has no entry there, so the agreement of the fast and the slow way is not affected.
- Truncated DEFLATE data is read as if zeros followed. Results are stated against the zero-padded bit string; streams
  that end within the input are always decompressed.

## Model

| member | source | states |
|---|---|---|
| BitReverse.ReverseCodeValue | learn_gl/include/stb_image.h:4107-4122 | reversing the low `bits` bits of a code with four mask-and-shift exchanges and a shift gives the value of those bits read in the opposite order |
| Canonical.FitsIffKraft | learn_gl/include/stb_image.h:4134-4158 | the two checks made while codes are assigned (no length overfull, every next code within its length) accept exactly the length lists that meet the Kraft inequality |
| Canonical.PrefixFree | learn_gl/include/stb_image.h:4144-4176 | of all codes assigned to an accepted length list at most one starts any given bit string |
| Canonical.SymbolOfWindow | learn_gl/include/stb_image.h:4224-4241 | from the first length whose preshifted end exceeds the bits, the rank of the code there is a real symbol of that length whose code starts the bits |
| Canonical.MatchIsCovered | learn_gl/include/stb_image.h:4224-4232 | a code of length at most t that starts the bits puts them below the preshifted end of length t: the slow path cannot pass it |
| ZHuffman.Table.Build | learn_gl/include/stb_image.h:4124-4179 | returns success exactly for the length lists that meet the Kraft inequality; then the fast, first-code, end, symbol and size tables all describe the canonical code of that list |
| ZHuffman.Table.AssignCodes | learn_gl/include/stb_image.h:4144-4158 | the code-assignment loop succeeds exactly when every length fits, and leaves the first code, first symbol and preshifted end of every length |
| ZHuffman.Table.EnterSymbols | learn_gl/include/stb_image.h:4159-4178 | every used symbol is entered once, and a fast entry is nonzero exactly where a code of at most nine bits ends the index, naming its symbol and length |
| ZHuffman.Table.FastEntry | learn_gl/include/stb_image.h:4162 | length and symbol packed in 16 bits can be told apart again |
| ZInputs.ZInput.FillBits | learn_gl/include/stb_image.h:4202-4212 | the bit buffer refines the zero-padded bit string of the input: filling moves no bit, ends with more than 24 bits, and the corruption guard never fires |
| ZInputs.ZInput.Zreceive | learn_gl/include/stb_image.h:4214-4222 | returns the value of the next n bits, least significant first, and consumes exactly them |
| ZInputs.ZInput.CodeBufferBound | learn_gl/include/stb_image.h:4202-4212 | the buffer is below 2 to the number of valid bits, and that number is at most 32 |
| ZInputs.ZInput.HuffmanDecode | learn_gl/include/stb_image.h:4243-4271 | fast table and slow path together return the symbol whose code stands at the cursor and consume its length; within the input, -1 means that no code stands there |
| ZInputs.ZInput.HuffmanDecodeSlowpath | learn_gl/include/stb_image.h:4224-4241 | the slow loop stops by sixteen, its index and size checks never refuse a real code, and it returns the unique symbol that matches |
| ZInputs.ZInput.BehindStoredHeader | learn_gl/include/stb_image.h:4413-4426 | bytes drained from the bit buffer and bytes read after it are consecutive bytes of the input |
| Lz77.LengthTable | learn_gl/include/stb_image.h:4295-4301 | the length tables are those of the alphabet: each symbol's range starts where the one before ends, 258 alone |
| Lz77.DistanceTable | learn_gl/include/stb_image.h:4303-4307 | the distance tables are those of the alphabet, ranges back to back |
| Lz77.EveryCopyHasToken | learn_gl/include/stb_image.h:4295-4307 | every length from 3 to 258 and distance from 1 to 32768 is what some symbols and extra bits stand for |
| Lz77.CopyBackRefersBack | learn_gl/include/stb_image.h:4342-4353 | each byte a back-reference appends is the one `dist` places before it, also where source and target overlap |
| Lz77.CopyBackPeriodic | learn_gl/include/stb_image.h:4342-4353 | so a back-reference repeats the last `dist` bytes over and over |
| DeflateFormat.TokensUnique | learn_gl/include/stb_image.h:4309-4357 | the bit encoding of literals, back-references and end of block can be read in one way only, for any two accepted codes |
| ZBufs.ZBuf.Zexpand | learn_gl/include/stb_image.h:4273-4293 | growing keeps what was written and doubles until the need fits; it fails exactly when the need exceeds what doubling reaches in 32 bits |
| ZBufs.ZBuf.CopyMatch | learn_gl/include/stb_image.h:4342-4353 | the run-of-one-byte branch and the general copy both append what the back-reference stands for |
| ZBufs.ZBuf.ReadItem | learn_gl/include/stb_image.h:4312-4341 | reads a literal, the end, or a length with its distance; whatever token stands at the cursor within the input is the one read |
| ZBufs.ZBuf.ParseHuffmanBlock | learn_gl/include/stb_image.h:4309-4357 | on success the tokens of a block stood at the cursor and the output grew by exactly their LZ77 expansion; every block that is well formed and fits the capacity is accepted |
| ZBufs.ZBuf.ParseUncompressedBlock | learn_gl/include/stb_image.h:4409-4436 | the header is the next four byte-aligned bytes; the data is copied exactly when length and complement agree, the input holds it and the output can take it |
| ZBufs.ZBuf.ComputeHuffmanCodes | learn_gl/include/stb_image.h:4359-4407 | any run-length coding of the code lengths with symbols 16, 17 and 18 is rebuilt to exactly that list, across the literal/distance boundary and never past the total; what is accepted is well formed, and every well-formed header that ends within the input is accepted |
| DeflateBlocks.HeaderUnique | learn_gl/include/stb_image.h:4359-4407 | a dynamic header can be read in one way only |
| DeflateBlocks.FixedCodesAccepted | learn_gl/include/stb_image.h:4452-4479 | the fixed length lists use up the code space exactly, so the tables built from them exist |
| ZBufs.ZBuf.ParseBlock | learn_gl/include/stb_image.h:4481-4507 | the final bit, the type and the contents of one block, each type with its own parser; type 3 is refused |
| ZBufs.ZBuf.ParseStream | learn_gl/include/stb_image.h:4481-4507 | on success a stream stood at the cursor and the output grew by the expansion of all its blocks, later blocks referring back into earlier ones; every acceptable stream succeeds |
| ZBufs.ZBuf.ParseZlibHeader | learn_gl/include/stb_image.h:4438-4450 | accepts exactly the two header bytes with a valid check, no dictionary and method 8, with something after them |
| DeflateBlocks.StreamUnique | learn_gl/include/stb_image.h:4481-4507 | two acceptable streams at the same place are the same |
| ZBufs.ZlibDecode | learn_gl/include/stb_image.h:4510-4518 | the result is the expansion of a stream that stands in the buffer; every acceptable stream is decompressed, to one result only, whatever the positive starting size |
| ZBufs.MaxLimitIsLarge | learn_gl/include/stb_image.h:4273-4285 | from any positive starting size an output that may grow is doubled up to its last size within 32 bits, 2 GiB or more |
| BitStream.PackedAt | learn_gl/include/stb_image.h:4197-4212 | bits packed into bytes are found again at their place, whatever comes before and after |
| DeflateEncode.StreamWritten | learn_gl/include/stb_image.h:4481-4507 | blocks of all three kinds, written one after the other, stand where they were written |
| DeflateEncode.DeflatedIsAcceptable | learn_gl/include/stb_image.h:4510-4518 | every list of writable blocks is an acceptable stream behind any bytes and before any others |
| DeflateEncode.Inflate | learn_gl/include/stb_image.h:4510-4518 | the round trip: any blocks, bare or behind a zlib header, whatever follows, are decompressed to what they stand for |
| DeflateEncode.EveryStringHasStream | learn_gl/include/stb_image.h:4510-4518 | every byte string is what some writable stream stands for |
| Sizes.Mul2SizesExact | learn_gl/include/stb_image.h:1014-1020 | the product check accepts exactly the non-negative pairs whose product fits 31 bits |
| Sizes.Mad3SizesExact | learn_gl/include/stb_image.h:1031-1035 | accepts exactly when every partial product and the sum fit |
| Sizes.Mad4SizesExact | learn_gl/include/stb_image.h:1039-1044 | accepts exactly when every partial product and the sum fit |
| Sizes.Mad4SizesPositive | learn_gl/include/stb_image.h:1039-1044 | with four positive factors and a non-negative addend the final value alone decides |
| PngFilters.Paeth | learn_gl/include/stb_image.h:4657-4668 | the rewritten predictor is the one of the PNG specification, ties included |
| PngFilters.ReconUndoesFilter | learn_gl/include/stb_image.h:4754-4785 | reconstruction undoes filtering for every filter type, prior row and pixel size |
| PngFilters.FilterUndoesRecon | learn_gl/include/stb_image.h:4754-4785 | and filtering undoes reconstruction |
| PngFilters.FirstRow | learn_gl/include/stb_image.h:4648-4654 | the first-row filters, which never look above, act like the real ones below a row of zeros |
| PngFilters.UnfilterRow | learn_gl/include/stb_image.h:4751-4785 | in the two-row workspace each filter reconstructs the current row from the bytes and the other half, which stays as it is |
| PngRaw.RowsUndoScanlines | learn_gl/include/stb_image.h:4737-4853 | for every image and choice of filter types the row recurrence gives back the rows that were filtered |
| PngRaw.ScanlinesUndoRows | learn_gl/include/stb_image.h:4737-4853 | and filtering the rows again gives back the scanlines |
| PngRaw.RowLoop | learn_gl/include/stb_image.h:4737-4853 | two alternating half buffers behave like full history: the output is that of all rows, and the loop stops exactly at an unknown filter type |
| PngRaw.SizesFit | learn_gl/include/stb_image.h:4711-4729 | once the size checks pass, no size computed later leaves 32 bits, and the second workspace check cannot fail |
| PngRaw.CreatePngImageRaw | learn_gl/include/stb_image.h:4696-4859 | returns the first size error, or the unknown filter error, or exactly the pixels of the scanlines |
| PngRaw.DecodeUndoesEncode | learn_gl/include/stb_image.h:4696-4859 | filter the rows of an image in any way, append anything, decode: its pixels come out |
| PngImage.ExpandBits | learn_gl/include/stb_image.h:4790-4817 | samples of 1, 2 or 4 bits are taken from the high end of each byte and scaled when gray |
| PngImage.NextField | learn_gl/include/stb_image.h:4799-4816 | the byte-wide shift register yields the fields of a byte from the high end, one after the other |
| PngImage.AlphaExpandGray | learn_gl/include/stb_image.h:4679-4683 | spreading gray samples last first puts 255 behind each, also in place |
| PngImage.AlphaExpandColour | learn_gl/include/stb_image.h:4684-4692 | the same for three samples to the pixel |
| PngImage.ExpandRow | learn_gl/include/stb_image.h:4789-4852 | a reconstructed row becomes its samples in output order, 16-bit ones in the given byte order, with an opaque alpha sample where a channel is added, and nothing else changes |
| Adam7.PassSizeCounts | learn_gl/include/stb_image.h:4874-4881 | the unsigned pass-size formula counts exactly the columns from the origin on in steps of the spacing, also for images smaller than the origin |
| Adam7.PixelHasPlace | learn_gl/include/stb_image.h:4873-4900 | every pixel of the image is a pixel of some pass |
| Adam7.PlaceIsPixel | learn_gl/include/stb_image.h:4873-4900 | every pass pixel lies inside the image |
| Adam7.PlaceUnique | learn_gl/include/stb_image.h:4873-4900 | and no two pass pixels are the same pixel |
| Adam7.AreasAddUp | learn_gl/include/stb_image.h:4873-4900 | the areas of the seven passes sum to width times height |
| Adam7.ScatterPass | learn_gl/include/stb_image.h:4888-4895 | a pass is scattered to its pixels and touches no other pass's |
| Adam7.DeinterlacedUnique | learn_gl/include/stb_image.h:4873-4900 | seven reduced images determine the image |
| Adam7.DeinterlaceUndoesInterlace | learn_gl/include/stb_image.h:4873-4900 | scattering inverts extraction, for every width and height |
| Adam7.DecodePass | learn_gl/include/stb_image.h:4878-4899 | a pass takes its own scanlines from the data and leaves the rest; an empty pass takes none |
| Adam7.CreatePngImage | learn_gl/include/stb_image.h:4861-4904 | plain data is one image; interlaced data is the seven passes in order, scattered, or the first error |
| Adam7.PassesUndoEncode | learn_gl/include/stb_image.h:4873-4900 | decoding the passes undoes encoding them, whatever rows and filter types |
| Adam7.SizesShrink | learn_gl/include/stb_image.h:4871-4887 | an image no larger than one that passes the size checks passes them |
| Adam7.RestoreImage | learn_gl/include/stb_image.h:4861-4904 | end to end: an image taken apart into passes, filtered in any way, is decoded to itself |
| PngEncode.WriteAndRestore | learn_gl/include/stb_image.h:4861-4904 | for every format, with every bit depth, added channel and byte order, the encoder is explicit: every image whose pixels the format has, with any filter for each row of each pass, is read back |
| PngEncode.WritePlainAndRestore | learn_gl/include/stb_image.h:4861-4868 | and so is every such image without interlacing |
| PngEncode.WholeBytesWritable | learn_gl/include/stb_image.h:4822-4852 | from eight bits on, without an added channel, that is every image of the right size |
| PngRows.ScanlineOut | learn_gl/include/stb_image.h:4789-4852 | a row of such pixels, packed into a scanline, is expanded to these pixels: unpacking, scaling, byte order and the added channel are undone exactly |
| PngRows.FieldOfPacked | learn_gl/include/stb_image.h:4797-4817 | samples below eight bits, packed from the high end, are what the shift register takes out again |
| GifRaster.RowOrderCovers | learn_gl/include/stb_image.h:6677-6688 | every row of a frame is visited, interlaced or not, for every height |
| GifRaster.RowOrderDistinct | learn_gl/include/stb_image.h:6677-6688 | and none twice |
| GifRaster.PlacementIsPermutation | learn_gl/include/stb_image.h:6662-6688 | the pixels of a frame go to as many different places, and any beyond go nowhere |
| GifRaster.PlacesCover | learn_gl/include/stb_image.h:6662-6688 | every pixel of the frame is one of these places |
| GifRaster.NextRow | learn_gl/include/stb_image.h:6680-6687 | the pass-advancing loop ends, skips passes that are empty in short frames and finds the next row of the order |
| GifRaster.Raster.Start | learn_gl/include/stb_image.h:6857-6881 | the cursor fields are set to the first pixel of the frame's order, or past the end of an empty frame |
| GifRaster.Raster.Put | learn_gl/include/stb_image.h:6654-6688 | a pixel is drawn at its place with its table colour when that is opaque, marked as touched, and the cursor moves to the next place |
| GifLzw.NewEntry | learn_gl/include/stb_image.h:6739-6747 | a new entry is the previous code's word and the first pixel of the current one's, also when the current code is that entry |
| GifLzw.FirstOfWord | learn_gl/include/stb_image.h:6739-6747 | the `first` field is the first pixel of the word |
| GifLzw.WordsOfParse | learn_gl/include/stb_image.h:6723-6769 | whatever dictionary words an encoder picks, the decoder's dictionary has the same |
| GifLzw.StepKeepsValid | learn_gl/include/stb_image.h:6723-6769 | every code keeps the codes since the last clear code legal and the table within 8192 entries |
| GifLzw.StepKeepsWidth | learn_gl/include/stb_image.h:6756-6759 | in every state of the decoder the code size is the closed form `WidthAt` of root size and next entry: as many bits as the next entry needs, up to twelve, with the exact exceptions for roots of zero, one and twelve bits |
| GifLzw.RootsDecide | learn_gl/include/stb_image.h:6756-6759 | while entries have up to twelve bits, the next one fits the code size if and only if roots have at least one bit |
| GifLzw.ZeroRootsFallBehind | learn_gl/include/stb_image.h:6696-6759 | the failing case: with roots of no bits, after the codes 0 and 0 the decoder would take code 4 but reads two bits |
| GifLzw.CodesFit | learn_gl/include/stb_image.h:6756-6759 | from one-bit roots on, a code that exists when it is sent fits its width exactly if it has at most twelve bits, or thirteen for the largest roots |
| GifLzw.DecodeOfCodes | learn_gl/include/stb_image.h:6709-6769 | decoding the bits of any run of codes, none of which stops the decoder before the last, yields the concatenation of their words and ends as the last code does, whatever follows |
| GifLzw.TableLimit | learn_gl/include/stb_image.h:6739-6747 | code k of a parse is taken exactly while the table has room for its entry |
| GifLzw.TableFills | learn_gl/include/stb_image.h:6739-6742 | an encoder that keeps deferring the clear code is refused: of zeros behind a clear code exactly `8191 - Clear()` are taken, for every root size |
| GifLzw.TooManyCodesHappens | learn_gl/include/stb_image.h:6739-6742 | so the packed form of these codes decodes to that many pixels and the error for a full table |
| GifLzw.NoClearCodeExactly | learn_gl/include/stb_image.h:6734-6737 | before any clear code decoding ends in the error for a missing one if and only if a first code is there and is a root or the first entry's |
| GifLzw.StartedStays | learn_gl/include/stb_image.h:6723-6737 | and after a clear code never |
| GifLzw.NoClearCodeHappens | learn_gl/include/stb_image.h:6734-6737 | a payload that ends so, for every root size up to seven bits |
| GifLzw.ImageSent | learn_gl/include/stb_image.h:6709-6769 | the closed condition: acceptable segments, each behind a clear code, and the end code are all taken and stand for their words, for every root size |
| GifLzw.SentIsAcceptable | learn_gl/include/stb_image.h:6709-6769 | the condition is exact: dictionary parses that the decoder takes to the end code are acceptable |
| GifLzw.PlainlyAcceptable | learn_gl/include/stb_image.h:6756-6759 | from one-bit roots on it says only that codes have at most twelve bits, or thirteen for the largest roots |
| GifDecoder.OutGifCode | learn_gl/include/stb_image.h:6654-6661 | following prefix links ends, since they fall, and draws the word of the code |
| GifDecoder.AddEntry | learn_gl/include/stb_image.h:6739-6747 | the new table entry is linked to the previous code and all other links stay |
| GifDecoder.DataCode | learn_gl/include/stb_image.h:6733-6765 | one data code: its entry, its word drawn, the code size grown, or the error that applies |
| GifDecoder.ProcessGifRaster | learn_gl/include/stb_image.h:6690-6774 | what the sub-blocks decode to is drawn pixel by pixel, the outcome is the specified one, and at the end code the input stands behind the sub-blocks |
| GifEncode.RasterUndoesEncoding | learn_gl/include/stb_image.h:6690-6774 | root size, packed codes cut into any sub-blocks and anything behind the end code decode to the encoded pixels, for every root size the code accepts |
| GifEncode.DrawEncoded | learn_gl/include/stb_image.h:6690-6774 | the round trip down to the canvas |
| GifEncode.DrawFrame | learn_gl/include/stb_image.h:6690-6774 | for a whole frame, pixel by pixel: every encoded pixel is at its place, opaque ones in their colour, and every other place of the canvas is unchanged |
| GifRaster.PaintedIsShown | learn_gl/include/stb_image.h:6654-6688 | drawing the pixels one after the other leaves exactly that |
| GifEncode.EveryImageHasSegments | learn_gl/include/stb_image.h:6690-6774 | any pixels that are roots can be encoded, with roots of no bits from two pixels on and not before |
| RingQueue.FullOrEmpty | learn_cpp/src/unlockthread/queueLK.h:42-46 | head and tail alone tell a full ring, one cell unused, from an empty one |
| RingQueue.CircularQueueLK.constructor | learn_cpp/src/unlockthread/queueLK.h:19 | an empty queue with room for `Cap` |
| RingQueue.CircularQueueLK.Emplace | learn_cpp/src/unlockthread/queueLK.h:37-52 | appends, or refuses exactly when `Cap` are queued and changes nothing |
| RingQueue.CircularQueueLK.Pop | learn_cpp/src/unlockthread/queueLK.h:66-80 | takes the oldest, or refuses exactly when empty and changes nothing |
| SpinQueue.StepKeeps | learn_cpp/src/unlockthread/queueLK.h:93-179 | every step of every thread keeps the invariant that ties lock, program counters, ring and history |
| SpinQueue.MutualExclusion | learn_cpp/src/unlockthread/queueLK.h:93-110 | in every run at most one thread is between the acquiring and the releasing compare-exchange |
| SpinQueue.ReleaseSucceeds | learn_cpp/src/unlockthread/queueLK.h:102-110 | the owner's releasing compare-exchange succeeds at its first try |
| SpinQueue.HistoryLegal | learn_cpp/src/unlockthread/queueLK.h:129-179 | in every run the completed operations are a legal history of a FIFO with room for `Cap`: full and empty exactly when they should be, nothing lost, duplicated or reordered |
| SpinQueue.FirstInFirstOut | learn_cpp/src/unlockthread/queueLK.h:129-179 | in a legal history the values popped and then those queued are the values pushed, in order |
| SpinQueue.QuietMemory | learn_cpp/src/unlockthread/queueLK.h:129-179 | when the lock is free the ring holds the queue that the history leaves |
| SpinQueue.NoDeadlock | learn_cpp/src/unlockthread/queueLK.h:93-179 | as long as an operation is under way some thread can take a step that changes the state |
| ResourcePool.GenerationIs | learn_gl/include/skl/memory/memory.hpp:41-42 | generations count 1 to 2^32 - 1 and then from 1 again, never 0 |
| ResourcePool.GenerationsRepeat | learn_gl/include/skl/memory/memory.hpp:41-42 | two generation numbers coincide exactly after full cycles |
| ResourcePool.ActiveCounts | learn_gl/include/skl/memory/memory.hpp:75 | `active` is the number of live slots |
| ResourcePool.AcquireKeeps | learn_gl/include/skl/memory/memory.hpp:31-48 | acquire hands out a valid handle to a slot that was not live and keeps the free list exact |
| ResourcePool.ReleaseKeeps | learn_gl/include/skl/memory/memory.hpp:51-64 | release frees exactly a valid handle's slot, after which the handle is invalid, and refuses any other without a change |
| ResourcePool.ResourceManager.constructor | learn_gl/include/skl/memory/memory.hpp:17-24 | slot 0 is there for the null handle, nothing is free |
| ResourcePool.ResourceManager.Acquire | learn_gl/include/skl/memory/memory.hpp:31-48 | the slot freed last, or a new one, with its generation incremented past zero; everything else stays |
| ResourcePool.ResourceManager.Release | learn_gl/include/skl/memory/memory.hpp:51-64 | the two errors, in order, or the slot emptied, incremented and pushed |
| ResourcePool.ResourceManager.Get | learn_gl/include/skl/memory/memory.hpp:67-69 | the resource of a valid handle, nothing otherwise |
| ResourcePool.ResourceManager.Active | learn_gl/include/skl/memory/memory.hpp:75 | counts the live slots in every valid state |
| ResourcePool.RunKeeps | learn_gl/include/skl/memory/memory.hpp:31-64 | after any run of acquires and releases the free list holds each empty slot but the null slot exactly once, and each use of a slot increments it once |
| ResourcePool.ValidExactly | learn_gl/include/skl/memory/memory.hpp:69-71 | a handle is valid exactly while its slot is at its generation number, up to full cycles |
| ResourcePool.HandleOverRun | learn_gl/include/skl/memory/memory.hpp:31-71 | over any run, a handle stays valid exactly if its slot was used a multiple of twice 2^32 - 1 times |
| ResourcePool.ValidUntilReleased | learn_gl/include/skl/memory/memory.hpp:31-71 | a handle that is not itself released stays valid and keeps its resource, whatever else happens |
| ResourcePool.StaleRefused | learn_gl/include/skl/memory/memory.hpp:51-64 | releasing a stale handle again is refused with the pool unchanged until its slot has been through the cycle |
| CrcTables.TableRight | learn_cpp/web/tcp_package.c:6-49 | all 256 table entries are eight bitwise steps of the reflected polynomial 0xEDB88320 applied to their index |
| Crc32.GenerateEntry | learn_cpp/test.cpp:8-15 | the inner loop of the table generator computes one entry |
| Crc32.GenerateTable | learn_cpp/test.cpp:5-17 | the nested loops fill all 256 places with the table that the checksum uses |
| Crc32.TableStep | learn_cpp/web/tcp_package.c:55-58 | one table step is eight bit steps of the register with the byte fed in |
| Crc32.Crc32 | learn_cpp/web/tcp_package.c:50-61 | for every message and start value the table loop gives the bit-by-bit reflected CRC, inverted exactly on a fresh start |
| Crc32.StepInjective | learn_cpp/web/tcp_package.c:55-58 | a register step with the same input loses nothing |
| Crc32.BurstDetected | learn_cpp/web/tcp_package.c:50-61 | two messages that differ only within a span no longer than the register leave different registers |
| Crc32.FourBytesDetected | learn_cpp/web/tcp_package.c:50-61 | two messages of equal length that differ only within four consecutive bytes never get the same checksum |
| Framing.NetworkImage | learn_cpp/web/tcp_package.c:201-202 | on a host of either byte order the size field goes out most significant byte first |
| Framing.NetworkRead | learn_cpp/web/tcp_package.c:222 | and is read back in host order |
| Framing.Swrite | learn_cpp/web/tcp_package.c:164-179 | however the stream takes the bytes, also none in some calls, on success all of them are sent in order, and only a failing send makes it fail |
| Framing.Sread | learn_cpp/web/tcp_package.c:181-195 | however the stream gives the bytes, the next `size` of them are read, fewer only at its end |
| Framing.Hsend | learn_cpp/web/tcp_package.c:197-212 | header in network order and payload go out as one frame |
| Framing.Hrecv | learn_cpp/web/tcp_package.c:214-227 | the next frame comes back: the header in host order before the check, then exactly its payload, or the check's refusal |
| Framing.ReceiveAll | learn_cpp/web/tcp_package.c:164-227 | the packets that were sent are received, headers and payloads, in order, for every way of splitting the bytes |
| Framing.SendAll | learn_cpp/web/tcp_package.c:164-212 | packets sent one after the other appear on the stream as their frames |
| JpegHuffman.MatchUnique | learn_gl/include/stb_image.h:2014-2031 | no code starts another: a 16-bit word has at most one symbol |
| JpegHuffman.MatchIsLeading | learn_gl/include/stb_image.h:2018-2031 | a symbol is matched exactly when the leading bits of the word are its code, as codes are counted up length by length |
| JpegHuffman.NumberFound | learn_gl/include/stb_image.h:2018-2019 | the leading bits plus the offset of their length are the symbol's number |
| JpegHuffman.SearchStops | learn_gl/include/stb_image.h:2029-2031 | the word is below the end of length j exactly when its code is no longer than j |
| JpegHuffman.Huffman.Build | learn_gl/include/stb_image.h:2003-2046 | succeeds exactly for at most 256 symbols whose codes do not oversubscribe the code space; then size, end, offset and nine-bit tables describe that code |
| JpegHuffman.Huffman.AssignCodes | learn_gl/include/stb_image.h:2014-2033 | the code-assignment loop succeeds exactly when the codes fit and leaves the codes, ends and offsets |
| JpegHuffman.Huffman.EnterFast | learn_gl/include/stb_image.h:2035-2045 | an index of the fast table names the symbol whose code of up to nine bits starts it, or is 255 |
| JpegDecode.NextBitsWithin | learn_gl/include/stb_image.h:2128-2137 | bits cut out of the middle of the coming bits are the coming bits further on, whatever byte boundaries lie between |
| JpegDecode.Reader.Grow | learn_gl/include/stb_image.h:2075-2091 | the buffer refines the entropy-coded bits with stuffing and fill bytes taken off and zeros behind the marker; growing moves no bit and leaves at least 25, or has met the marker |
| JpegDecode.Reader.HuffDecode | learn_gl/include/stb_image.h:2097-2146 | the symbol whose code comes next is returned and exactly its code consumed, unless a marker cuts it short; an unknown code gives -1; only symbol 255 with a code of up to nine bits is never read as such |
| JpegDecode.MisreadHappens | learn_gl/include/stb_image.h:2109 | there are accepted tables with such a symbol: its number is the mark of a nine-bit index without an entry |
| JpegDecode.Reader.ExtendReceive | learn_gl/include/stb_image.h:2149-2166 | receive and EXTEND of section F.2.2.1 of ITU-T T.81 in one rotation; 0 when the marker comes before |
| JpegFastAc.EntryParts | learn_gl/include/stb_image.h:2063-2069 | run, signed value and length in an entry can be told apart again |
| JpegFastAc.BuildFastAc | learn_gl/include/stb_image.h:2050-2073 | every entry is the run, value and length of the symbol its nine bits start with, when the value's bits are there too and small enough, and 0 otherwise |
| JpegFastAc.EntryTells | learn_gl/include/stb_image.h:2050-2073 | a nonzero entry for the next nine bits names the symbol that stands there, its run, and the value that stands behind its code |
| JpegFastAc.BothAgree | learn_gl/include/stb_image.h:2232-2259 | one table step and the two steps of decoding and receiving, from the same place in the data, give the same run and value and consume the same bits |
| Compaction.StepKeeps | learn_tbb/src/vector.cpp:19-35 | every step of every task keeps the invariant that each task that has reserved owns the range behind those before it and has filled it as far as it has come |
| Compaction.RangesTile | learn_tbb/src/vector.cpp:31 | in every state of every run the reserved ranges lie back to back in the order of reservation |
| Compaction.RangesFill | learn_tbb/src/vector.cpp:31 | and together fill the array from its start to the counter, which never leaves it |
| Compaction.Disjoint | learn_tbb/src/vector.cpp:31-33 | so no two tasks share an element |
| Compaction.NeverStuck | learn_tbb/src/vector.cpp:32-33 | whatever the others do, a task that is not done can go on, and what it writes is inside the array |
| Compaction.Compacted | learn_tbb/src/vector.cpp:19-35 | for every partition and interleaving, when all tasks are done the array is the tasks' ranges one behind the other, each holding what the filter accepts of that task's input, whole and in order, and altogether each value as often as the filter lets it through |
| Factorial.DigitStep | learn_cpp/src/factorial.cpp:43-46 | digit times multiplier plus carry stays below ten times the multiplier and the new carry below the multiplier: 64 bits never wrap |
| Factorial.MultiplyDigits | learn_cpp/src/factorial.cpp:41-47 | the inner loop leaves the low digits of the product in place and returns the rest as carry |
| Factorial.PushCarry | learn_cpp/src/factorial.cpp:48-51 | the carry becomes digits, the last of them not zero |
| Factorial.BigFactorial | learn_cpp/src/factorial.cpp:38-54 | the digits of n! without leading zeros, most significant first, for every n |
| Factorial.CanonicalUnique | learn_cpp/src/factorial.cpp:52-53 | a number has one such representation: the result is determined |
| DeflateRuns.SymbolsStandFor | learn_gl/include/stb_image.h:4385-4402 | in plain numbers: symbol 16 stands for 3 to 6 copies of the last length, 17 for 3 to 10 zeros, 18 for 11 to 138 zeros, each by its extra bits |
| DeflateRuns.RunsHaveSymbols | learn_gl/include/stb_image.h:4385-4402 | and every run of these lengths is what the symbol with that many extra bits appends |
| DeflateRuns.RunsOfEncode | learn_gl/include/stb_image.h:4380-4405 | an explicit run-length encoder of any list of code lengths, whose symbols stand for exactly that list |
| DeflateSamples.FixedCode | learn_gl/include/stb_image.h:4452-4479 | the table of section 3.2.6 of RFC 1951 in numbers: length and code of each of the 288 symbols |
| DeflateSamples.FixedDistanceCode | learn_gl/include/stb_image.h:4464-4478 | and the distance symbols in five bits, in order |
| DeflateSamples.DecodeFixedSample | learn_gl/include/stb_image.h:4481-4518 | a stream of four bytes with fixed codes decodes to one letter 21 times |
| DeflateSamples.DecodeStoredSample | learn_gl/include/stb_image.h:4409-4436 | a stored block byte for byte: length low byte first, complement, data |
| DeflateSamples.HeaderIs | learn_gl/include/stb_image.h:4438-4450 | a zlib header in numbers: method 8, no dictionary bit, a multiple of 31 |
| DeflateDynamic.DecodeSample | learn_gl/include/stb_image.h:4359-4407 | a stream of 13 bytes with dynamic codes, which fixes the header fields, the order of the code length lengths and the runs, decodes to its two letters |
| PngPlain.ReconRight | learn_gl/include/stb_image.h:4754-4785 | the row equations of section 9 of the PNG specification by filter number, without the predictor: a byte left, above, half of their sum rounded down, or the nearest of three, zeros outside, modulo 256 |
| PngPlain.RowDetermined | learn_gl/include/stb_image.h:4754-4785 | and these equations have one solution only |
| PngPlain.DecodedRowsRight | learn_gl/include/stb_image.h:4737-4853 | so every row of an image satisfies them over the row before |
| PngPlain.FourBitFields | learn_gl/include/stb_image.h:4798-4803 | two samples to the byte, the high half first |
| PngPlain.TwoBitFields | learn_gl/include/stb_image.h:4804-4809 | four to the byte, the high pair of bits first |
| PngPlain.OneBitFields | learn_gl/include/stb_image.h:4810-4817 | eight to the byte, the high bit first |
| PngPlain.ScaleIs | learn_gl/include/stb_image.h:4791 | the largest gray sample of every depth becomes 255, and samples with colours or palettes stay |
| PngPlain.DecodeSample | learn_gl/include/stb_image.h:4696-4859 | an image of two by two pixels byte for byte, the second row averaged |
| JpegPlain.StuffedRead | learn_gl/include/stb_image.h:2075-2091 | the stuffing round trip: a zero written behind every 0xFF, any bytes are read back one by one |
| JpegPlain.MarkerEnds | learn_gl/include/stb_image.h:2078-2086 | and a marker behind them, after any fill bytes, ends the data there |
| JpegPlain.BitsAreBytes | learn_gl/include/stb_image.h:2088-2089 | the bits come byte after byte, the most significant first |
| JpegPlain.ValueBack | learn_gl/include/stb_image.h:2149-2166 | every value that has the bits: written as itself, or one less when negative, EXTEND gives it back |
| JpegPlain.ValuesOfThreeBits | learn_gl/include/stb_image.h:2149-2166 | in numbers: of three bits 0 stands for -7, 3 for -4, 4 for 4 and 7 for 7, and of one bit 0 for -1 |
| JpegPlain.CountedSizes | learn_gl/include/stb_image.h:2003-2013 | the size list holds as many of each size as the counts say, sizes ascending |
| JpegPlain.CodesFollow | learn_gl/include/stb_image.h:2014-2033 | the next symbol has the next code, shifted left where it is longer |
| CrcPlain.FreshChecksum | learn_cpp/web/tcp_package.c:50-61 | start and inversion without a constant: the checksum of any message of four bytes or more is bit by bit the negation of the register that starts at zero and is fed the first four bytes negated |
| CrcPlain.ChecksumOfZero | learn_cpp/web/tcp_package.c:50-61 | the checksum of one zero byte is 0xD202EF8D |
| CrcPlain.ChecksumOfDigits | learn_cpp/web/tcp_package.c:50-61 | that of the digits 1 to 9 is 0xCBF43926 |
| Compaction.SurvivorsSelected | learn_tbb/src/vector.cpp:26-29 | a task's buffer holds its input at strictly increasing positions, exactly those that pass the filter |
| Compaction.SurvivorsCounted | learn_tbb/src/vector.cpp:26-29 | each value as often as in the input when it passes, and never when it does not |
| GifSample.SampleDecodes | learn_gl/include/stb_image.h:6690-6774 | raster data of five bytes, whose codes are each the entry they complete and grow to four bits, decodes to six pixels |
| GifSample.TenRows | learn_gl/include/stb_image.h:6677-6688 | the order of ten interlaced rows in numbers |
| GifLzw.WidthInNumbers | learn_gl/include/stb_image.h:6756-6759 | for roots of two to eleven bits, codes are as wide as the next entry needs, and twelve bits from entry 4096 on |
| SpinQueue.Completes | learn_cpp/src/unlockthread/queueLK.h:93-179 | from any state of any run, an operation that no other keeps from the lock completes within six steps of its own, with one entry in the history |
| SpinQueue.TakesCapacity | learn_cpp/src/unlockthread/queueLK.h:129-148 | there are runs in which a thread pushes any number of values: exactly the first `Cap` are taken, in order, and the others find the queue full |
| ResourcePool.GenerationsInNumbers | learn_gl/include/skl/memory/memory.hpp:41-42 | the n-th generation is n up to 2^32 - 1, and the next is 1 |
| ResourcePool.ReusedNext | learn_gl/include/skl/memory/memory.hpp:31-64 | last freed, first reused: an acquire right after a release gets the released index, one generation on from the release |
| ResourcePool.LastFreedFirst | learn_gl/include/skl/memory/memory.hpp:31-64 | two released slots are reused in the opposite order |
| ResourcePool.NullRefused | learn_gl/include/skl/memory/memory.hpp:51-55 | after any run, the null handle and any of a slot that never was are refused with the first error and no change |
| Framing.ByteOrderIs | learn_cpp/web/tcp_package.c:201-202 | network order and both memory orders in numbers |
| Framing.FrameLayout | learn_cpp/web/tcp_package.c:197-212 | a frame byte for byte: where the length stands, in which order, and what is around it |
| Factorial.ProductCounts | learn_cpp/src/factorial.cpp:38-54 | n! is what it is for: the number of ways to put n things in a row |
| Factorial.FactorialOfTen | learn_cpp/src/factorial.cpp:38-54 | ten of them: the digits 3628800 |

## Left out

- Zlib streams: the Adler-32 checksum is not checked by the code, and so not modelled.
- `ZBufs.ZlibDecode`: a starting size of zero is excluded, since `stbi__zexpand` would double zero without end;
  callers pass a positive size. Failing allocations are not modelled.
- `ZInputs.ZInput.HuffmanDecode`: past the end of the input it may return -1 where padding would match; the code does
  too.
- PNG: chunk and header parsing, palettes, colour-key transparency and gamma; sizes are at least 1 and at most 2^24,
  which the header parser sees to.
- GIF: header, colour-table and extension parsing, disposal and animation; the skip beyond the end of the data is
  clipped. Cursor positions are unbounded numbers; the frame sizes for which 32 bits would overflow are near 2 GiB.
- JPEG: markers and headers, the order of the coefficients in a block, dequantisation, progressive scans, the inverse
  transform and colour. The debugging assertion on codes in `stbi__jpeg_huff_decode` is left out. A symbol number is
  at most 255 because a longer size list is refused.
- `Compaction.Compacted`: the filter is any predicate of an element, not the sign of a sine; growing and shrinking the
  array before and after is not a step.
- `Factorial.BigFactorial`: the largest 32-bit n is excluded, since the counter of the loop would overflow. The
  cached, 64-bit factorial and the growing buffers of the C version are not modelled.
- Queues: construction and destruction of elements, memory orders weaker than the default, and printing. Starting
  threads is not modelled: any number may call at any time.
- `ResourcePool.ResourceManager.Acquire`: the pool is taken to have fewer than 2^32 slots or a free one; beyond that
  the 32-bit index would wrap. The callback that initialises a resource and the raw-pointer accessors are not
  modelled.
- `Crc32.Crc32`: continues from a given register as the code does; a law for concatenated messages is not stated,
  since a register of zero means a fresh start.
- `Framing.Swrite`: a stream whose `send` takes nothing for ever is excluded, since the loop would spin.
- Framing: null arguments, closing on failure and allocation. `hrecv` with no header is a plain receive and left out.
- `__Nd2N_encrypt` and `__Nd2N_dencrypt`: rotate by different widths and are no inverses; `set_hpack_pft` sets one
  field.
- HDR, PSD, BMP, TGA, PIC and PNM decoding, vector code, and everything about windows, shaders, meshes, sockets,
  character sets, XML and files: not part of this model.
