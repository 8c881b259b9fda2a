/** Writing DEFLATE streams (section 3.2 of RFC 1951), and the round trip: what is written for any
    blocks is decompressed to what the blocks stand for. */
module DeflateEncode {
  import opened Bits
  import opened BitStream
  import opened Lz77
  import opened DeflateFormat
  import opened DeflateBlocks
  import opened ZBufs

  // ---- numbers and bytes ----

  /** The low `n` bits of a number, least significant first. */
  function NumberBits(v: nat, n: nat): (b: seq<bool>)
    ensures |b| == n
  {
    seq(n, i requires 0 <= i < n => Bit(v, i))
  }

  lemma NumberIsBits(v: nat, n: nat)
    ensures NumberBits(v, n) == ToBits(v, n)
  {
    forall i | 0 <= i < n ensures NumberBits(v, n)[i] == ToBits(v, n)[i] { ToBitsAt(v, n, i); }
  }

  /** A number of `n` bits, read back. */
  lemma NumberWritten(input: seq<byte>, p: nat, v: nat, n: nat)
    requires n <= 8 && v < SmallPow2(n) && Found(input, p, NumberBits(v, n))
    ensures Val(Window(input, p, n)) == v
  {
    Pow2Value(n);
    NumberIsBits(v, n);
    ValOfToBits(v, n);
    QuotientUnique(v, Pow2(n), 0, v);
  }

  /** Whole bytes as bits. */
  function BytesBits(s: seq<byte>): (b: seq<bool>)
    ensures |b| == 8 * |s|
  {
    if s == [] then [] else BytesBits(s[..|s| - 1]) + NumberBits(s[|s| - 1], 8)
  }

  lemma ByteWritten(input: seq<byte>, k: nat, p: nat, v: byte, n: nat)
    requires p == 8 * k && n == 8 && k < |input| && Found(input, p, NumberBits(v, n))
    ensures input[k] == v
  {
    NumberWritten(input, p, v, n);
    WindowOfByte(input, k, n);
  }

  lemma {:induction false} BytesAt(input: seq<byte>, k: nat, p: nat, s: seq<byte>)
    requires p == 8 * k && Found(input, p, BytesBits(s)) && k + |s| <= |input|
    ensures input[k..k + |s|] == s
    decreases |s|
  {
    if s != [] {
      var m := |s| - 1;
      FoundParts(input, p, BytesBits(s[..m]), NumberBits(s[m], 8));
      BytesAt(input, k, p, s[..m]);
      ByteWritten(input, k + m, p + 8 * m, s[m], 8);
      LastByteSame(input, k, s, m);
    }
  }

  lemma LastByteSame(input: seq<byte>, k: nat, s: seq<byte>, m: nat)
    requires |s| == m + 1 && k + |s| <= |input| && input[k..k + m] == s[..m] && input[k + m] == s[m]
    ensures input[k..k + |s|] == s
  {
    assert s == s[..m] + [s[m]] && input[k..k + |s|] == input[k..k + m] + [input[k + m]];
  }

  // ---- stored blocks ----

  /** The length, its complement, each in two bytes with the low one first, and the data. */
  function StoredBytes(data: seq<byte>): (s: seq<byte>)
    requires |data| <= 0xFFFF
    ensures |s| == 4 + |data|
  {
    var c := 0xFFFF - |data|;
    [|data| % 256, |data| / 256, c % 256, c / 256] + data
  }

  /** Zeros up to the next byte boundary. */
  function Padding(p: nat): (b: seq<bool>)
    ensures p + |b| == 8 * Aligned(p)
  {
    seq(8 * Aligned(p) - p, _ => false)
  }

  lemma StoredWritten(input: seq<byte>, q: nat, data: seq<byte>, bits: seq<bool>)
    requires |data| <= 0xFFFF && bits == Padding(q) + BytesBits(StoredBytes(data)) && Found(input, q, bits)
    requires StoredEnd(q, data) <= 8 * |input|
    ensures StoredAt(input, q, data)
  {
    var k, s := Aligned(q), StoredBytes(data);
    FoundParts(input, q, Padding(q), BytesBits(s));
    BytesAt(input, k, 8 * k, s);
    var t := input[k..k + |s|];
    assert t[0] == input[k] && t[1] == input[k + 1] && t[2] == input[k + 2] && t[3] == input[k + 3];
    assert t[4..] == input[k + 4..k + 4 + |data|] && s[4..] == data;
  }

  // ---- dynamic headers ----

  function SentBits(sent: seq<nat>): (b: seq<bool>)
    ensures |b| == 3 * |sent|
  {
    if sent == [] then [] else SentBits(sent[..|sent| - 1]) + NumberBits(sent[|sent| - 1], 3)
  }

  lemma {:induction false} SentWritten(input: seq<byte>, p: nat, sent: seq<nat>)
    requires Found(input, p, SentBits(sent)) && forall i :: 0 <= i < |sent| ==> sent[i] < 8
    ensures SentAt(input, p, sent)
    decreases |sent|
  {
    if sent != [] {
      var m, n := |sent| - 1, 3;
      FoundParts(input, p, SentBits(sent[..m]), NumberBits(sent[m], n));
      SentWritten(input, p, sent[..m]);
      NumberWritten(input, p + 3 * m, sent[m], n);
    }
  }

  function CountBits(h: DynamicHeader): (b: seq<bool>)
    requires h.WellFormed()
    ensures |b| == 14
  {
    NumberBits(h.hlit - 257, 5) + NumberBits(h.hdist - 1, 5) + NumberBits(|h.sent| - 4, 4)
  }

  function HeaderBits(h: DynamicHeader): (b: seq<bool>)
    requires h.WellFormed()
    ensures |b| == h.Size()
  {
    CountBits(h) + SentBits(h.sent) + SymbolsBits(h.CodeLengthCode(), h.symbols)
  }

  lemma CountsWritten(input: seq<byte>, p: nat, h: DynamicHeader)
    requires h.WellFormed() && Found(input, p, CountBits(h))
    ensures Val(Window(input, p, 5)) + 257 == h.hlit
    ensures Val(Window(input, p + 5, 5)) + 1 == h.hdist
    ensures Val(Window(input, p + 10, 4)) + 4 == |h.sent|
  {
    var a, b, c := NumberBits(h.hlit - 257, 5), NumberBits(h.hdist - 1, 5), NumberBits(|h.sent| - 4, 4);
    FoundParts(input, p, a + b, c);
    FoundParts(input, p, a, b);
    NumberWritten(input, p, h.hlit - 257, 5);
    NumberWritten(input, p + 5, h.hdist - 1, 5);
    NumberWritten(input, p + 10, |h.sent| - 4, 4);
  }

  lemma SymbolsWritten(input: seq<byte>, p: nat, cl: seq<nat>, ss: seq<LengthSymbol>, s: seq<bool>)
    requires SymbolsEncodable(cl, ss) && s == SymbolsBits(cl, ss) && Found(input, p, s)
    ensures SymbolsAt(input, p, cl, ss, p + |s|)
  {
    AtIsWindow(input, p, s);
  }

  lemma TokensWritten(input: seq<byte>, p: nat, ll: seq<nat>, dl: seq<nat>, ts: seq<Token>, s: seq<bool>)
    requires BlockEncodable(ll, dl, ts) && s == BlockBits(ll, dl, ts) && Found(input, p, s)
    ensures TokensAt(input, p, ll, dl, ts, p + |s|)
  {
    AtIsWindow(input, p, s);
  }

  lemma HeaderWritten(input: seq<byte>, p: nat, q: nat, h: DynamicHeader, counts: seq<bool>, sent: seq<bool>,
                      symbols: seq<bool>)
    requires h.WellFormed() && counts == CountBits(h) && sent == SentBits(h.sent)
    requires symbols == SymbolsBits(h.CodeLengthCode(), h.symbols)
    requires Found(input, p, counts + sent + symbols) && q == p + 14 + 3 * |h.sent|
    ensures HeaderAt(input, p, h)
  {
    FoundParts(input, p, counts + sent, symbols);
    FoundParts(input, p, counts, sent);
    CountsWritten(input, p, h);
    SentWritten(input, p + 14, h.sent);
    SymbolsWritten(input, q, h.CodeLengthCode(), h.symbols, symbols);
  }

  // ---- blocks and streams ----

  /** What an encoder can be asked to write: a stored block's length has to fit its field. */
  predicate Writable(b: Block) {
    b.WellFormed() && (b.Stored? ==> |b.data| <= 0xFFFF)
  }

  predicate AllWritable(bs: seq<Block>) {
    forall i :: 0 <= i < |bs| ==> Writable(bs[i])
  }

  /** The contents of a block, from bit `q` on. */
  function ContentBits(q: nat, b: Block): seq<bool>
    requires Writable(b)
  {
    match b
    case Stored(data) => Padding(q) + BytesBits(StoredBytes(data))
    case Fixed(ts) => BlockBits(FIXED_LENGTHS, FIXED_DISTANCES, ts)
    case Dynamic(h, ts) => HeaderBits(h) + BlockBits(h.LiteralLengths(), h.DistanceLengths(), ts)
  }

  /** The final bit and the type. */
  function StartBits(last: bool, t: nat): (s: seq<bool>)
    ensures |s| == 3
  {
    NumberBits(if last then 1 else 0, 1) + NumberBits(t, 2)
  }

  /** A whole block at bit `p`. */
  function BlockString(p: nat, last: bool, b: Block): (s: seq<bool>)
    requires Writable(b)
    ensures |s| >= 3 && p + |s| == b.End(p)
  {
    StartBits(last, b.Type()) + ContentBits(p + 3, b)
  }

  lemma StartWritten(input: seq<byte>, p: nat, q1: nat, q: nat, last: bool, t: nat, s: seq<bool>)
    requires t < 4 && q1 == p + 1 && q == p + 3 && s == StartBits(last, t) && Found(input, p, s)
    ensures StartRead(input, p, q1, q, last, t)
  {
    var f, u := NumberBits(if last then 1 else 0, 1), NumberBits(t, 2);
    FoundParts(input, p, f, u);
    NumberWritten(input, p, if last then 1 else 0, 1);
    NumberWritten(input, q1, t, 2);
  }

  lemma DynamicWritten(input: seq<byte>, p: nat, q1: nat, q: nat, last: bool, h: DynamicHeader, ts: seq<Token>,
                       header: seq<bool>, data: seq<bool>)
    requires StartRead(input, p, q1, q, last, 2) && h.WellFormed()
    requires BlockEncodable(h.LiteralLengths(), h.DistanceLengths(), ts)
    requires header == HeaderBits(h) && data == BlockBits(h.LiteralLengths(), h.DistanceLengths(), ts)
    requires Found(input, q, header + data)
    ensures BlockAt(input, p, last, Dynamic(h, ts))
  {
    FoundParts(input, q, header, data);
    var mid := q + |header|;
    TokensWritten(input, mid, h.LiteralLengths(), h.DistanceLengths(), ts, data);
    HeaderWritten(input, q, q + 14 + 3 * |h.sent|, h, CountBits(h), SentBits(h.sent),
                  SymbolsBits(h.CodeLengthCode(), h.symbols));
    DynamicBlock(input, p, q1, q, mid, last, h, ts, mid + |data|);
  }

  lemma FixedWritten(input: seq<byte>, p: nat, q1: nat, q: nat, last: bool, ts: seq<Token>, s: seq<bool>)
    requires StartRead(input, p, q1, q, last, 1) && BlockEncodable(FIXED_LENGTHS, FIXED_DISTANCES, ts)
    requires s == BlockBits(FIXED_LENGTHS, FIXED_DISTANCES, ts) && Found(input, q, s)
    ensures BlockAt(input, p, last, Fixed(ts))
  {
    TokensWritten(input, q, FIXED_LENGTHS, FIXED_DISTANCES, ts, s);
    FixedBlock(input, p, q1, q, last, ts, q + |s|);
  }

  lemma ContentsWritten(input: seq<byte>, p: nat, q1: nat, q: nat, last: bool, b: Block, s: seq<bool>)
    requires Writable(b) && StartRead(input, p, q1, q, last, b.Type()) && s == ContentBits(q, b) && Found(input, q, s)
    requires b.End(p) <= 8 * |input|
    ensures BlockAt(input, p, last, b)
  {
    match b
    case Stored(data) =>
      StoredWritten(input, q, data, s);
      StoredBlock(input, p, q1, q, last, data);
    case Fixed(ts) =>
      FixedWritten(input, p, q1, q, last, ts, s);
    case Dynamic(h, ts) =>
      DynamicWritten(input, p, q1, q, last, h, ts, HeaderBits(h),
                     BlockBits(h.LiteralLengths(), h.DistanceLengths(), ts));
  }

  /** A block that was written at `p` stands there. */
  lemma BlockWritten(input: seq<byte>, p: nat, last: bool, b: Block, s: seq<bool>)
    requires Writable(b) && s == BlockString(p, last, b) && Found(input, p, s) && p + |s| <= 8 * |input|
    ensures BlockAt(input, p, last, b)
  {
    var q1: nat := p + 1;
    var q: nat := p + 3;
    StartAndContents(input, p, q1, q, last, b, StartBits(last, b.Type()), ContentBits(q, b));
  }

  lemma StartAndContents(input: seq<byte>, p: nat, q1: nat, q: nat, last: bool, b: Block, start: seq<bool>,
                         contents: seq<bool>)
    requires Writable(b) && q1 == p + 1 && q == p + 3 && start == StartBits(last, b.Type())
    requires contents == ContentBits(q, b)
    requires Found(input, p, start + contents) && b.End(p) <= 8 * |input|
    ensures BlockAt(input, p, last, b)
  {
    FoundParts(input, p, start, contents);
    StartWritten(input, p, q1, q, last, b.Type(), start);
    ContentsWritten(input, p, q1, q, last, b, contents);
  }

  /** Blocks one after the other from bit `p` on, none of them marked final. */
  function BlocksBits(p: nat, bs: seq<Block>): seq<bool>
    requires AllWritable(bs)
    decreases |bs|
  {
    if bs == [] then [] else Followed(p, BlocksBits(p, bs[..|bs| - 1]), false, bs[|bs| - 1])
  }

  /** A whole stream from bit `p` on. */
  function StreamBits(p: nat, bs: seq<Block>): (s: seq<bool>)
    requires AllWritable(bs) && bs != []
    ensures |s| >= 3
  {
    Followed(p, BlocksBits(p, bs[..|bs| - 1]), true, bs[|bs| - 1])
  }

  /** The bits `front` at `p`, and a block behind them. */
  function Followed(p: nat, front: seq<bool>, last: bool, b: Block): (s: seq<bool>)
    requires Writable(b)
    ensures |s| >= 3
  {
    front + BlockString(p + |front|, last, b)
  }

  /** One more block behind those that stand. */
  lemma BlocksMore(input: seq<byte>, p: nat, bs: seq<Block>, last: bool, b: Block, q: nat)
    requires AllWellFormed(bs) && BlocksAt(input, p, bs) && q == BlocksEnd(bs, p) && b.WellFormed()
    requires BlockAt(input, q, last, b)
    ensures AllWellFormed(bs + [b]) && BlocksEnd(bs + [b], p) == b.End(q)
    ensures if last then StreamAt(input, p, bs + [b]) else BlocksAt(input, p, bs + [b])
  {
    assert (bs + [b])[..|bs|] == bs;
  }

  lemma FrontWritten(input: seq<byte>, p: nat, front: seq<bool>, last: bool, b: Block, s: seq<bool>)
    requires Writable(b) && s == Followed(p, front, last, b) && Found(input, p, s)
    ensures Found(input, p, front) && |front| <= |s|
  {
    FoundParts(input, p, front, BlockString(p + |front|, last, b));
  }

  lemma FollowedWritten(input: seq<byte>, p: nat, front: seq<bool>, last: bool, b: Block, q: nat, s: seq<bool>)
    requires Writable(b) && s == Followed(p, front, last, b) && Found(input, p, s) && p + |s| <= 8 * |input|
    requires q == p + |front|
    ensures BlockAt(input, q, last, b) && p + |s| == b.End(q)
  {
    var t := BlockString(q, last, b);
    FoundParts(input, p, front, t);
    BlockWritten(input, q, last, b, t);
  }

  lemma LastStands(input: seq<byte>, p: nat, init: seq<Block>, front: seq<bool>, last: bool, b: Block, s: seq<bool>,
                   q: nat)
    requires AllWritable(init) && Writable(b) && q == p + |front| && BlocksAt(input, p, init) && q == BlocksEnd(init, p)
    requires s == Followed(p, front, last, b) && Found(input, p, s) && p + |s| <= 8 * |input|
    ensures AllWellFormed(init + [b]) && p + |s| == BlocksEnd(init + [b], p)
    ensures if last then StreamAt(input, p, init + [b]) else BlocksAt(input, p, init + [b])
  {
    FollowedWritten(input, p, front, last, b, q, s);
    BlocksMore(input, p, init, last, b, q);
  }

  lemma SplitLast<T>(s: seq<T>) returns (init: seq<T>, last: T)
    requires s != []
    ensures init == s[..|s| - 1] && last == s[|s| - 1] && s == init + [last]
  {
    init, last := s[..|s| - 1], s[|s| - 1];
  }

  lemma LastApart(p: nat, bs: seq<Block>) returns (init: seq<Block>, b: Block, front: seq<bool>)
    requires AllWritable(bs) && bs != []
    ensures bs == init + [b] && AllWritable(init) && Writable(b) && front == BlocksBits(p, init)
    ensures BlocksBits(p, bs) == Followed(p, front, false, b) && StreamBits(p, bs) == Followed(p, front, true, b)
  {
    init, b := SplitLast(bs);
    front := BlocksBits(p, init);
  }

  lemma {:induction false} BlocksWritten(input: seq<byte>, p: nat, bs: seq<Block>, s: seq<bool>)
    requires AllWritable(bs) && s == BlocksBits(p, bs) && Found(input, p, s) && p + |s| <= 8 * |input|
    ensures AllWellFormed(bs) && BlocksAt(input, p, bs) && p + |s| == BlocksEnd(bs, p)
    decreases |bs|, 0
  {
    if bs != [] {
      var init, b, front := LastApart(p, bs);
      LastWritten(input, p, init, front, false, b, s);
    }
  }

  lemma {:induction false} LastWritten(input: seq<byte>, p: nat, init: seq<Block>, front: seq<bool>, last: bool,
                                       b: Block, s: seq<bool>)
    requires AllWritable(init) && Writable(b) && front == BlocksBits(p, init)
    requires s == Followed(p, front, last, b) && Found(input, p, s) && p + |s| <= 8 * |input|
    ensures AllWellFormed(init + [b]) && p + |s| == BlocksEnd(init + [b], p)
    ensures if last then StreamAt(input, p, init + [b]) else BlocksAt(input, p, init + [b])
    decreases |init|, 1
  {
    FrontWritten(input, p, front, last, b, s);
    BlocksWritten(input, p, init, front);
    LastStands(input, p, init, front, last, b, s, p + |front|);
  }

  /** A stream that was written at `p` stands there. */
  lemma StreamWritten(input: seq<byte>, p: nat, bs: seq<Block>, s: seq<bool>)
    requires AllWritable(bs) && bs != [] && s == StreamBits(p, bs) && Found(input, p, s) && p + |s| <= 8 * |input|
    ensures StreamAt(input, p, bs) && p + |s| == BlocksEnd(bs, p)
  {
    var init, b, front := LastApart(p, bs);
    LastWritten(input, p, init, front, true, b, s);
  }

  /** The bytes of a stream behind the bytes `front`. */
  function Deflate(front: seq<byte>, bs: seq<Block>): (bytes: seq<byte>)
    requires AllWritable(bs) && bs != []
  {
    front + Pack(StreamBits(8 * |front|, bs))
  }

  /** Every list of blocks that can be written is an acceptable stream where it was written, whatever
      stands before and behind it, if what it stands for fits the output. */
  lemma DeflatedIsAcceptable(front: seq<byte>, bs: seq<Block>, extra: seq<byte>, cap: nat)
    requires AllWritable(bs) && bs != [] && BlocksExpandable([], bs) && |ExpandBlocks([], bs)| <= cap
    ensures StreamGoal(Deflate(front, bs) + extra, 8 * |front|, [], cap, bs)
  {
    var p, input := 8 * |front|, Deflate(front, bs) + extra;
    var bits := StreamBits(p, bs);
    PackedWithin(front, bits, extra, p, input);
    StreamWritten(input, p, bs, bits);
  }

  /** The round trip: whatever blocks are written, in a zlib stream or bare, and whatever follows them,
      they are decompressed to what they stand for, from any positive starting size, up to 2 GiB. */
  method Inflate(front: seq<byte>, bs: seq<Block>, extra: seq<byte>, initialSize: nat) returns (r: Option<seq<byte>>)
    requires AllWritable(bs) && bs != [] && BlocksExpandable([], bs) && |ExpandBlocks([], bs)| <= UINT_MAX / 2
    requires 0 < initialSize <= UINT_MAX
    requires front == [] || (|front| == 2 && ZlibHeader(front[0], front[1]))
    ensures r == Some(ExpandBlocks([], bs))
  {
    var input := Deflate(front, bs) + extra;
    var _ := MaxLimitIsLarge(initialSize);
    DeflatedIsAcceptable(front, bs, extra, MaxLimit(initialSize));
    var zlib := front != [];
    if zlib { HeaderKept(front, bs, extra); }
    r := ZlibDecode(input, initialSize, true, zlib);
  }

  lemma HeaderKept(front: seq<byte>, bs: seq<Block>, extra: seq<byte>)
    requires AllWritable(bs) && bs != [] && |front| == 2 && ZlibHeader(front[0], front[1])
    ensures ZlibHeaderAt(Deflate(front, bs) + extra)
  {
    var input := Deflate(front, bs) + extra;
    assert front[0] == input[0] && front[1] == input[1];
  }

  // ---- every byte string has a stream ----

  function Literals(data: seq<byte>): (ts: seq<Token>)
    ensures |ts| == |data|
  {
    seq(|data|, i requires 0 <= i < |data| => Literal(data[i]))
  }

  lemma LiteralsMore(data: seq<byte>, n: nat)
    requires |data| == n + 1
    ensures Literals(data) == Literals(data[..n]) + [Literal(data[n])]
  {}

  lemma LiteralAppended(front: seq<byte>, ts: seq<Token>, b: byte)
    requires Lz77.Expandable([], ts) && Lz77.Expand([], ts) == front
    ensures Lz77.Expandable([], ts + [Literal(b)]) && Lz77.Expand([], ts + [Literal(b)]) == front + [b]
  {
    ExpandStep([], ts, Literal(b));
  }

  lemma {:induction false} LiteralsExpand(data: seq<byte>)
    ensures Lz77.Expandable([], Literals(data)) && Lz77.Expand([], Literals(data)) == data
    decreases |data|
  {
    if data == [] {
      assert Literals(data) == [];
    } else {
      var n := |data| - 1;
      LiteralsExpand(data[..n]);
      LiteralsMore(data, n);
      LiteralAppended(data[..n], Literals(data[..n]), data[n]);
    }
  }

  /** Any bytes can be written as one block of literals in the fixed code. */
  lemma EveryStringHasStream(data: seq<byte>)
    ensures AllWritable([Fixed(Literals(data))]) && BlocksExpandable([], [Fixed(Literals(data))])
    ensures ExpandBlocks([], [Fixed(Literals(data))]) == data
  {
    var b := Fixed(Literals(data));
    FixedEncodesLiterals(data);
    LiteralsExpand(data);
    assert [b][..0] == [];
  }

  lemma FixedEncodesLiterals(data: seq<byte>)
    ensures BlockEncodable(FIXED_LENGTHS, FIXED_DISTANCES, Literals(data))
  {}
}
