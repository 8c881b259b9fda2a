/** The GIF raster decoder: sub-blocks, the code buffer, the linked dictionary and the drawing of words. */
module GifDecoder {
  import opened Bits
  import opened BitStream
  import opened GifLzw
  import opened GifRaster

  // ---- sub-blocks ----

  /** The next `n` bytes, zeros past the end. */
  function Taken(data: seq<byte>, pos: nat, n: nat): (s: seq<byte>)
    ensures |s| == n
  {
    seq(n, i requires 0 <= i < n => if pos + i < |data| then data[pos + i] else 0)
  }

  /** Past one byte, if there is one. */
  function AfterByte(data: seq<byte>, pos: nat): nat {
    if pos < |data| then pos + 1 else pos
  }

  /** The bytes of the sub-blocks from `pos` to the empty one that ends them. */
  function Payload(data: seq<byte>, pos: nat): seq<byte>
    decreases |data| - pos
  {
    if pos >= |data| || data[pos] == 0 then [] else Taken(data, pos + 1, data[pos]) + Payload(data, pos + 1 + data[pos])
  }

  /** Where the data goes on after the empty sub-block. */
  function AfterBlocks(data: seq<byte>, pos: nat): nat
    decreases |data| - pos
  {
    if pos >= |data| then |data| else if data[pos] == 0 then pos + 1 else AfterBlocks(data, pos + 1 + data[pos])
  }

  /** A byte buffer read to its end and then as zeros. */
  class BlockReader {
    const data: seq<byte>
    var pos: nat
    /** Bytes left in the sub-block, and the code buffer with its valid bits. */
    var len: nat
    var bits: nat
    var validBits: nat

    /** All sub-blocks' bytes, how many of them were read, and how many of their bits were consumed. */
    ghost var payload: seq<byte>
    ghost var read: nat
    ghost var consumed: nat
    ghost var end: nat

    ghost predicate Valid()
      reads this
    {
      && pos <= |data| && read <= |payload| && consumed + validBits == 8 * read
      && payload[read..] == Taken(data, pos, len) + Payload(data, pos + len)
      && bits == Val(Window(payload, consumed, validBits))
      && end == AfterBlocks(data, pos + len)
    }

    constructor (data: seq<byte>)
      ensures this.data == data && pos == 0
    {
      this.data := data;
      pos, len, bits, validBits, payload, read, consumed, end := 0, 0, 0, 0, [], 0, 0, 0;
    }

    method Get8() returns (b: byte)
      requires pos <= |data|
      modifies `pos
      ensures pos <= |data|
      ensures if old(pos) < |data| then b == data[old(pos)] && pos == old(pos) + 1 else b == 0 && pos == old(pos)
    {
      if pos < |data| {
        b := data[pos];
        pos := pos + 1;
      } else {
        b := 0;
      }
    }

    /** Begins a series of sub-blocks. */
    method Start()
      requires pos <= |data|
      modifies this
      ensures Valid() && payload == Payload(data, pos) && consumed == 0 && validBits == 0 && pos == old(pos)
      ensures end == AfterBlocks(data, pos)
    {
      len, bits, validBits := 0, 0, 0;
      payload, read, consumed, end := Payload(data, pos), 0, 0, AfterBlocks(data, pos);
      assert Taken(data, pos, 0) == [];
      assert [] + Payload(data, pos) == Payload(data, pos);
    }

    /** Begins the next sub-block. */
    method NextBlock()
      requires Valid() && len == 0
      modifies `pos, `len
      ensures if len == 0 then read == |payload| && pos == end else Valid() && pos > old(pos)
    {
      assert Taken(data, pos, 0) == [] && payload[read..] == Payload(data, pos);
      len := Get8();
      assert Taken(data, pos, 0) == [];
    }

    /** Reads another byte into the code buffer; the empty sub-block, or the end of the data, has none. */
    method More() returns (more: bool)
      requires Valid()
      modifies `pos, `len, `bits, `validBits, `read
      ensures more ==>
                Valid() && validBits == old(validBits) + 8 && (pos > old(pos) || (pos == old(pos) && len < old(len)))
      ensures !more ==> 8 * |payload| == consumed + validBits && validBits == old(validBits) && pos == end
    {
      if len == 0 {
        NextBlock();
        if len == 0 { return false; }
      }
      ReadByte();
      more := true;
    }

    method ReadByte()
      requires Valid() && len > 0
      modifies `pos, `len, `bits, `validBits, `read
      ensures Valid() && validBits == old(validBits) + 8 && len == old(len) - 1
      ensures pos >= old(pos)
    {
      Unread(data, pos, len, payload, read);
      len := len - 1;
      var b := Get8();
      JoinByte(payload, consumed, bits, validBits, read, b);
      bits := BitOr(bits, Shl(b, validBits));
      validBits := validBits + 8;
      read := read + 1;
    }

    /** Takes a code out of the buffer. */
    method Code(codesize: nat, codemask: nat) returns (code: nat)
      requires Valid() && codesize <= validBits && codemask == Shl(1, codesize) - 1
      modifies `bits, `validBits, `consumed
      ensures Valid() && consumed == old(consumed) + codesize && validBits == old(validBits) - codesize
      ensures code == Val(Window(payload, old(consumed), codesize)) && consumed <= 8 * |payload|
    {
      MaskIsMod(bits, codesize);
      WindowSplit(payload, consumed, codesize, validBits - codesize);
      ValSplit(Window(payload, consumed, validBits), codesize);
      code := BitAnd(bits, codemask);
      bits := Shr(bits, codesize);
      validBits := validBits - codesize;
      consumed := consumed + codesize;
    }
  
    /** Moves past bytes, never beyond the end. */
    method Skip(n: nat)
      requires pos <= |data|
      modifies `pos
      ensures pos == if old(pos) + n < |data| then old(pos) + n else |data|
    {
      pos := if pos + n < |data| then pos + n else |data|;
    }

    /** Skips what is left of the sub-blocks. */
    method SkipBlocks()
      requires Valid()
      modifies `pos, `len
      ensures pos == end <= |data|
    {
      Skip(len);
      len := Get8();
      while len > 0
        invariant pos <= |data| && end == if len == 0 then pos else AfterBlocks(data, pos + len)
        invariant len > 0 ==> pos > old(pos)
        decreases |data| - pos, len
      {
        Skip(len);
        len := Get8();
      }
    }
  }

  /** The next unread byte. */
  lemma Unread(data: seq<byte>, pos: nat, len: nat, payload: seq<byte>, read: nat)
    requires len > 0 && pos <= |data| && read <= |payload|
    requires payload[read..] == Taken(data, pos, len) + Payload(data, pos + len)
    ensures read < |payload| && payload[read] == if pos < |data| then data[pos] else 0
    ensures payload[read + 1..]
         == Taken(data, AfterByte(data, pos), len - 1) + Payload(data, AfterByte(data, pos) + (len - 1))
  {
    var pos' := if pos < |data| then pos + 1 else pos;
    assert payload[read] == payload[read..][0] == Taken(data, pos, len)[0];
    assert Taken(data, pos, len)[1..] == Taken(data, pos', len - 1);
    assert Payload(data, pos + len) == Payload(data, pos' + (len - 1));
    assert payload[read + 1..] == payload[read..][1..];
  }

  /** Joining the next byte above the buffered bits extends the window. */
  lemma JoinByte(payload: seq<byte>, consumed: nat, bits: nat, validBits: nat, read: nat, b: byte)
    requires bits == Val(Window(payload, consumed, validBits)) && consumed + validBits == 8 * read
    requires read < |payload| && b == payload[read]
    ensures BitOr(bits, Shl(b, validBits)) == Val(Window(payload, consumed, validBits + 8))
  {
    var w, n := Window(payload, consumed, validBits), 8;
    WindowSplit(payload, consumed, validBits, n);
    ValAppend(w, Window(payload, consumed + validBits, n));
    WindowOfByte(payload, read, n);
    ValBound(w);
    OrIsAdd(bits, b, validBits);
  }

  // ---- the linked dictionary ----

  /** A code's word, linked: the code before its last pixel, or -1, and its first and last pixel. */
  datatype LzwEntry = LzwEntry(prefix: int, first: byte, suffix: byte)

  /** Entry `c` is linked as the codes since the last clear code say. */
  predicate Linked(e: LzwEntry, clear: nat, cs: seq<nat>, c: nat)
    requires Legal(clear, cs) && Known(clear, cs, c)
  {
    if c < clear then e == LzwEntry(-1, c % 256, c % 256)
    else
      var j := c - clear - 2;
      e == LzwEntry(cs[j], First(clear, cs, cs[j]), First(clear, cs, cs[j + 1]))
  }

  /** The whole table is. */
  ghost predicate Table(codes: seq<LzwEntry>, clear: nat, cs: seq<nat>)
    requires Legal(clear, cs)
  {
    && |codes| == MAX_CODES && clear + 1 + |cs| <= MAX_CODES
    && forall c: nat :: Known(clear, cs, c) ==> Linked(codes[c], clear, cs, c)
  }

  /** The roots. */
  method InitCodes(codes: array<LzwEntry>, clear: nat)
    requires codes.Length == MAX_CODES && clear <= 4096
    modifies codes
    ensures Table(codes[..], clear, [])
  {
    for c := 0 to clear
      invariant forall k :: 0 <= k < c ==> codes[k] == LzwEntry(-1, k % 256, k % 256)
    {
      codes[c] := LzwEntry(-1, c % 256, c % 256);
    }
  }

  /** Clearing forgets all entries but the roots. */
  lemma TableCleared(codes: seq<LzwEntry>, clear: nat, cs: seq<nat>)
    requires Legal(clear, cs) && Table(codes, clear, cs)
    ensures Table(codes, clear, [])
  {
    forall c: nat | Known(clear, [], c) ensures Linked(codes[c], clear, [], c) {
      assert Linked(codes[c], clear, cs, c);
    }
  }

  /** The first code after a clear code defines no entry. */
  lemma TableStarted(codes: seq<LzwEntry>, clear: nat, code: nat)
    requires Table(codes, clear, []) && Legal(clear, [code]) && clear + 2 <= MAX_CODES
    ensures Table(codes, clear, [code])
  {
    forall c: nat | Known(clear, [code], c) ensures Linked(codes[c], clear, [code], c) {
      assert Known(clear, [], c) && Linked(codes[c], clear, [], c);
    }
  }

  /** Each further code defines one. */
  method AddEntry(codes: array<LzwEntry>, clear: nat, ghost cs: seq<nat>, avail: nat, oldcode: nat, code: nat)
    requires Legal(clear, cs) && Table(codes[..], clear, cs) && |cs| > 0 && oldcode == cs[|cs| - 1]
    requires avail == clear + 1 + |cs| < MAX_CODES && Legal(clear, cs + [code])
    modifies codes
    ensures Table(codes[..], clear, cs + [code])
  {
    ghost var was, grown := codes[..], cs + [code];
    assert grown[|cs|] == code;
    FirstStays(clear, cs, [code], oldcode);
    assert Known(clear, cs, oldcode) && Linked(was[oldcode], clear, cs, oldcode);
    FirstLinked(was[oldcode], clear, cs, oldcode);
    codes[avail] := LzwEntry(oldcode, codes[oldcode].first, 0);
    if code < avail {
      assert Known(clear, cs, code) && Linked(was[code], clear, cs, code);
      FirstLinked(was[code], clear, cs, code);
      FirstStays(clear, cs, [code], code);
    }
    if code == avail + 1 {
      // the source tests for the entry being defined after counting it: never true, and not needed
      assert false;
    }
    codes[avail] := codes[avail].(suffix := codes[code].first);
    forall c: nat | Known(clear, grown, c) ensures Linked(codes[..][c], clear, grown, c) {
      if c < avail {
        assert Known(clear, cs, c) && Linked(was[c], clear, cs, c);
        LinkStays(was[c], clear, cs, code, c);
      }
    }
  }

  lemma FirstLinked(e: LzwEntry, clear: nat, cs: seq<nat>, c: nat)
    requires Legal(clear, cs) && Known(clear, cs, c) && Linked(e, clear, cs, c)
    ensures e.first == First(clear, cs, c)
  {}

  lemma LinkStays(e: LzwEntry, clear: nat, cs: seq<nat>, code: nat, c: nat)
    requires Legal(clear, cs) && Legal(clear, cs + [code]) && Known(clear, cs, c) && Linked(e, clear, cs, c)
    ensures Linked(e, clear, cs + [code], c)
  {
    if c >= clear {
      var j := c - clear - 2;
      FirstStays(clear, cs, [code], cs[j]);
      FirstStays(clear, cs, [code], cs[j + 1]);
    }
  }

  // ---- drawing ----

  /** Draws the word of a code, following its links to the root first. */
  method OutGifCode(codes: array<LzwEntry>, raster: Raster, clear: nat, ghost cs: seq<nat>, code: nat)
    requires Legal(clear, cs) && Table(codes[..], clear, cs) && Known(clear, cs, code)
    requires raster.Valid() && raster.Now() == raster.walk.Canvas()
    modifies raster`curX, raster`curY, raster`step, raster`parse, raster`walk, raster.out, raster.history
    ensures raster.Valid() && raster.Now() == raster.walk.Canvas() && raster.walk.Continues(old(raster.walk))
    ensures raster.walk.drawn == old(raster.walk.drawn) + Word(clear, cs, code)
    decreases code
  {
    assert Linked(codes[..][code], clear, cs, code);
    if codes[code].prefix >= 0 {
      OutGifCode(codes, raster, clear, cs, codes[code].prefix);
    }
    raster.Put(codes[code].suffix);
  }

  // ---- the decoder ----

  /** The decoder's local variables between codes. */
  datatype Locals = Locals(codesize: nat, codemask: nat, avail: nat, oldcode: int, first: bool)

  /** They mirror the state of the stream of codes, and the table is linked accordingly. */
  ghost predicate Mirrors(l: Locals, codes: seq<LzwEntry>, clear: nat, st: Lzw) {
    match l
    case Locals(codesize, codemask, avail, oldcode, first) =>
      && st.Valid() && clear == st.Clear()
      && codesize == st.width && codemask == Shl(1, codesize) - 1 && avail == st.Avail()
      && first == !st.started && oldcode == (if st.cs == [] then -1 else st.cs[|st.cs| - 1])
      && Table(codes, clear, st.cs)
  }

  /** The frame shows the pixels decoded so far. */
  ghost predicate Showing(raster: Raster, start: Walk, soFar: seq<byte>)
    reads raster, raster.out, raster.history
  {
    match start
    case Walk(_, _, _, _, drawn, _, _) =>
      && raster.Valid() && raster.Now() == raster.walk.Canvas()
      && raster.walk.Continues(start) && raster.walk.drawn == drawn + soFar
  }

  /** Links the entry that this code completes, unless it is the first; refuses what cannot be. */
  method LinkCode(codes: array<LzwEntry>, clear: nat, code: nat, l: Locals, ghost st: Lzw)
    returns (stopped: Option<Outcome>, avail: nat)
    requires Mirrors(l, codes[..], clear, st) && code != clear && code != clear + 1
    modifies codes
    ensures stopped.Some? ==> StepOf(st, code) == Stop(stopped.value)
    ensures stopped == None ==>
              && StepOf(st, code).Next? && StepOf(st, code).st.Valid() && StepOf(st, code).st.cs == st.cs + [code]
              && avail == StepOf(st, code).st.Avail() && Known(clear, st.cs + [code], code)
              && Legal(clear, st.cs + [code]) && Table(codes[..], clear, st.cs + [code])
  {
    stopped, avail := None, l.avail;
    if code > avail { return Some(IllegalCode), avail; }
    if l.first { return Some(NoClearCode), avail; }
    if l.oldcode >= 0 {
      avail := avail + 1;
      if avail > MAX_CODES { return Some(TooManyCodes), avail; }
      StepKeepsValid(st, code);
      AddEntry(codes, clear, st.cs, avail - 1, l.oldcode, code);
    } else {
      if code == avail { return Some(IllegalCode), avail; }
      StepKeepsValid(st, code);
      assert [] + [code] == [code];
      TableStarted(codes[..], clear, code);
    }
  }

  /** A code that is neither the clear code nor the end code: links its entry, draws its word and
      widens the codes. */
  method DataCode(codes: array<LzwEntry>, raster: Raster, clear: nat, code: nat, l: Locals, ghost st: Lzw,
                  ghost start: Walk, ghost soFar: seq<byte>)
    returns (stopped: Option<Outcome>, l': Locals, ghost next: Lzw, ghost word: seq<byte>)
    requires Mirrors(l, codes[..], clear, st) && code != clear && code != clear + 1 && Showing(raster, start, soFar)
    modifies codes, raster`curX, raster`curY, raster`step, raster`parse, raster`walk, raster.out, raster.history
    ensures Showing(raster, start, soFar + word)
    ensures stopped.Some? ==> StepOf(st, code) == Stop(stopped.value) && word == []
    ensures stopped == None ==>
              && StepOf(st, code) == Next(next) && Mirrors(l', codes[..], clear, next)
              && Known(clear, next.cs, code) && word == Word(clear, next.cs, code)
  {
    l', next, word := l, st, [];
    AppendNothing(soFar);
    var avail;
    stopped, avail := LinkCode(codes, clear, code, l, st);
    if stopped.Some? { return; }
    next := StepOf(st, code).st;
    word := Word(clear, next.cs, code);
    DrawWord(codes, raster, clear, next.cs, code, start, soFar, word);
    var codesize, codemask := l.codesize, l.codemask;
    MaskIsMod(avail, codesize);
    if BitAnd(avail, codemask) == 0 && avail <= 0x0FFF {
      codesize := codesize + 1;
      codemask := Shl(1, codesize) - 1;
    }
    l' := Locals(codesize, codemask, avail, code, l.first);
  }

  method DrawWord(codes: array<LzwEntry>, raster: Raster, clear: nat, ghost cs: seq<nat>, code: nat, ghost start: Walk,
                  ghost soFar: seq<byte>, ghost word: seq<byte>)
    requires Legal(clear, cs) && Table(codes[..], clear, cs) && Known(clear, cs, code) && word == Word(clear, cs, code)
    requires Showing(raster, start, soFar)
    modifies raster`curX, raster`curY, raster`step, raster`parse, raster`walk, raster.out, raster.history
    ensures Showing(raster, start, soFar + word)
  {
    Associative(start.drawn, soFar, word);
    OutGifCode(codes, raster, clear, cs, code);
  }

  lemma Associative(a: seq<byte>, b: seq<byte>, c: seq<byte>)
    ensures a + b + c == a + (b + c)
  {}

  lemma AppendNothing(a: seq<byte>)
    ensures a + [] == a && [] + a == a
  {}

  /** The clear code starts over. */
  method ClearCode(codes: array<LzwEntry>, lzwCs: nat, clear: nat, l: Locals, ghost st: Lzw)
    returns (l': Locals, ghost next: Lzw)
    requires Mirrors(l, codes[..], clear, st) && lzwCs == st.rootBits
    ensures StepOf(st, clear) == Next(next) && next.rootBits == lzwCs && Mirrors(l', codes[..], clear, next)
  {
    TableCleared(codes[..], clear, st.cs);
    InitialWidth(lzwCs, true);
    l' := Locals(lzwCs + 1, Shl(1, lzwCs + 1) - 1, clear + 2, -1, false);
    next := StepOf(st, clear).st;
  }

  /** What the raster data at `pos` decodes to: the root size, then the codes in sub-blocks. */
  function DecodedRaster(data: seq<byte>, pos: nat): Decoded {
    var rootBits := if pos < |data| then data[pos] else 0;
    if rootBits > 12 then Decoded([], BadCodeSize)
    else
      InitialWidth(rootBits, false);
      Decode(Payload(data, AfterByte(data, pos)), 0, Initial(rootBits))
  }

  /** Any code. */
  method AnyCode(codes: array<LzwEntry>, raster: Raster, lzwCs: nat, clear: nat, code: nat, l: Locals, ghost st: Lzw,
                 ghost start: Walk, ghost soFar: seq<byte>)
    returns (stopped: Option<Outcome>, l': Locals, ghost next: Lzw, ghost word: seq<byte>)
    requires Mirrors(l, codes[..], clear, st) && lzwCs == st.rootBits && Showing(raster, start, soFar)
    modifies codes, raster`curX, raster`curY, raster`step, raster`parse, raster`walk, raster.out, raster.history
    ensures Showing(raster, start, soFar + word)
    ensures stopped.Some? ==> StepOf(st, code) == Stop(stopped.value) && word == []
    ensures stopped == None ==>
              StepOf(st, code) == Next(next) && next.rootBits == lzwCs && Mirrors(l', codes[..], clear, next)
    ensures stopped == None ==> word == WordOf(st, code)
  {
    if code == clear {
      stopped, word := None, [];
      AppendNothing(soFar);
      l', next := ClearCode(codes, lzwCs, clear, l, st);
    } else if code == clear + 1 {
      stopped, l', next, word := Some(Finished), l, st, [];
      AppendNothing(soFar);
    } else {
      stopped, l', next, word := DataCode(codes, raster, clear, code, l, st, start, soFar);
    }
  }

  lemma BeforeTwice(a: seq<byte>, b: seq<byte>, d: Decoded)
    ensures Before(a, Before(b, d)) == Before(a + b, d)
  {
    Associative(a, b, d.pixels);
  }

  /** The stream of codes, decoded so far and from here on. */
  ghost predicate Underway(all: Decoded, payload: seq<byte>, at: nat, st: Lzw, soFar: seq<byte>) {
    match all
    case Decoded(_, _) => st.Valid() && all == Before(soFar, Decode(payload, at, st))
  }

  lemma NextUnderway(all: Decoded, payload: seq<byte>, at: nat, st: Lzw, soFar: seq<byte>, code: nat, word: seq<byte>,
                     behind: nat)
    requires Underway(all, payload, at, st, soFar) && behind == at + st.width <= 8 * |payload|
    requires Val(Window(payload, at, st.width)) == code
    requires StepOf(st, code).Next? ==> word == WordOf(st, code)
    ensures StepOf(st, code).Stop? ==> all == Decoded(soFar, StepOf(st, code).outcome)
    ensures StepOf(st, code).Next? ==> Underway(all, payload, behind, StepOf(st, code).st, soFar + word)
  {
    DecodeStep(payload, at, st, code);
    if StepOf(st, code).Next? {
      BeforeTwice(soFar, word, Decode(payload, behind, StepOf(st, code).st));
    }
  }

  lemma OutOfBits(all: Decoded, payload: seq<byte>, at: nat, st: Lzw, soFar: seq<byte>)
    requires Underway(all, payload, at, st, soFar) && at + st.width > 8 * |payload|
    ensures all == Decoded(soFar, Finished)
  {}

  /** The decoder between rounds: its variables and its table mirror the state of the stream, what it
      has decoded is drawn, and the rest is still to come. */
  ghost predicate Running(reader: BlockReader, raster: Raster, codes: array<LzwEntry>, lzwCs: nat, l: Locals, st: Lzw,
                          start: Walk, soFar: seq<byte>, all: Decoded)
    reads reader, codes, raster, raster.out, raster.history
  {
    match start
    case Walk(_, _, _, _, _, _, _) =>
      && reader.Valid() && Mirrors(l, codes[..], st.Clear(), st) && st.rootBits == lzwCs
      && Showing(raster, start, soFar) && Underway(all, reader.payload, reader.consumed, st, soFar)
  }

  /** Takes the next code and acts on it. */
  method NextCode(reader: BlockReader, raster: Raster, codes: array<LzwEntry>, lzwCs: nat, clear: nat, l: Locals,
                  ghost st: Lzw, ghost start: Walk, ghost soFar: seq<byte>, ghost all: Decoded)
    returns (stopped: Option<Outcome>, l': Locals, ghost next: Lzw, ghost shown: seq<byte>)
    requires Running(reader, raster, codes, lzwCs, l, st, start, soFar, all) && clear == st.Clear()
    requires l.codesize <= reader.validBits
    modifies reader`bits, reader`validBits, reader`consumed
    modifies codes, raster`curX, raster`curY, raster`step, raster`parse, raster`walk, raster.out, raster.history
    ensures reader.Valid() && reader.validBits < old(reader.validBits) && Showing(raster, start, shown)
    ensures stopped.Some? ==> all == Decoded(shown, stopped.value)
    ensures stopped == None ==>
              Running(reader, raster, codes, lzwCs, l', next, start, shown, all) && next.Clear() == clear
  {
    ghost var at := reader.consumed;
    var code := reader.Code(l.codesize, l.codemask);
    stopped, l', next, shown := TakeCode(reader.payload, at, reader.consumed, raster, codes, lzwCs, clear, l, code, st,
                                         start, soFar, all);
  }

  /** Acts on a code that was taken at bit `at`, before bit `behind`. */
  method TakeCode(ghost payload: seq<byte>, ghost at: nat, ghost behind: nat, raster: Raster, codes: array<LzwEntry>,
                  lzwCs: nat, clear: nat, l: Locals, code: nat, ghost st: Lzw, ghost start: Walk,
                  ghost soFar: seq<byte>, ghost all: Decoded)
    returns (stopped: Option<Outcome>, l': Locals, ghost next: Lzw, ghost shown: seq<byte>)
    requires Mirrors(l, codes[..], clear, st) && lzwCs == st.rootBits && Showing(raster, start, soFar)
    requires Underway(all, payload, at, st, soFar) && behind == at + st.width <= 8 * |payload|
    requires Val(Window(payload, at, st.width)) == code
    modifies codes, raster`curX, raster`curY, raster`step, raster`parse, raster`walk, raster.out, raster.history
    ensures Showing(raster, start, shown)
    ensures stopped.Some? ==> all == Decoded(shown, stopped.value)
    ensures stopped == None ==> Mirrors(l', codes[..], next.Clear(), next) && next.rootBits == lzwCs
    ensures stopped == None ==> next.Clear() == clear && Underway(all, payload, behind, next, shown)
  {
    ghost var word;
    stopped, l', next, word := AnyCode(codes, raster, lzwCs, clear, code, l, st, start, soFar);
    NextUnderway(all, payload, at, st, soFar, code, word, behind);
    AppendNothing(soFar);
    shown := soFar + word;
  }

  /** A round of the code loop: another byte into the bit buffer, or a code out of it. */
  method CodeRound(reader: BlockReader, raster: Raster, codes: array<LzwEntry>, lzwCs: nat, clear: nat, l: Locals,
                   ghost st: Lzw, ghost start: Walk, ghost soFar: seq<byte>, ghost all: Decoded)
    returns (stopped: Option<Outcome>, l': Locals, ghost next: Lzw, ghost shown: seq<byte>)
    requires Running(reader, raster, codes, lzwCs, l, st, start, soFar, all) && clear == st.Clear()
    modifies reader`pos, reader`len, reader`bits, reader`validBits, reader`read, reader`consumed
    modifies codes, raster`curX, raster`curY, raster`step, raster`parse, raster`walk, raster.out, raster.history
    ensures Showing(raster, start, shown) && reader.pos <= |reader.data|
    ensures stopped.Some? ==>
              all == Decoded(shown, stopped.value) && (stopped.value == Finished ==> reader.pos == reader.end)
    ensures stopped == None ==>
              Running(reader, raster, codes, lzwCs, l', next, start, shown, all) && next.Clear() == clear
    ensures stopped == None ==> Shorter(reader)
  {
    if reader.validBits < l.codesize {
      stopped, l', next, shown := None, l, st, soFar;
      var more := reader.More();
      if !more {
        OutOfBits(all, reader.payload, reader.consumed, st, soFar);
        stopped := Some(Finished);
      }
    } else {
      stopped, l', next, shown := NextCode(reader, raster, codes, lzwCs, clear, l, st, start, soFar, all);
      if stopped == Some(Finished) { reader.SkipBlocks(); }
    }
  }

  /** The reader has less left: of the data, of its sub-block, or in its bit buffer. */
  twostate predicate Shorter(reader: BlockReader)
    reads reader
  {
    || old(reader.pos) < reader.pos
    || (old(reader.pos) == reader.pos && reader.len < old(reader.len))
    || (old(reader.pos) == reader.pos && reader.len == old(reader.len) && reader.validBits < old(reader.validBits))
  }

  /** The code loop, up to the end code, the end of the sub-blocks or an error. */
  method CodeLoop(reader: BlockReader, raster: Raster, codes: array<LzwEntry>, lzwCs: nat, clear: nat, l0: Locals,
                  ghost st0: Lzw, ghost start: Walk, ghost all: Decoded)
    returns (outcome: Outcome)
    requires Running(reader, raster, codes, lzwCs, l0, st0, start, [], all) && clear == st0.Clear()
    modifies reader`pos, reader`len, reader`bits, reader`validBits, reader`read, reader`consumed
    modifies codes, raster`curX, raster`curY, raster`step, raster`parse, raster`walk, raster.out, raster.history
    ensures outcome == all.outcome && Showing(raster, start, all.pixels)
    ensures reader.pos <= |reader.data| && (outcome == Finished ==> reader.pos == reader.end)
  {
    var l := l0;
    ghost var st, soFar := st0, [];
    while true
      invariant Running(reader, raster, codes, lzwCs, l, st, start, soFar, all) && clear == st.Clear()
      decreases |reader.data| - reader.pos, reader.len, reader.validBits
    {
      var stopped;
      stopped, l, st, soFar := CodeRound(reader, raster, codes, lzwCs, clear, l, st, start, soFar, all);
      if stopped.Some? { return stopped.value; }
    }
  }

  /** All the codes of a frame. */
  method ProcessCodes(reader: BlockReader, raster: Raster, codes: array<LzwEntry>, lzwCs: nat, ghost start: Walk,
                      ghost all: Decoded)
    returns (outcome: Outcome)
    requires lzwCs <= 12 && codes.Length == MAX_CODES && reader.Valid() && reader.consumed == 0 && reader.validBits == 0
    requires Underway(all, reader.payload, 0, Initial(lzwCs), []) && Showing(raster, start, [])
    modifies reader`pos, reader`len, reader`bits, reader`validBits, reader`read, reader`consumed
    modifies codes, raster`curX, raster`curY, raster`step, raster`parse, raster`walk, raster.out, raster.history
    ensures outcome == all.outcome && Showing(raster, start, all.pixels)
    ensures reader.pos <= |reader.data| && (outcome == Finished ==> reader.pos == reader.end)
  {
    Pow2Value(lzwCs);
    var clear := Shl(1, lzwCs);
    InitCodes(codes, clear);
    var l := Locals(lzwCs + 1, Shl(1, lzwCs + 1) - 1, clear + 2, -1, true);
    outcome := CodeLoop(reader, raster, codes, lzwCs, clear, l, Initial(lzwCs), start, all);
  }

  /** What the raster data at `pos` decodes to, from the root size there and the sub-blocks after it. */
  lemma RasterParts(data: seq<byte>, pos: nat, rootBits: nat, payload: seq<byte>)
    requires rootBits == (if pos < |data| then data[pos] else 0) && payload == Payload(data, AfterByte(data, pos))
    ensures rootBits > 12 ==> DecodedRaster(data, pos) == Decoded([], BadCodeSize)
    ensures rootBits <= 12 ==> Underway(DecodedRaster(data, pos), payload, 0, Initial(rootBits), [])
  {
    if rootBits <= 12 {
      InitialWidth(rootBits, false);
      AppendNothing(Decode(payload, 0, Initial(rootBits)).pixels);
    }
  }

  /** The raster data of a frame: what it decodes to is drawn, and at the end code the input is where
      the sub-blocks end. */
  method ProcessGifRaster(reader: BlockReader, raster: Raster, codes: array<LzwEntry>) returns (outcome: Outcome)
    requires codes.Length == MAX_CODES && reader.pos <= |reader.data|
    requires raster.Valid() && raster.Now() == raster.walk.Canvas()
    modifies reader, codes, raster`curX, raster`curY, raster`step, raster`parse, raster`walk, raster.out, raster.history
    ensures Showing(raster, old(raster.walk), DecodedRaster(reader.data, old(reader.pos)).pixels)
    ensures outcome == DecodedRaster(reader.data, old(reader.pos)).outcome
    ensures outcome == Finished ==> reader.pos == AfterBlocks(reader.data, AfterByte(reader.data, old(reader.pos)))
  {
    ghost var pos, start := reader.pos, raster.walk;
    AppendNothing(start.drawn);
    var lzwCs := reader.Get8();
    RasterParts(reader.data, pos, lzwCs, Payload(reader.data, reader.pos));
    if lzwCs > 12 { return BadCodeSize; }
    reader.Start();
    outcome := ProcessCodes(reader, raster, codes, lzwCs, start, DecodedRaster(reader.data, pos));
  }
}
