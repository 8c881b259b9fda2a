/** The decompressor: output buffer, Huffman blocks, stored blocks and whole streams. */
module ZBufs {
  import opened Bits
  import opened BitStream
  import opened Canonical
  import opened DeflateFormat
  import opened DeflateBlocks
  import opened ZHuffman
  import opened ZInputs
  import opened Lz77

  const UINT_MAX: nat := 0xFFFF_FFFF

  /** The largest buffer size reached from `limit` by doubling as long as the code allows it. */
  function MaxLimit(limit: nat): (m: nat)
    requires 0 < limit <= UINT_MAX
    ensures limit <= m <= UINT_MAX
    decreases UINT_MAX - limit
  {
    if limit > UINT_MAX / 2 then limit else MaxLimit(2 * limit)
  }

  /** What the literal/length code yields: a token read in full, the end of the block, or an error. */
  datatype Item = Bad | End | Tok(t: Token)

  class ZBuf {
    const src: ZInput
    var zoutStart: array<byte>
    var zout: nat
    const expandable: bool
    const zLength: Table
    const zDistance: Table

    ghost predicate Valid()
      reads this, src
    {
      && src.BitsValid()
      && 0 < zoutStart.Length <= UINT_MAX && zout <= zoutStart.Length
    }

    constructor (input: seq<byte>, outSize: nat, expandable: bool)
      requires 0 < outSize <= UINT_MAX
      ensures Valid() && TablesApart() && src.input == input && fresh(src) && src.cur == 0 && src.numBits == 0
      ensures this.expandable == expandable
      ensures fresh(zoutStart) && zoutStart.Length == outSize && zout == 0
      ensures fresh(zLength) && fresh(zLength.Arrays) && fresh(zDistance) && fresh(zDistance.Arrays)
    {
      src := new ZInput(input);
      zoutStart := new byte[outSize];
      zout := 0;
      this.expandable := expandable;
      zLength := new Table();
      zDistance := new Table();
    }

    /** The two sets of decoder tables exist side by side. */
    ghost predicate TablesApart() {
      zLength.Shape() && zDistance.Shape() && zLength != zDistance && zLength.Arrays !! zDistance.Arrays
    }

    /** The tables decode the codes with these lengths. */
    ghost predicate CodesAre(ll: seq<nat>, dl: seq<nat>)
      reads zLength, zLength.Arrays, zDistance, zDistance.Arrays
    {
      zLength.Described() == Some(ll) && zDistance.Described() == Some(dl)
    }

    /** The bytes decompressed so far. */
    ghost function Out(): seq<byte>
      requires zout <= zoutStart.Length
      reads this, zoutStart
    {
      zoutStart[..zout]
    }

    /** How many bytes the output can ever hold. */
    ghost function Capacity(): nat
      requires Valid()
      reads this, src
    {
      if expandable then MaxLimit(zoutStart.Length) else zoutStart.Length
    }

    /** Makes room for `n` more bytes after `at`; succeeds exactly when the capacity allows it,
        keeps the bytes and does not change the capacity. */
    method Zexpand(at: nat, n: nat) returns (ok: bool)
      requires Valid() && at <= zoutStart.Length < at + n
      modifies this`zoutStart, this`zout
      ensures Valid() && zout == at && Capacity() == old(Capacity())
      ensures ok <==> at + n <= Capacity()
      ensures !ok ==> zoutStart == old(zoutStart)
      ensures ok ==> fresh(zoutStart) && at + n <= zoutStart.Length && Out() == old(zoutStart[..at])
    {
      zout := at;
      if !expandable { return false; }
      var cur := at;
      var limit := zoutStart.Length;
      if UINT_MAX - cur < n { return false; }
      while cur + n > limit
        invariant 0 < limit <= UINT_MAX && zoutStart.Length <= limit && MaxLimit(limit) == MaxLimit(zoutStart.Length)
        decreases UINT_MAX - limit
      {
        if limit > UINT_MAX / 2 { return false; }
        limit := limit * 2;
      }
      var q := new byte[limit];
      forall i | 0 <= i < zoutStart.Length { q[i] := zoutStart[i]; }
      zoutStart := q;
      zout := cur;
      return true;
    }

    /** A back-reference read at `p` is the only token there. */
    lemma OnlyToken(p: nat, ll: seq<nat>, dl: seq<nat>, item: Item)
      requires CodesAre(ll, dl) && item.Tok? && TokenAt(src.input, p, ll, dl, item.t)
      ensures forall t :: TokenWithin(src.input, p, ll, dl, t) ==> item == Tok(t)
    {
      forall t | TokenWithin(src.input, p, ll, dl, t) ensures item == Tok(t) {
        TokenUnique(src.input, p, ll, dl, item.t, t);
      }
    }

    /** Reads the next item of a Huffman block: a literal, the end, or a length and its distance.
        Within the input it finds whatever stands there. */
    method ReadItem(ghost ll: seq<nat>, ghost dl: seq<nat>) returns (item: Item)
      requires Valid() && CodesAre(ll, dl)
      modifies src
      ensures Valid()
      ensures item.Tok? ==>
                && item.t.WellFormed() && TokenAt(src.input, old(src.cur), ll, dl, item.t)
                && src.cur == old(src.cur) + |TokenBits(ll, dl, item.t)|
      ensures item.End? ==>
                SymbolAt(src.input, old(src.cur), ll, END_OF_BLOCK) && src.cur == old(src.cur) + ll[END_OF_BLOCK]
      ensures forall t :: TokenWithin(src.input, old(src.cur), ll, dl, t) ==> item == Tok(t)
      ensures SymbolAt(src.input, old(src.cur), ll, END_OF_BLOCK) && old(src.cur) <= 8 * |src.input| ==> item == End
    {
      ghost var p := src.cur;
      var z := src.HuffmanDecode(zLength);
      DecodedItem(src.input, p, ll, dl, z);
      if z < 256 {
        if z < 0 { return Bad; }
        return Tok(Literal(z));
      }
      if z == 256 { return End; }
      if z >= 286 { return Bad; }
      item := ReadCopy(z, p, ll, dl);
    }

    /** The rest of a back-reference, after its length symbol. */
    method ReadCopy(lsym: nat, ghost p: nat, ghost ll: seq<nat>, ghost dl: seq<nat>) returns (item: Item)
      requires Valid() && CodesAre(ll, dl)
      requires 257 <= lsym < 286 && SymbolAt(src.input, p, ll, lsym) && src.cur == p + ll[lsym]
      modifies src
      ensures Valid() && !item.End?
      ensures item.Tok? ==> TokenAt(src.input, p, ll, dl, item.t) && src.cur == p + |TokenBits(ll, dl, item.t)|
      ensures forall t :: TokenWithin(src.input, p, ll, dl, t) && LeadingSymbol(t) == lsym ==> item == Tok(t)
    {
      var n := LengthExtraBits(lsym - 257);
      ghost var q1 := src.cur;
      var lextra := ReceiveExtra(n);
      ghost var q := src.cur;
      var z := src.HuffmanDecode(zDistance);
      forall t | TokenWithin(src.input, p, ll, dl, t) && LeadingSymbol(t) == lsym ensures t.Copy? && z == t.dsym {
        if t.Copy? { DecodedDistance(src.input, p, ll, dl, q, z, t); }
      }
      if z < 0 || z >= 30 { return Bad; }
      item := ReadDistance(lsym, lextra, z, n, p, q1, q, ll, dl);
      zLength.Kept();
      zDistance.Kept();
      OnlyToken(p, ll, dl, item);
    }

    /** The extra bits of a distance complete a back-reference. */
    method ReadDistance(lsym: nat, lextra: nat, dsym: nat, ghost n: nat, ghost p: nat, ghost q1: nat, ghost q: nat,
                        ghost ll: seq<nat>, ghost dl: seq<nat>)
      returns (item: Item)
      requires Valid() && 257 <= lsym < 286 && dsym < 30 && n == LengthExtra(lsym - 257)
      requires SymbolAt(src.input, p, ll, lsym) && q1 == p + ll[lsym]
      requires lextra == Val(Window(src.input, q1, n)) < Pow2(n)
      requires q == q1 + n && SymbolAt(src.input, q, dl, dsym) && src.cur == q + dl[dsym]
      modifies src
      ensures Valid() && item.Tok?
      ensures TokenAt(src.input, p, ll, dl, item.t) && src.cur == p + |TokenBits(ll, dl, item.t)|
    {
      var m := DistExtraBits(dsym);
      ghost var q3 := src.cur;
      var dextra := ReceiveExtra(m);
      item := Tok(Copy(lsym, lextra, dsym, dextra));
      CopyRead(src.input, p, q1, q, q3, ll, dl, item.t, n, m);
    }

    static method LengthExtraBits(i: nat) returns (n: nat)
      requires i < 29
      ensures n == LengthExtra(i) <= 13
    {
      LengthTable(i);
      n := LENGTH_EXTRA[i];
    }

    static method DistExtraBits(i: nat) returns (n: nat)
      requires i < 30
      ensures n == DistExtra(i) <= 13
    {
      DistanceTable(i);
      n := DIST_EXTRA[i];
    }

    /** `n` extra bits; none are read when there are none. */
    method ReceiveExtra(n: nat) returns (v: nat)
      requires Valid() && n <= 13
      modifies src
      ensures Valid()
      ensures v == Val(Window(src.input, old(src.cur), n)) < Pow2(n) && src.cur == old(src.cur) + n
    {
      v := 0;
      if n > 0 { v := src.Zreceive(n); }
      ValBound(Window(src.input, old(src.cur), n));
    }
  
    // ---- output ----

    /** Writes one literal at `at`; fails exactly when the output cannot grow that far. */
    method PutLiteral(at: nat, b: byte) returns (ok: bool)
      requires Valid() && at <= zoutStart.Length
      modifies this`zout, this`zoutStart, zoutStart
      ensures Valid() && Capacity() == old(Capacity()) && (zoutStart == old(zoutStart) || fresh(zoutStart))
      ensures ok <==> at + 1 <= Capacity()
      ensures ok ==> at + 1 <= zoutStart.Length && zoutStart[..at + 1] == old(zoutStart[..at]) + [b]
    {
      if at >= zoutStart.Length {
        ok := Zexpand(at, 1);
        if !ok { return; }
      }
      zoutStart[at] := b;
      return true;
    }

    /** Copies `len` bytes from `dist` places back. */
    method CopyMatch(at: nat, len: nat, dist: nat)
      requires 1 <= dist <= at && at + len <= zoutStart.Length
      modifies zoutStart
      ensures zoutStart[..at + len] == CopyBack(old(zoutStart[..at]), len, dist)
    {
      if dist == 1 {
        RepeatByte(at, len, dist);
      } else {
        CopyOverlap(at, len, dist);
      }
    }

    /** A run of one byte. */
    method RepeatByte(at: nat, len: nat, ghost dist: nat)
      requires dist == 1 <= at && at + len <= zoutStart.Length
      modifies zoutStart
      ensures zoutStart[..at + len] == CopyBack(old(zoutStart[..at]), len, dist)
    {
      ghost var out := zoutStart[..at];
      var to: nat, n: nat := at, len;
      var v := zoutStart[at - 1];
      if n > 0 {
        var more := true;
        while more
          invariant n <= len && to == at + len - n && (more <==> n > 0)
          invariant zoutStart[..to] == CopyBack(out, len - n, dist) && zoutStart[to - 1] == v
          decreases n
        {
          zoutStart[to] := v;
          to := to + 1;
          n := n - 1;
          more := n > 0;
        }
      }
    }

    /** A copy that may read what it wrote. */
    method CopyOverlap(at: nat, len: nat, dist: nat)
      requires 1 <= dist <= at && at + len <= zoutStart.Length
      modifies zoutStart
      ensures zoutStart[..at + len] == CopyBack(old(zoutStart[..at]), len, dist)
    {
      ghost var out := zoutStart[..at];
      var p: nat := at - dist;
      var to: nat, n: nat := at, len;
      if n > 0 {
        var more := true;
        while more
          invariant n <= len && to == at + len - n && p == to - dist && (more <==> n > 0)
          invariant zoutStart[..to] == CopyBack(out, len - n, dist)
          decreases n
        {
          zoutStart[to] := zoutStart[p];
          to := to + 1;
          p := p + 1;
          n := n - 1;
          more := n > 0;
        }
      }
    }

    /** Writes a back-reference at `at`; fails exactly when it points before the output or the
        output cannot grow that far. */
    method PutCopy(at: nat, len: nat, dist: nat) returns (ok: bool)
      requires Valid() && at <= zoutStart.Length && 1 <= dist && 1 <= len
      modifies this`zout, this`zoutStart, zoutStart
      ensures Valid() && Capacity() == old(Capacity()) && (zoutStart == old(zoutStart) || fresh(zoutStart))
      ensures ok <==> dist <= at && at + len <= Capacity()
      ensures ok ==> at + len <= zoutStart.Length && zoutStart[..at + len] == CopyBack(old(zoutStart[..at]), len, dist)
    {
      if at < dist { return false; }
      if len > zoutStart.Length - at {
        ok := Zexpand(at, len);
        if !ok { return; }
      }
      CopyMatch(at, len, dist);
      return true;
    }

    /** Applies a token to the first `at` bytes of the output; fails exactly when it does not apply
        or the output cannot grow that far. */
    method Put(at: nat, t: Token) returns (ok: bool, next: nat)
      requires Valid() && at <= zoutStart.Length && t.WellFormed()
      modifies this`zout, this`zoutStart, zoutStart
      ensures Valid() && Capacity() == old(Capacity()) && (zoutStart == old(zoutStart) || fresh(zoutStart))
      ensures ok <==> Applicable(old(zoutStart[..at]), t) && |Apply(old(zoutStart[..at]), t)| <= Capacity()
      ensures ok ==> next <= zoutStart.Length && zoutStart[..next] == Apply(old(zoutStart[..at]), t)
    {
      match t {
        case Literal(b) =>
          ok := PutLiteral(at, b);
          next := at + 1;
        case Copy(_, _, _, _) =>
          BaseBounds(t);
          var len, dist := LengthOf(t), DistanceOf(t);
          ok := PutCopy(at, len, dist);
          next := at + len;
      }
    }

    static function LengthOf(t: Token): (len: nat)
      requires t.Copy? && t.WellFormed()
      ensures len == t.Length()
    {
      LengthTable(t.lsym - 257);
      LENGTH_BASE[t.lsym - 257] + t.lextra
    }

    static function DistanceOf(t: Token): (dist: nat)
      requires t.Copy? && t.WellFormed()
      ensures dist == t.Distance()
    {
      DistanceTable(t.dsym);
      DIST_BASE[t.dsym] + t.dextra
    }

    // ---- a Huffman block ----

    /** One round of the block loop, with `at` bytes of output so far: a token read and applied, the
        end of the block, or an error. It takes every round that an acceptable block has. */
    method BlockStep(at: nat, ghost ll: seq<nat>, ghost dl: seq<nat>) returns (r: Item, next: nat)
      requires Valid() && CodesAre(ll, dl) && at <= zoutStart.Length
      modifies this`zout, this`zoutStart, zoutStart, src
      ensures CodesAre(ll, dl) && Valid() && Capacity() == old(Capacity())
      ensures (zoutStart == old(zoutStart) || fresh(zoutStart))
      ensures r.Tok? ==>
                TokenAt(src.input, old(src.cur), ll, dl, r.t) && src.cur == old(src.cur) + |TokenBits(ll, dl, r.t)|
      ensures r.Tok? ==> Applicable(old(zoutStart[..at]), r.t)
      ensures r.Tok? ==> next <= zoutStart.Length && zoutStart[..next] == Apply(old(zoutStart[..at]), r.t)
      ensures r.End? ==>
                SymbolAt(src.input, old(src.cur), ll, END_OF_BLOCK) && src.cur == old(src.cur) + ll[END_OF_BLOCK]
      ensures r.End? ==> zout == at && Out() == old(zoutStart[..at])
      ensures forall t ::
                (TokenWithin(src.input, old(src.cur), ll, dl, t) && Applicable(old(zoutStart[..at]), t)
                 && |Apply(old(zoutStart[..at]), t)| <= Capacity())
                ==> r == Tok(t)
      ensures SymbolAt(src.input, old(src.cur), ll, END_OF_BLOCK) ==>
                old(src.cur) + ll[END_OF_BLOCK] <= 8 * |src.input| ==> r == End
    {
      r, next := TakeItem(at, ll, dl);
      zLength.Kept();
      zDistance.Kept();
    }

    /** The same, with the tables out of sight. */
    method TakeItem(at: nat, ghost ll: seq<nat>, ghost dl: seq<nat>) returns (r: Item, next: nat)
      requires Valid() && CodesAre(ll, dl) && at <= zoutStart.Length
      modifies this`zout, this`zoutStart, zoutStart, src
      ensures Valid() && Capacity() == old(Capacity()) && (zoutStart == old(zoutStart) || fresh(zoutStart))
      ensures r.Tok? ==>
                TokenAt(src.input, old(src.cur), ll, dl, r.t) && src.cur == old(src.cur) + |TokenBits(ll, dl, r.t)|
      ensures r.Tok? ==> Applicable(old(zoutStart[..at]), r.t)
      ensures r.Tok? ==> next <= zoutStart.Length && zoutStart[..next] == Apply(old(zoutStart[..at]), r.t)
      ensures r.End? ==>
                SymbolAt(src.input, old(src.cur), ll, END_OF_BLOCK) && src.cur == old(src.cur) + ll[END_OF_BLOCK]
      ensures r.End? ==> zout == at && Out() == old(zoutStart[..at])
      ensures forall t ::
                (TokenWithin(src.input, old(src.cur), ll, dl, t) && Applicable(old(zoutStart[..at]), t)
                 && |Apply(old(zoutStart[..at]), t)| <= Capacity())
                ==> r == Tok(t)
      ensures SymbolAt(src.input, old(src.cur), ll, END_OF_BLOCK) ==>
                old(src.cur) + ll[END_OF_BLOCK] <= 8 * |src.input| ==> r == End
    {
      next := at;
      r := ReadItem(ll, dl);
      match r {
        case Bad =>
        case End =>
          zout := at;
          if src.hitZeofOnce && src.numBits < 16 { r := Bad; }
        case Tok(t) =>
          var ok;
          ok, next := Put(at, t);
          if !ok { r := Bad; }
      }
    }

    /** Decompresses the tokens of one block. What it accepts stands in the stream and its expansion
        is what it appends; it accepts every block that is well formed, within the input and within
        the capacity. */
    method ParseHuffmanBlock(ghost ll: seq<nat>, ghost dl: seq<nat>) returns (ok: bool, ghost ts: seq<Token>)
      requires Valid() && CodesAre(ll, dl)
      modifies this`zout, this`zoutStart, zoutStart, src
      ensures Valid() && Capacity() == old(Capacity()) && (zoutStart == old(zoutStart) || fresh(zoutStart))
      ensures ok ==> TokensAt(src.input, old(src.cur), ll, dl, ts, src.cur)
      ensures ok ==> Expandable(old(Out()), ts) && Out() == Expand(old(Out()), ts)
      ensures !ok ==>
                forall want: seq<Token>, end: nat :: !BlockGoal(src.input, old(src.cur), ll, dl, old(Out()),
                                                                old(Capacity()), want, end)
    {
      ghost var has := exists w: seq<Token>, e: nat :: BlockGoal(src.input, src.cur, ll, dl, Out(), Capacity(), w, e);
      ghost var want: seq<Token>, end: nat := [], 0;
      if has { want, end :| BlockGoal(src.input, src.cur, ll, dl, Out(), Capacity(), want, end); }
      ok, ts := BlockLoop(ll, dl, want, end, Out());
    }

    /** A round with the tokens decoded so far, on the way to an acceptable block `want`. */
    method BlockRound(at: nat, ghost ll: seq<nat>, ghost dl: seq<nat>, ghost p: nat, ghost out: seq<byte>,
                      ghost ts: seq<Token>, ghost want: seq<Token>, ghost end: nat)
      returns (r: Item, next: nat, ghost us: seq<Token>)
      requires Valid() && CodesAre(ll, dl) && at <= zoutStart.Length
      requires Progress(src.input, p, ll, dl, out, ts, src.cur, zoutStart[..at])
      requires BlockGoal(src.input, p, ll, dl, out, Capacity(), want, end) ==> ts <= want
      modifies this`zout, this`zoutStart, zoutStart, src
      ensures CodesAre(ll, dl) && Valid() && Capacity() == old(Capacity())
      ensures (zoutStart == old(zoutStart) || fresh(zoutStart))
      ensures r.Bad? ==> !BlockGoal(src.input, p, ll, dl, out, Capacity(), want, end)
      ensures r.End? ==>
                && us == ts && TokensAt(src.input, p, ll, dl, ts, src.cur) && Expandable(out, ts)
                && Out() == Expand(out, ts)
      ensures r.Tok? ==>
                at < next <= zoutStart.Length && Progress(src.input, p, ll, dl, out, us, src.cur, zoutStart[..next])
      ensures r.Tok? && BlockGoal(src.input, p, ll, dl, out, Capacity(), want, end) ==> us <= want
    {
      ghost var q, now := src.cur, zoutStart[..at];
      if BlockGoal(src.input, p, ll, dl, out, Capacity(), want, end) {
        ghost var _ := ProgressTowards(src.input, p, ll, dl, out, Capacity(), want, end, ts, q, now);
      }
      us := ts;
      r, next := BlockStep(at, ll, dl);
      if r.End? {
        RunEnd(src.input, p, ll, dl, ts, q);
      } else if r.Tok? {
        ProgressStep(src.input, p, ll, dl, out, ts, q, now, r.t);
        us := ts + [r.t];
      }
    }

    method BlockLoop(ghost ll: seq<nat>, ghost dl: seq<nat>, ghost want: seq<Token>, ghost end: nat,
                     ghost out: seq<byte>)
      returns (ok: bool, ghost ts: seq<Token>)
      requires Valid() && CodesAre(ll, dl) && out == Out()
      modifies this`zout, this`zoutStart, zoutStart, src
      ensures Valid() && Capacity() == old(Capacity()) && (zoutStart == old(zoutStart) || fresh(zoutStart))
      ensures ok ==> TokensAt(src.input, old(src.cur), ll, dl, ts, src.cur)
      ensures ok ==> Expandable(out, ts) && Out() == Expand(out, ts)
      ensures !ok ==> !BlockGoal(src.input, old(src.cur), ll, dl, out, old(Capacity()), want, end)
    {
      ghost var p, cap := src.cur, Capacity();
      ts := [];
      var at := zout;
      ProgressStart(src.input, p, ll, dl, out);
      while true
        invariant Valid() && CodesAre(ll, dl) && Capacity() == cap && (zoutStart == old(zoutStart) || fresh(zoutStart))
        invariant at <= zoutStart.Length && Progress(src.input, p, ll, dl, out, ts, src.cur, zoutStart[..at])
        invariant BlockGoal(src.input, p, ll, dl, out, cap, want, end) ==> ts <= want
        decreases cap - at
      {
        var r;
        r, at, ts := BlockRound(at, ll, dl, p, out, ts, want, end);
        if r.Bad? { return false, ts; }
        if r.End? { return true, ts; }
      }
    }

    // ---- a stored block ----

    method DiscardPartialByte()
      requires Valid()
      modifies src
      ensures Valid() && src.cur == 8 * Aligned(old(src.cur))
    {
      ToBoundary(src.cur, src.numBits);
      if src.numBits % 8 != 0 {
        var _ := src.Zreceive(src.numBits % 8);
      }
    }

    /** Bits of the last byte that was buffered lead to the next byte. */
    lemma ToBoundary(p: nat, n: nat)
      requires (p + n) % 8 == 0
      ensures p + n % 8 == 8 * Aligned(p)
    {
      var k, r := n / 8, n % 8;
      assert p + r == 8 * ((p + n) / 8 - k);
    }

    /** The four header bytes: what is buffered first, then bytes of the input. */
    method StoredHeader() returns (header: array<byte>)
      requires Valid() && src.cur % 8 == 0
      modifies src
      ensures Valid() && src.numBits == 0 && src.cur == old(src.cur) + 32
      ensures fresh(header) && header.Length == 4
      ensures forall j :: 0 <= j < 4 ==> header[j] == ByteAt(src.input, old(src.cur) / 8 + j)
    {
      header := new byte[4];
      ghost var k0 := src.cur / 8;
      var k := DrainHeader(header, k0);
      while k < 4
        invariant Valid() && k <= 4 && src.cur == 8 * (k0 + k) && src.numBits == 0
        invariant forall j :: 0 <= j < k ==> header[j] == ByteAt(src.input, k0 + j)
      {
        var b := src.Zget8Aligned();
        header[k] := b;
        k := k + 1;
      }
    }

    /** Moves the buffered bytes into the header. */
    method DrainHeader(header: array<byte>, ghost k0: nat) returns (k: nat)
      requires Valid() && src.cur == 8 * k0 && header.Length == 4
      modifies src, header
      ensures Valid() && src.numBits == 0 && k <= 4 && src.cur == 8 * (k0 + k)
      ensures forall j :: 0 <= j < k ==> header[j] == ByteAt(src.input, k0 + j)
    {
      k := 0;
      while src.numBits > 0
        invariant Valid() && 0 <= k <= 4 && src.cur == 8 * (k0 + k) && src.numBits <= 8 * (4 - k)
        invariant forall j :: 0 <= j < k ==> header[j] == ByteAt(src.input, k0 + j)
        decreases src.numBits
      {
        var b := src.DrainByte();
        assert b == ByteAt(src.input, k0 + k);
        header[k] := b;
        k := k + 1;
      }
    }

    /** Copies a stored block to the output. What it accepts stands in the stream; it accepts every
        stored block that the capacity allows. */
    method ParseUncompressedBlock() returns (ok: bool, ghost data: seq<byte>)
      requires Valid()
      modifies this`zout, this`zoutStart, zoutStart, src
      ensures Valid() && Capacity() == old(Capacity()) && (zoutStart == old(zoutStart) || fresh(zoutStart))
      ensures ok ==> StoredAt(src.input, old(src.cur), data) && src.cur == StoredEnd(old(src.cur), data)
      ensures ok ==> Out() == old(Out()) + data
      ensures !ok ==> forall d :: StoredAt(src.input, old(src.cur), d) ==> |old(Out())| + |d| > Capacity()
    {
      var len;
      ok, len := ReadStoredLength();
      data := [];
      if !ok { return; }
      if zout + len > zoutStart.Length {
        ok := Zexpand(zout, len);
        if !ok { return; }
      }
      data := src.input[src.zbuffer..src.zbuffer + len];
      CopyInput(len);
    }

    /** Reads the header of a stored block; accepts it exactly when a stored block follows. */
    method ReadStoredLength() returns (ok: bool, len: nat)
      requires Valid()
      modifies src
      ensures Valid()
      ensures ok ==> src.numBits == 0 && src.cur == 8 * src.zbuffer && src.zbuffer + len <= |src.input|
      ensures ok ==> StoredAt(src.input, old(src.cur), src.input[src.zbuffer..src.zbuffer + len])
                     && src.cur + 8 * len == 8 * (Aligned(old(src.cur)) + 4 + len)
      ensures forall d :: StoredAt(src.input, old(src.cur), d) ==> ok && len == |d|
    {
      ghost var p := src.cur;
      DiscardPartialByte();
      var header := StoredHeader();
      len := header[1] as int * 256 + header[0] as int;
      var nlen: nat := header[3] as int * 256 + header[2] as int;
      src.BehindStoredHeader(p, len, nlen);
      if nlen != 0xFFFF - len { return false, len; }
      if src.zbuffer + len > |src.input| { return false, len; }
      return true, len;
    }

    /** Appends the next `len` bytes of the input. */
    method CopyInput(len: nat)
      requires Valid() && src.numBits == 0 && src.cur == 8 * src.zbuffer
      requires src.zbuffer + len <= |src.input| && zout + len <= zoutStart.Length
      modifies this`zout, zoutStart, src`zbuffer, src`cur
      ensures Valid() && src.cur == old(src.cur) + 8 * len
      ensures Out() == old(Out()) + src.input[old(src.zbuffer)..old(src.zbuffer) + len]
    {
      forall i | 0 <= i < len { zoutStart[zout + i] := src.input[src.zbuffer + i]; }
      src.zbuffer := src.zbuffer + len;
      src.cur := src.cur + 8 * len;
      zout := zout + len;
    }
  
    // ---- the header of a dynamic block ----

    /** The counts, and the lengths of the code length code in the order they are sent. */
    method ReadCounts() returns (hlit: nat, hdist: nat, sizes: seq<nat>, ghost sent: seq<nat>)
      requires Valid()
      modifies src
      ensures Valid() && 257 <= hlit <= 288 && 1 <= hdist <= 32 && 4 <= |sent| <= 19
      ensures forall i :: 0 <= i < |sent| ==> sent[i] < 8
      ensures CountsAt(src.input, old(src.cur), hlit, hdist, sent, src.cur) && sizes == CodeLengthLengths(sent)
    {
      ghost var p := src.cur;
      var a := ReceiveField(5);
      var b := ReceiveField(5);
      var c := ReceiveField(4);
      hlit, hdist := a + 257, b + 1;
      sizes, sent := ReadSizes(c + 4);
    }

    /** A field of `n` bits. */
    method ReceiveField(n: nat) returns (v: nat)
      requires Valid() && n <= 16
      modifies src
      ensures Valid() && v == Val(Window(src.input, old(src.cur), n)) < SmallPow2(n) && src.cur == old(src.cur) + n
    {
      ValBound(Window(src.input, src.cur, n));
      Pow2Value(n);
      v := src.Zreceive(n);
    }

    method ReadSizes(hclen: nat) returns (sizes: seq<nat>, ghost sent: seq<nat>)
      requires Valid() && hclen <= 19
      modifies src
      ensures Valid() && |sent| == hclen && SentAt(src.input, old(src.cur), sent) && src.cur == old(src.cur) + 3 * hclen
      ensures forall i :: 0 <= i < |sent| ==> sent[i] < 8
      ensures sizes == CodeLengthLengths(sent)
    {
      ghost var p := src.cur;
      var codelengthSizes := new nat[19](_ => 0);
      sent := [];
      for i := 0 to hclen
        invariant Valid() && |sent| == i && SentAt(src.input, p, sent) && src.cur == p + 3 * i
        invariant forall j :: 0 <= j < i ==> sent[j] < 8
        invariant forall s :: 0 <= s < 19 ==> codelengthSizes[s] == if SentAs(s) < i then sent[SentAs(s)] else 0
      {
        ghost var q := src.cur;
        var v := ReceiveField(3);
        var place := DezigzagAt(i);
        codelengthSizes[place] := v;
        OneMoreSent(src.input, p, sent, v, q);
        sent := sent + [v];
      }
      sizes := codelengthSizes[..];
    }

    /** Decodes one symbol of the run-length coding with its extra bits. */
    method ReadLengthSymbol(z: Table, ghost cl: seq<nat>) returns (s: Option<LengthSymbol>)
      requires Valid() && z.Described() == Some(cl) && |cl| == 19
      modifies src
      ensures Valid()
      ensures s.Some? ==>
                && LengthSymbolAt(src.input, old(src.cur), cl, s.value)
                && src.cur == old(src.cur) + |SymbolBits(cl, s.value)|
      ensures forall t :: LengthSymbolAt(src.input, old(src.cur), cl, t) && old(src.cur) <= 8 * |src.input| ==>
                s == Some(t)
    {
      ghost var p := src.cur;
      var c := src.HuffmanDecode(z);
      LengthSymbolStarts(src.input, p, cl);
      if c < 0 || c >= 19 {
        return None;
      }
      ghost var q := src.cur;
      var t := ReadLengthExtra(c);
      LengthSymbolRead(src.input, p, q, cl, t);
      return Some(t);
    }

    /** The extra bits of a length symbol. */
    method ReadLengthExtra(c: nat) returns (s: LengthSymbol)
      requires Valid() && c < 19
      modifies src
      ensures Valid() && s.WellFormed() && s.Symbol() == c
      ensures s.Extra() == Val(Window(src.input, old(src.cur), s.ExtraBits()))
      ensures src.cur == old(src.cur) + s.ExtraBits()
    {
      if c < 16 {
        s := Len(c);
      } else if c == 16 {
        var e := ReceiveField(2);
        s := Repeat(e);
      } else if c == 17 {
        var e := ReceiveField(3);
        s := Zeros(e);
      } else {
        var e := ReceiveField(7);
        s := LongZeros(e);
      }
    }
  
    /** Stores the lengths of one symbol; fails exactly when there is nothing to repeat or the lengths
        would go past the total. */
    static method FillRun(lencodes: array<nat>, n: nat, ntot: nat, s: LengthSymbol) returns (ok: bool)
      requires lencodes.Length == 286 + 32 + 137 && n < ntot <= 320 && s.WellFormed()
      modifies lencodes
      ensures ok <==> RunApplies(old(lencodes[..n]), s) && n + s.Run() <= ntot
      ensures ok ==> lencodes[..n + s.Run()] == ApplyRun(old(lencodes[..n]), s)
    {
      if s.Len? {
        lencodes[n] := s.n;
        return true;
      }
      var fill, c := 0, s.Run();
      if s.Repeat? {
        if n == 0 { return false; }
        fill := lencodes[n - 1];
      }
      if ntot - n < c { return false; }
      forall i | n <= i < n + c { lencodes[i] := fill; }
      return true;
    }

    /** One round of the code length loop. */
    method LengthStep(z: Table, ghost cl: seq<nat>, lencodes: array<nat>, n: nat, ntot: nat,
                      ghost next: LengthSymbol, ghost goal: bool)
      returns (s: Option<LengthSymbol>)
      requires Valid() && z.Described() == Some(cl) && |cl| == 19 && lencodes.Length == 286 + 32 + 137
      requires n < ntot <= 320
      requires lencodes != z.fast && lencodes != z.firstcode && lencodes != z.maxcode
      requires lencodes != z.firstsymbol && lencodes != z.size && lencodes != z.value
      requires goal ==> LengthSymbolAt(src.input, src.cur, cl, next) && src.cur <= 8 * |src.input|
      requires goal ==> RunApplies(lencodes[..n], next) && n + next.Run() <= ntot
      modifies src, lencodes
      ensures Valid() && z.Described() == Some(cl)
      ensures s.Some? ==>
                && LengthSymbolAt(src.input, old(src.cur), cl, s.value)
                && src.cur == old(src.cur) + |SymbolBits(cl, s.value)|
      ensures s.Some? ==> RunApplies(old(lencodes[..n]), s.value) && n + s.value.Run() <= ntot
                          && lencodes[..n + s.value.Run()] == ApplyRun(old(lencodes[..n]), s.value)
      ensures goal ==> s == Some(next)
    {
      s := ReadLengthSymbol(z, cl);
      if s.Some? {
        var ok := FillRun(lencodes, n, ntot, s.value);
        if !ok { s := None; }
      }
      z.Kept();
    }

    /** The same round with the symbols decoded so far, on the way to acceptable symbols `want`. */
    method LengthRound(z: Table, ghost cl: seq<nat>, lencodes: array<nat>, n: nat, ntot: nat, ghost p: nat,
                       ghost ss: seq<LengthSymbol>, ghost want: seq<LengthSymbol>, ghost end: nat,
                       ghost goal: bool)
      returns (ok: bool, next: nat, ghost ts: seq<LengthSymbol>)
      requires Valid() && z.Described() == Some(cl) && |cl| == 19 && lencodes.Length == 286 + 32 + 137
      requires n < ntot <= 320
      requires lencodes != z.fast && lencodes != z.firstcode && lencodes != z.maxcode
      requires lencodes != z.firstsymbol && lencodes != z.size && lencodes != z.value
      requires LengthsProgress(src.input, p, cl, ss, src.cur, lencodes[..n])
      requires goal == LengthsGoal(src.input, p, cl, ntot, want, end) && (goal ==> ss <= want)
      modifies src, lencodes
      ensures Valid() && z.Described() == Some(cl)
      ensures ok ==> n < next <= ntot && LengthsProgress(src.input, p, cl, ts, src.cur, lencodes[..next])
      ensures goal ==> ok && ts <= want
    {
      ghost var q, lens := src.cur, lencodes[..n];
      ghost var expected := Len(0);
      if goal { expected := LengthsTowards(src.input, p, cl, ntot, want, end, ss, q, lens); }
      ts := ss;
      var s := LengthStep(z, cl, lencodes, n, ntot, expected, goal);
      if s.None? { return false, n, ts; }
      LengthsNext(src.input, p, cl, ss, q, lens, s.value);
      return true, n + s.value.Run(), ss + [s.value];
    }

    /** The code length loop: rebuilds exactly the lengths that were coded. */
    method ReadLengths(z: Table, ghost cl: seq<nat>, ntot: nat, ghost want: seq<LengthSymbol>, ghost end: nat)
      returns (ok: bool, lencodes: array<nat>, ghost ss: seq<LengthSymbol>)
      requires Valid() && z.Described() == Some(cl) && |cl| == 19 && ntot <= 320
      modifies src
      ensures Valid() && fresh(lencodes) && lencodes.Length == 286 + 32 + 137
      ensures ok ==> LengthsProgress(src.input, old(src.cur), cl, ss, src.cur, lencodes[..ntot])
      ensures !ok ==> !LengthsGoal(src.input, old(src.cur), cl, ntot, want, end)
      ensures ok && LengthsGoal(src.input, old(src.cur), cl, ntot, want, end) ==> ss == want
    {
      ghost var p, goal := src.cur, LengthsGoal(src.input, src.cur, cl, ntot, want, end);
      lencodes := new nat[286 + 32 + 137];
      z.Kept();
      ss := [];
      LengthsStart(src.input, p, cl);
      var n := 0;
      while n < ntot
        invariant Valid() && z.Described() == Some(cl) && n <= ntot
        invariant LengthsProgress(src.input, p, cl, ss, src.cur, lencodes[..n])
        invariant goal ==> ss <= want
      {
        ok, n, ss := LengthRound(z, cl, lencodes, n, ntot, p, ss, want, end, goal);
        if !ok { return; }
      }
      ok := true;
      if LengthsGoal(src.input, p, cl, ntot, want, end) { WholeRun(ss, want); }
    }
  
    /** Builds both codes of a dynamic block from the code lengths. */
    method BuildCodes(l: seq<nat>, hlit: nat) returns (ok: bool)
      requires TablesApart() && IsLengths(l) && hlit <= |l| && hlit <= NSYMS && |l| - hlit <= NSYMS
      modifies zLength`lengths, zLength.Arrays, zDistance`lengths, zDistance.Arrays
      ensures ok <==> KraftSum(l[..hlit]) <= 0x8000 && KraftSum(l[hlit..]) <= 0x8000
      ensures ok ==> CodesAre(l[..hlit], l[hlit..])
    {
      ok := zLength.Build(l[..hlit]);
      if !ok { return; }
      ok := BuildDistance(l[hlit..]);
    }

    method BuildDistance(l: seq<nat>) returns (ok: bool)
      requires TablesApart() && IsLengths(l) && |l| <= NSYMS
      modifies zDistance`lengths, zDistance.Arrays
      ensures ok <==> KraftSum(l) <= 0x8000
      ensures ok ==> zDistance.Described() == Some(l)
      ensures zLength.Described() == old(zLength.Described())
    {
      ok := zDistance.Build(l);
      zLength.Kept();
    }

    /** Builds the code length code and reads the code lengths with it. */
    method ReadCodedLengths(sizes: seq<nat>, ntot: nat, ghost want: seq<LengthSymbol>, ghost end: nat)
      returns (ok: bool, l: seq<nat>, ghost ss: seq<LengthSymbol>)
      requires Valid() && |sizes| == 19 && IsLengths(sizes) && ntot <= 320
      modifies src
      ensures Valid()
      ensures ok ==>
                && KraftSum(sizes) <= 0x8000 && |l| == ntot
                && LengthsProgress(src.input, old(src.cur), sizes, ss, src.cur, l)
      ensures ok && LengthsGoal(src.input, old(src.cur), sizes, ntot, want, end) ==> ss == want
      ensures !ok ==> KraftSum(sizes) > 0x8000 || !LengthsGoal(src.input, old(src.cur), sizes, ntot, want, end)
    {
      l, ss := [], [];
      var codelength := new Table();
      ok := codelength.Build(sizes);
      if !ok { return; }
      var lencodes;
      ok, lencodes, ss := ReadLengths(codelength, sizes, ntot, want, end);
      l := lencodes[..ntot];
    }

    /** Reads the header of a dynamic block up to its code lengths. */
    method ReadHeader(ghost want: DynamicHeader)
      returns (ok: bool, hlit: nat, l: seq<nat>, ghost h: DynamicHeader, ghost q: nat)
      requires Valid()
      modifies src
      ensures Valid()
      ensures ok ==> HeaderRead(src.input, old(src.cur), q, h, src.cur, l) && h.hlit == hlit
      ensures HeaderGoal(src.input, old(src.cur), want) ==> ok && h == want
    {
      ghost var p, end := src.cur, src.cur + if want.WellFormed() then want.Size() else 0;
      var hdist, sizes;
      ghost var sent, ss;
      hlit, hdist, sizes, sent := ReadCounts();
      q := src.cur;
      if HeaderGoal(src.input, p, want) { HeaderGoalParts(src.input, p, want, hlit, hdist, sent, q); }
      ok, l, ss := ReadCodedLengths(sizes, hlit + hdist, want.symbols, end);
      h := DynamicHeader(hlit, hdist, sent, ss);
    }

    /** Reads the header of a dynamic block and builds its codes. What it accepts stands in the stream;
        it accepts every well-formed header within the input. */
    method ComputeHuffmanCodes(ghost want: DynamicHeader) returns (ok: bool, ghost h: DynamicHeader)
      requires Valid() && TablesApart()
      modifies src, zLength`lengths, zLength.Arrays, zDistance`lengths, zDistance.Arrays
      ensures src.BitsValid()
      ensures ok ==> HeaderAt(src.input, old(src.cur), h) && src.cur == old(src.cur) + h.Size()
      ensures ok ==> CodesAre(h.LiteralLengths(), h.DistanceLengths())
      ensures HeaderGoal(src.input, old(src.cur), want) ==> ok && h == want
    {
      ghost var p := src.cur;
      var hlit, l;
      ghost var q;
      ok, hlit, l, h, q := ReadHeader(want);
      if !ok { return; }
      HeaderBuilt(src.input, p, q, h, src.cur, l);
      ok := BuildCodes(l, hlit);
    }
  
    // ---- whole streams ----

    /** A Huffman block with the codes at hand; what it reads is the only thing that stands there. */
    method ParseTokens(ghost ll: seq<nat>, ghost dl: seq<nat>, ghost want: seq<Token>, ghost end: nat)
      returns (ok: bool, ghost ts: seq<Token>)
      requires Valid() && CodesAre(ll, dl)
      modifies this`zout, this`zoutStart, zoutStart, src
      ensures Valid() && Capacity() == old(Capacity()) && (zoutStart == old(zoutStart) || fresh(zoutStart))
      ensures ok ==> TokensAt(src.input, old(src.cur), ll, dl, ts, src.cur)
      ensures ok ==> Expandable(old(Out()), ts) && Out() == Expand(old(Out()), ts)
      ensures BlockGoal(src.input, old(src.cur), ll, dl, old(Out()), Capacity(), want, end) ==> ok && ts == want
    {
      ghost var p, out := src.cur, Out();
      assert IsLengths(ll) && Fits(ll) && IsLengths(dl) && Fits(dl);
      ok, ts := ParseHuffmanBlock(ll, dl);
      if ok && BlockGoal(src.input, p, ll, dl, out, Capacity(), want, end) {
        TokensUnique(src.input, p, ll, dl, ts, src.cur, want, end);
      }
    }

    /** A Huffman block whose codes are given: builds their tables and decompresses it. */
    method ParseWithCodes(ll: seq<nat>, dl: seq<nat>, ghost want: seq<Token>, ghost end: nat)
      returns (ok: bool, ghost ts: seq<Token>)
      requires Valid() && TablesApart()
      requires IsLengths(ll) && |ll| <= NSYMS && KraftSum(ll) <= 0x8000 && IsLengths(dl) && |dl| <= NSYMS
      requires KraftSum(dl) <= 0x8000
      modifies this`zout, this`zoutStart, zoutStart, src, zLength`lengths, zLength.Arrays, zDistance`lengths
      modifies zDistance.Arrays
      ensures Valid() && Capacity() == old(Capacity()) && (zoutStart == old(zoutStart) || fresh(zoutStart))
      ensures ok ==> TokensAt(src.input, old(src.cur), ll, dl, ts, src.cur)
      ensures ok ==> Expandable(old(Out()), ts) && Out() == Expand(old(Out()), ts)
      ensures BlockGoal(src.input, old(src.cur), ll, dl, old(Out()), Capacity(), want, end) ==> ok && ts == want
    {
      ts := [];
      ok := zLength.Build(ll);
      if !ok { return; }
      ok := BuildDistance(dl);
      if !ok { return; }
      ok, ts := ParseTokens(ll, dl, want, end);
    }

    method ParseDynamicBlock(ghost wantHeader: DynamicHeader, ghost want: seq<Token>, ghost wantMid: nat,
                             ghost end: nat)
      returns (ok: bool, ghost h: DynamicHeader, ghost mid: nat, ghost ts: seq<Token>)
      requires Valid() && TablesApart()
      modifies this`zout, this`zoutStart, zoutStart, src, zLength`lengths, zLength.Arrays, zDistance`lengths
      modifies zDistance.Arrays
      ensures Valid() && Capacity() == old(Capacity()) && (zoutStart == old(zoutStart) || fresh(zoutStart))
      ensures ok ==> HeaderAt(src.input, old(src.cur), h) && mid == old(src.cur) + h.Size()
                     && TokensAt(src.input, mid, h.LiteralLengths(), h.DistanceLengths(), ts, src.cur)
      ensures ok ==> Expandable(old(Out()), ts) && Out() == Expand(old(Out()), ts)
      ensures HeaderGoal(src.input, old(src.cur), wantHeader) && wantMid == old(src.cur) + wantHeader.Size()
              && BlockGoal(src.input, wantMid, wantHeader.LiteralLengths(), wantHeader.DistanceLengths(), old(Out()),
                           Capacity(), want, end)
              ==> (ok && h == wantHeader && ts == want)
    {
      ts := [];
      ghost var p := src.cur;
      ok, h := ComputeHuffmanCodes(wantHeader);
      mid := src.cur;
      if !ok { return; }
      if HeaderGoal(src.input, p, wantHeader) && wantMid == p + wantHeader.Size() { assert wantMid == mid; }
      ok, ts := ParseTokens(h.LiteralLengths(), h.DistanceLengths(), want, end);
    }

    /** One block: its final bit, its type and its contents. What it accepts stands in the stream and
        is what it appends; it accepts every block that an acceptable stream can go on with. */
    method ParseBlock(ghost wantLast: bool, ghost want: Block) returns (ok: bool, last: bool, ghost b: Block)
      requires Valid() && TablesApart()
      modifies this`zout, this`zoutStart, zoutStart, src, zLength`lengths, zLength.Arrays, zDistance`lengths
      modifies zDistance.Arrays
      ensures Valid() && Capacity() == old(Capacity()) && (zoutStart == old(zoutStart) || fresh(zoutStart))
      ensures ok ==> BlockAt(src.input, old(src.cur), last, b) && src.cur == b.End(old(src.cur))
      ensures ok ==> b.Expandable(old(Out())) && Out() == b.Expand(old(Out()))
      ensures NextGoal(src.input, old(src.cur), old(Out()), Capacity(), wantLast, want) ==>
                ok && last == wantLast && b == want
    {
      ghost var p, out := src.cur, Out();
      var f := ReceiveField(1);
      ghost var q1 := src.cur;
      var t := ReceiveField(2);
      last := f != 0;
      ghost var q := src.cur;
      ghost var mid, end := 0, 0;
      if NextGoal(src.input, p, out, Capacity(), wantLast, want) {
        mid, end := NextGoalParts(src.input, p, q1, q, out, Capacity(), wantLast, want);
      }
      ok, b := ParseContents(t, want, mid, end, last, p, q1);
    }

    /** The contents of a block of type `t`. */
    method ParseContents(t: nat, ghost want: Block, ghost mid: nat, ghost end: nat, ghost last: bool, ghost p: nat,
                         ghost q1: nat)
      returns (ok: bool, ghost b: Block)
      requires Valid() && TablesApart() && t < 4 && StartRead(src.input, p, q1, src.cur, last, t)
      modifies this`zout, this`zoutStart, zoutStart, src, zLength`lengths, zLength.Arrays, zDistance`lengths
      modifies zDistance.Arrays
      ensures Valid() && Capacity() == old(Capacity()) && (zoutStart == old(zoutStart) || fresh(zoutStart))
      ensures ok ==> BlockAt(src.input, p, last, b) && src.cur == b.End(p)
      ensures ok ==> b.Expandable(old(Out())) && Out() == b.Expand(old(Out()))
      ensures t == want.Type() && ContentsGoal(src.input, old(src.cur), mid, end, old(Out()), Capacity(), want) ==>
                ok && b == want
    {
      b := want;
      ghost var q := src.cur;
      if t == 0 {
        ghost var data;
        ok, data := ParseUncompressedBlock();
        b := Stored(data);
        if ok { StoredBlock(src.input, p, q1, q, last, data); }
      } else if t == 3 {
        ok := false;
      } else {
        ok, b := ParseHuffmanContents(t, want, mid, end, last, p, q1);
      }
    }

    method ParseHuffmanContents(t: nat, ghost want: Block, ghost mid: nat, ghost end: nat, ghost last: bool,
                                ghost p: nat, ghost q1: nat)
      returns (ok: bool, ghost b: Block)
      requires Valid() && TablesApart() && 1 <= t <= 2 && StartRead(src.input, p, q1, src.cur, last, t)
      modifies this`zout, this`zoutStart, zoutStart, src, zLength`lengths, zLength.Arrays, zDistance`lengths
      modifies zDistance.Arrays
      ensures Valid() && Capacity() == old(Capacity()) && (zoutStart == old(zoutStart) || fresh(zoutStart))
      ensures ok ==> BlockAt(src.input, p, last, b) && src.cur == b.End(p)
      ensures ok ==> b.Expandable(old(Out())) && Out() == b.Expand(old(Out()))
      ensures t == want.Type() && ContentsGoal(src.input, old(src.cur), mid, end, old(Out()), Capacity(), want) ==>
                ok && b == want
    {
      ghost var q := src.cur;
      if t == 1 {
        FixedCodesAccepted();
        ghost var ts;
        ok, ts := ParseWithCodes(FIXED_LENGTHS, FIXED_DISTANCES, if want.Fixed? then want.tokens else [], end);
        b := Fixed(ts);
        if ok { FixedBlock(src.input, p, q1, q, last, ts, src.cur); }
      } else {
        ghost var h, m, ts;
        ok, h, m, ts := ParseDynamicBlock(if want.Dynamic? then want.header else DynamicHeader(0, 0, [], []),
                                          if want.Dynamic? then want.tokens else [], mid, end);
        b := Dynamic(h, ts);
        if ok { DynamicBlock(src.input, p, q1, q, m, last, h, ts, src.cur); }
      }
    }
  
    /** A round of the stream loop with the blocks decompressed so far, on the way to an acceptable
        stream `want`. */
    method StreamRound(ghost p: nat, ghost out: seq<byte>, ghost bs: seq<Block>, ghost want: seq<Block>)
      returns (ok: bool, last: bool, ghost cs: seq<Block>)
      requires Valid() && TablesApart() && StreamProgress(src.input, p, out, bs, src.cur, Out())
      requires StreamGoal(src.input, p, out, Capacity(), want) ==> bs < want
      modifies this`zout, this`zoutStart, zoutStart, src, zLength`lengths, zLength.Arrays, zDistance`lengths
      modifies zDistance.Arrays
      ensures Valid() && Capacity() == old(Capacity()) && (zoutStart == old(zoutStart) || fresh(zoutStart))
      ensures ok ==> old(src.cur) < 8 * |src.input| && old(src.cur) < src.cur
      ensures ok && !last ==> StreamProgress(src.input, p, out, cs, src.cur, Out())
      ensures ok && !last && StreamGoal(src.input, p, out, Capacity(), want) ==> cs < want
      ensures ok && last ==> StreamAt(src.input, p, cs) && BlocksExpandable(out, cs) && Out() == ExpandBlocks(out, cs)
      ensures ok && last && StreamGoal(src.input, p, out, Capacity(), want) ==> cs == want
      ensures !ok ==> !StreamGoal(src.input, p, out, Capacity(), want)
    {
      ghost var q, now := src.cur, Out();
      ghost var l, w := false, Stored([]);
      if StreamGoal(src.input, p, out, Capacity(), want) {
        l, w := StreamTowards(src.input, p, out, Capacity(), want, bs, q, now);
      }
      cs := bs;
      ghost var b;
      ok, last, b := ParseBlock(l, w);
      if !ok { return; }
      BlockStartsWithin(src.input, q, last, b);
      BlocksStep(src.input, p, out, bs, last, b);
      cs := bs + [b];
    }

    /** The stream loop: blocks up to the one marked final. */
    method ParseStream(ghost want: seq<Block>) returns (ok: bool, ghost bs: seq<Block>)
      requires Valid() && TablesApart()
      modifies this`zout, this`zoutStart, zoutStart, src, zLength`lengths, zLength.Arrays, zDistance`lengths
      modifies zDistance.Arrays
      ensures Valid() && Capacity() == old(Capacity())
      ensures ok ==>
                && StreamAt(src.input, old(src.cur), bs) && BlocksExpandable(old(Out()), bs)
                && Out() == ExpandBlocks(old(Out()), bs)
      ensures StreamGoal(src.input, old(src.cur), old(Out()), Capacity(), want) ==> ok && bs == want
    {
      ghost var p, out, cap := src.cur, Out(), Capacity();
      bs := [];
      var last := false;
      while !last
        invariant Valid() && TablesApart() && Capacity() == cap && (zoutStart == old(zoutStart) || fresh(zoutStart))
        invariant !last ==> StreamProgress(src.input, p, out, bs, src.cur, Out())
        invariant !last && StreamGoal(src.input, p, out, cap, want) ==> bs < want
        invariant last ==> StreamAt(src.input, p, bs) && BlocksExpandable(out, bs) && Out() == ExpandBlocks(out, bs)
        invariant last && StreamGoal(src.input, p, out, cap, want) ==> bs == want
        decreases !last, 8 * |src.input| - src.cur
      {
        ok, last, bs := StreamRound(p, out, bs, want);
        if !ok { return; }
      }
      ok := true;
    }

    method ParseZlibHeader() returns (ok: bool)
      requires Valid() && src.cur == 0 && src.numBits == 0
      modifies src
      ensures Valid() && src.cur == 16 && src.numBits == 0
      ensures ok <==> ZlibHeaderAt(src.input)
    {
      var cmf := src.Zget8Aligned();
      var cm := BitAnd(cmf, 15);
      var flg := src.Zget8Aligned();
      HeaderMasks(cmf, flg);
      if src.Zeof() { return false; }
      if (cmf as int * 256 + flg as int) % 31 != 0 { return false; }
      if BitAnd(flg, 32) != 0 { return false; }
      if cm != 8 { return false; }
      return true;
    }

    /** The two masks of the header check select the method and the dictionary bit. */
    static lemma HeaderMasks(cmf: byte, flg: byte)
      ensures BitAnd(cmf, 15) == cmf % 16
      ensures BitAnd(flg, 32) != 0 <==> Bit(flg, 5)
    {
      var n := 4;
      Pow2Value(n);
      MaskIsMod(cmf, n);
      assert Shl(1, n) - 1 == 15;
      var k := 5;
      Pow2Value(k);
      MaskIsBit(flg, k);
    }
  }

  /** Decompresses a whole buffer, with or without a zlib header, into an output that starts with
      `initialSize` bytes and may or may not grow. The result is the expansion of a stream that stands
      in the buffer; every acceptable stream is decompressed, and to one result only. */
  method ZlibDecode(input: seq<byte>, initialSize: nat, expandable: bool, parseHeader: bool)
    returns (r: Option<seq<byte>>)
    requires 0 < initialSize <= UINT_MAX
    ensures r.Some? ==>
              (parseHeader ==> ZlibHeaderAt(input)) &&
              exists bs ::
                && StreamAt(input, StreamStart(parseHeader), bs) && BlocksExpandable([], bs)
                && r.value == ExpandBlocks([], bs)
    ensures forall bs :: (parseHeader ==> ZlibHeaderAt(input))
                         && StreamGoal(input, StreamStart(parseHeader), [],
                                       if expandable then MaxLimit(initialSize) else initialSize, bs)
                         ==> (r == Some(ExpandBlocks([], bs)))
  {
    var a := new ZBuf(input, initialSize, expandable);
    if parseHeader {
      var ok := a.ParseZlibHeader();
      if !ok { return None; }
    }
    ghost var p, cap := a.src.cur, a.Capacity();
    ghost var want := [];
    if bs :| StreamGoal(input, p, [], cap, bs) { want := bs; }
    var ok;
    ghost var bs;
    ok, bs := a.ParseStream(want);
    forall w | StreamGoal(input, p, [], cap, w) ensures ok && w == bs {
      StreamUnique(input, p, [], cap, w, want);
    }
    if !ok { return None; }
    return Some(a.zoutStart[..a.zout]);
  }

  /** The first bit of the compressed data. */
  function StreamStart(parseHeader: bool): nat {
    if parseHeader then 16 else 0
  }

  /** An output that may grow can hold 2 GiB, whatever size it starts with. */
  lemma {:induction false} MaxLimitIsLarge(limit: nat) returns (k: nat)
    requires 0 < limit <= UINT_MAX
    ensures MaxLimit(limit) == limit * Pow2(k) && 0x8000_0000 <= MaxLimit(limit) <= 0xFFFF_FFFF
    decreases UINT_MAX - limit
  {
    k := 0;
    if limit <= UINT_MAX / 2 {
      k := MaxLimitIsLarge(2 * limit);
      MulAssociate(limit, 2, Pow2(k));
      k := k + 1;
    }
  }
}
