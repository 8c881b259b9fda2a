/** Reading JPEG's entropy-coded data (section F.2.2 of ITU-T T.81) through a 32-bit buffer, most significant bit
    first: bytes without their stuffing, Huffman codes, and the bits of signed values. */
module JpegDecode {
  import opened Bits
  import opened JpegHuffman

  const WORD: nat := 0x1_0000_0000

  /** The top `n` bits of the buffer, and the buffer without them. */
  function Top(b: nat, n: nat): nat
    requires n <= 32
  {
    QuotientNonNegative(b, Pow2(32 - n));
    b / Pow2(32 - n)
  }

  function Drop(b: nat, n: nat): nat {
    b * Pow2(n) % WORD
  }

  lemma WordValue(m: nat)
    requires 31 < m < 33
    ensures Pow2(m) == WORD
  {
    Pow2Add(m - 16, 16);
    Pow2Value(m - 16);
    Pow2Value(16);
  }

  lemma WordParts(n: nat)
    requires n <= 32
    ensures Pow2(32 - n) * Pow2(n) == Pow2(n) * Pow2(32 - n) == WORD
  {
    Pow2Add(32 - n, n);
    WordValue((32 - n) + n);
  }

  lemma TopBound(b: nat, n: nat)
    requires b < WORD && n <= 32
    ensures Top(b, n) < Pow2(n)
  {
    WordParts(n);
    DivAtLeast(b, Pow2(32 - n), Pow2(n));
  }

  /** Leading bits of leading bits. */
  lemma TopOfTop(b: nat, n: nat, m: nat)
    requires m <= n <= 32
    ensures Top(b, n) / Pow2(n - m) == Top(b, m)
  {
    Pow2Add(32 - n, n - m);
    DivDiv(b, Pow2(32 - n), Pow2(n - m));
  }

  // ---- signed values ----

  /** What `n` bits with the number `v` stand for: the procedure EXTEND of section F.2.2.1. */
  function Extend(v: int, n: nat): int {
    if n > 0 && v < Pow2(n - 1) then v - Pow2(n) + 1 else v
  }

  const JBIAS: seq<int> :=
    [0, -1, -3, -7, -15, -31, -63, -127, -255, -511, -1023, -2047, -4095, -8191, -16383, -32767]

  lemma JbiasIs(n: nat)
    requires n < 16
    ensures JBIAS[n] == 1 - SmallPow2(n)
  {}

  /** The sign bit of the buffer tells on which side of the middle its leading bits are. */
  lemma SignBit(b: nat, n: nat)
    requires b < WORD && 1 <= n <= 32
    ensures Top(b, 1) == 0 <==> Top(b, n) < Pow2(n - 1)
  {
    TopOfTop(b, n, 1);
    DivAtLeast(Top(b, n), Pow2(n - 1), 1);
  }

  lemma RotateParts(b: nat, d: nat, p: nat, q: nat, r: nat, w: nat)
    requires d > 0 && p > 0 && w == d * p && b == q * d + r && r < d && q < p
    ensures w > 0 && b * p % w == r * p && (r * p + q) % p == q
  {
    MulMonotone(1, d, p);
    MulDistribute(q * d, r, p);
    MulAssociate(q, d, p);
    MulMonotone(r + 1, d, p);
    MulDistribute(r, 1, p);
    MulMonotone(0, r, p);
    QuotientUnique(b * p, w, q, r * p);
    QuotientUnique(r * p + q, p, r, q);
  }

  /** A rotation brings the leading bits to the end, and what follows them to the front. */
  lemma Rotated(b: nat, n: nat, rot: nat)
    requires b < WORD && 1 <= n <= 16 && rot == Drop(b, n) + Top(b, n)
    ensures rot % Pow2(n) == Top(b, n) && rot - rot % Pow2(n) == Drop(b, n)
  {
    WordParts(n);
    TopBound(b, n);
    DivMod(b, Pow2(32 - n));
    RotateParts(b, Pow2(32 - n), Pow2(n), Top(b, n), b % Pow2(32 - n), WORD);
  }

  /** What is taken from the rotated buffer, and what is left in it. */
  lemma SignedIs(b: nat, n: nat, rot: nat, sgn: nat)
    requires b < WORD && 1 <= n <= 15 && rot == Drop(b, n) + Top(b, n) && sgn == Top(b, 1)
    ensures rot % Pow2(n) + (if sgn == 0 then JBIAS[n] else 0) == Extend(Top(b, n), n)
    ensures rot - rot % Pow2(n) == Drop(b, n)
  {
    Rotated(b, n, rot);
    SignBit(b, n);
    BiasExtends(Top(b, n), n);
  }

  lemma BiasExtends(v: nat, n: nat)
    requires 1 <= n <= 15
    ensures v + (if v < Pow2(n - 1) then JBIAS[n] else 0) == Extend(v, n)
  {
    JbiasIs(n);
  }

  // ---- the entropy-coded bytes ----

  /** The byte at `pos`, or zero past the end, and where reading goes on. */
  function Get(data: seq<byte>, pos: nat): byte {
    if pos < |data| then data[pos] else 0
  }

  function Past(data: seq<byte>, pos: nat): nat {
    if pos < |data| then pos + 1 else pos
  }

  /** The first byte from `pos` on that is not a fill byte. */
  function SkipFill(data: seq<byte>, pos: nat): (q: nat)
    ensures pos <= q && Get(data, q) != 0xFF
    decreases if pos < |data| then |data| - pos else 0
  {
    if Get(data, pos) == 0xFF then SkipFill(data, pos + 1) else pos
  }

  /** A byte of entropy-coded data, or a marker: 0xFF followed by something other than zero. */
  datatype Next = Byte(b: byte, pos: nat) | Marker(m: byte, pos: nat)

  function NextByte(data: seq<byte>, pos: nat): Next {
    if Get(data, pos) != 0xFF then Byte(Get(data, pos), Past(data, pos))
    else
      var q := SkipFill(data, pos + 1);
      if Get(data, q) == 0 then Byte(0xFF, Past(data, q)) else Marker(Get(data, q), Past(data, q))
  }

  /** Where byte number `i` of the entropy-coded data is read, unless a marker comes before it. */
  function SourceAt(data: seq<byte>, i: nat): Option<nat> {
    if i == 0 then Some(0)
    else
      match SourceAt(data, i - 1)
      case None => None
      case Some(p) => if NextByte(data, p).Byte? then Some(NextByte(data, p).pos) else None
  }

  /** There are no more bytes. */
  predicate Ended(data: seq<byte>, i: nat) {
    SourceAt(data, i) == None || NextByte(data, SourceAt(data, i).value).Marker?
  }

  /** Byte number `i`; zeros behind the last. */
  function EntropyByte(data: seq<byte>, i: nat): byte {
    if Ended(data, i) then 0 else NextByte(data, SourceAt(data, i).value).b
  }

  /** The first `m` bytes as one number, most significant first. */
  function BigEndian(data: seq<byte>, m: nat): nat {
    if m == 0 then 0 else BigEndian(data, m - 1) * 256 + EntropyByte(data, m - 1)
  }

  /** The `n` bits from bit `p` on, as a number. */
  function NextBits(data: seq<byte>, p: nat, n: nat): nat {
    var m := (p + n + 7) / 8;
    BitField(BigEndian(data, m), 8 * m - p - n, n)
  }

  /** The `n` bits of a number that have `e` bits behind them. */
  function BitField(v: nat, e: nat, n: nat): nat {
    QuotientNonNegative(v, Pow2(e));
    v / Pow2(e) % Pow2(n)
  }

  /** Some of the bits. */
  lemma SubBits(v: nat, e: nat, n: nat, m: nat, low: nat, e': nat)
    requires low + m <= n && e' == e + low
    ensures BitField(BitField(v, e, n), low, m) == BitField(v, e', m)
  {
    var x := v / Pow2(e);
    QuotientNonNegative(v, Pow2(e));
    Pow2Add(low, n - low);
    Pow2Add(m, n - low - m);
    Pow2Add(e, low);
    DivDiv(v, Pow2(e), Pow2(low));
    TwoSteps(x, Pow2(low), Pow2(n - low));
    DivMod(x, Pow2(low));
    QuotientNonNegative(x, Pow2(low));
    QuotientUnique(x % Pow2(n), Pow2(low), x / Pow2(low) % Pow2(n - low), x % Pow2(low));
    ModMod(x / Pow2(low), Pow2(m), Pow2(n - low - m));
  }

  /** Bits out of the middle of those that come next. */
  lemma NextBitsWithin(data: seq<byte>, p: nat, n: nat, q: nat, m: nat, low: nat)
    requires q + m + low == p + n && p <= q
    ensures BitField(NextBits(data, p, n), low, m) == NextBits(data, q, m)
  {
    var k, e := RoundUp(p + n);
    WithinBytes(data, p, n, q, m, low, k, e);
  }

  lemma RoundUp(b: nat) returns (k: nat, e: nat)
    ensures b + e == 8 * k
  {
    k := (b + 7) / 8;
    e := 8 * k - b;
  }

  lemma WithinBytes(data: seq<byte>, p: nat, n: nat, q: nat, m: nat, low: nat, k: nat, e: nat)
    requires p + n + e == q + m + low + e == 8 * k && p <= q
    ensures BitField(NextBits(data, p, n), low, m) == NextBits(data, q, m)
  {
    BehindThem(data, p, n, k, e);
    BehindThem(data, q, m, k, e + low);
    SubBits(BigEndian(data, k), e, n, m, low, e + low);
  }

  lemma BehindThem(data: seq<byte>, p: nat, n: nat, k: nat, e: nat)
    requires p + n + e == 8 * k
    ensures BitField(BigEndian(data, k), e, n) == NextBits(data, p, n)
  {
    NextBitsFrom(data, p, n, k);
    assert e == 8 * k - p - n;
  }

  /** More bytes do not change the bits before them. */
  lemma {:induction false} NextBitsFrom(data: seq<byte>, p: nat, n: nat, m: nat)
    requires p + n <= 8 * m
    ensures BitField(BigEndian(data, m), 8 * m - p - n, n) == NextBits(data, p, n)
    decreases m
  {
    if p + n <= 8 * (m - 1) {
      NextBitsFrom(data, p, n, m - 1);
      MoreBehind(BigEndian(data, m - 1), EntropyByte(data, m - 1), 8 * (m - 1) - p - n, n);
    }
  }

  lemma MoreBehind(v: nat, b: byte, e: nat, n: nat)
    ensures BitField(v * 256 + b, e + 8, n) == BitField(v, e, n)
  {
    Pow2Add(8, e);
    Pow2Value(8);
    DivDiv(v * 256 + b, 256, Pow2(e));
    QuotientUnique(v * 256 + b, 256, v, b);
  }

  // ---- what the buffer holds ----

  /** The buffer's top `bits` bits are those before byte number `fed`, and the others are zero. */
  predicate Holds(data: seq<byte>, fed: nat, bits: nat, buffer: nat) {
    bits <= 32 && buffer == BigEndian(data, fed) % Pow2(bits) * Pow2(32 - bits)
  }

  lemma HeldIsWord(data: seq<byte>, fed: nat, bits: nat, buffer: nat)
    requires Holds(data, fed, bits, buffer)
    ensures buffer < WORD
  {
    WordParts(bits);
    DivMod(BigEndian(data, fed), Pow2(bits));
    MulMonotone(BigEndian(data, fed) % Pow2(bits) + 1, Pow2(bits), Pow2(32 - bits));
    MulDistribute(BigEndian(data, fed) % Pow2(bits), 1, Pow2(32 - bits));
  }

  /** The top of the buffer is what comes next. */
  lemma HeldTop(data: seq<byte>, fed: nat, bits: nat, buffer: nat, p: nat, n: nat)
    requires Holds(data, fed, bits, buffer) && p + bits == 8 * fed && n <= bits
    ensures Top(buffer, n) == NextBits(data, p, n)
  {
    NextBitsFrom(data, p, n, fed);
    TopOfHeld(BigEndian(data, fed), bits, n, bits - n, buffer);
  }

  lemma TopOfHeld(v: nat, bits: nat, n: nat, e: nat, buffer: nat)
    requires bits <= 32 && n + e == bits && buffer == v % Pow2(bits) * Pow2(32 - bits)
    ensures Top(buffer, n) == BitField(v, e, n)
  {
    Pow2Add(e, n);
    Pow2Add(e, 32 - bits);
    assert e + (32 - bits) == 32 - n;
    TwoSteps(v, Pow2(e), Pow2(n));
    DivMod(v, Pow2(e));
    TopOfParts(v / Pow2(e) % Pow2(n), v % Pow2(e), Pow2(e), Pow2(32 - bits));
  }

  lemma TopOfParts(q: nat, r: nat, d: nat, c: nat)
    requires r < d && c > 0
    ensures d * c > 0 && (q * d + r) * c / (d * c) == q
  {
    MulMonotone(1, d, c);
    MulDistribute(q * d, r, c);
    MulAssociate(q, d, c);
    MulMonotone(r + 1, d, c);
    MulDistribute(r, 1, c);
    MulMonotone(0, r, c);
    QuotientUnique((q * d + r) * c, d * c, q, r * c);
  }

  /** Taking bits off. */
  lemma HeldDrop(data: seq<byte>, fed: nat, bits: nat, buffer: nat, n: nat)
    requires Holds(data, fed, bits, buffer) && n <= bits
    ensures Holds(data, fed, bits - n, Drop(buffer, n))
  {
    var v, e := BigEndian(data, fed), bits - n;
    Pow2Add(e, n);
    Pow2Add(32 - bits, n);
    assert 32 - e == 32 - bits + n;
    WordParts(e);
    TwoSteps(v, Pow2(e), Pow2(n));
    DivMod(v, Pow2(e));
    DropOfParts(v / Pow2(e) % Pow2(n), v % Pow2(e), Pow2(e), Pow2(32 - bits), Pow2(n), Pow2(32 - e));
  }

  lemma DropOfParts(q: nat, r: nat, d: nat, c: nat, f: nat, g: nat)
    requires r < d && g == c * f && d * g == WORD && g > 0
    ensures (q * d + r) * c * f % WORD == r * g
  {
    MulAssociate(q * d + r, c, f);
    MulDistribute(q * d, r, g);
    MulAssociate(q, d, g);
    MulMonotone(r + 1, d, g);
    MulDistribute(r, 1, g);
    MulMonotone(0, r, g);
    QuotientUnique((q * d + r) * g, WORD, q, r * g);
  }

  /** Another byte goes below the bits that are there. */
  lemma FeedIsSum(buffer: nat, r: nat, bits: nat, b: byte)
    requires bits <= 24 && buffer == r * Pow2(32 - bits)
    ensures BitOr(Shl(b, 24 - bits), buffer) == buffer + Shl(b, 24 - bits)
    ensures buffer + Shl(b, 24 - bits) == (r * 256 + b) * Pow2(24 - bits)
  {
    var c := Pow2(24 - bits);
    Pow2Add(8, 24 - bits);
    Pow2Value(8);
    MulMonotone(b + 1, 256, c);
    MulDistribute(b, 1, c);
    OrIsAdd(Shl(b, 24 - bits), r, 32 - bits);
    MulAssociate(r, 256, c);
    MulDistribute(r * 256, b, c);
  }

  lemma HeldFeed(data: seq<byte>, fed: nat, bits: nat, buffer: nat, b: byte)
    requires Holds(data, fed, bits, buffer) && bits <= 24 && b == EntropyByte(data, fed)
    ensures BitOr(Shl(b, 24 - bits), buffer) == buffer + Shl(b, 24 - bits)
    ensures Holds(data, fed + 1, bits + 8, buffer + Shl(b, 24 - bits))
  {
    var v := BigEndian(data, fed);
    DivMod(v, Pow2(bits));
    FeedIsSum(buffer, v % Pow2(bits), bits, b);
    var m, wide := (v * 256 + b) as int % Pow2(bits + 8), (v % Pow2(bits)) * 256 + b;
    assert m == wide by { FedModulo(v, b, bits, 8); }
    assert BigEndian(data, fed + 1) == v * 256 + b;
  }

  lemma FedModulo(v: nat, b: byte, bits: nat, eight: nat)
    requires eight == 8
    ensures (v * 256 + b) % Pow2(bits + eight) == v % Pow2(bits) * 256 + b
  {
    Pow2Add(eight, bits);
    Pow2Value(eight);
    FedRemainder(v, b, Pow2(bits), v % Pow2(bits));
  }

  lemma FedRemainder(v: nat, b: byte, d: nat, r: nat)
    requires d > 0 && r == v % d
    ensures (v * 256 + b) % (256 * d) == r * 256 + b
  {
    DivMod(v, d);
    MulAssociate(v / d, d, 256);
    MulDistribute(v / d * d, r, 256);
    MulMonotone(r + 1, d, 256);
    QuotientUnique(v * 256 + b, 256 * d, v / d, r * 256 + b);
  }

  lemma {:induction false} EndedStays(data: seq<byte>, i: nat)
    requires Ended(data, i)
    ensures Ended(data, i + 1) && EntropyByte(data, i) == 0
  {}

  /** Behind the last byte the buffer can be read as if it were filled up with zeros. */
  lemma {:induction false} HeldPadded(data: seq<byte>, fed: nat, bits: nat, buffer: nat, p: nat, n: nat)
    requires Holds(data, fed, bits, buffer) && p + bits == 8 * fed && Ended(data, fed) && n <= 25
    ensures Top(buffer, n) == NextBits(data, p, n)
    decreases 32 - bits
  {
    if n <= bits {
      HeldTop(data, fed, bits, buffer, p, n);
    } else {
      EndedStays(data, fed);
      HeldFeed(data, fed, bits, buffer, 0);
      HeldPadded(data, fed + 1, bits + 8, buffer, p, n);
    }
  }

  // ---- the reader ----

  class Reader {
    const data: seq<byte>
    var pos: nat
    var codeBuffer: nat
    var codeBits: int
    /** A marker was seen: there are only zeros from here on. */
    var nomore: bool
    var marker: byte

    /** How many bytes went into the buffer, and how many bits were taken out. */
    ghost var fed: nat
    ghost var cur: nat

    ghost predicate Valid()
      reads this
    {
      && 0 <= codeBits && Holds(data, fed, codeBits, codeBuffer) && cur + codeBits == 8 * fed
      && if nomore then Ended(data, fed) else SourceAt(data, fed) == Some(pos)
    }

    constructor (data: seq<byte>)
      ensures Valid() && this.data == data && cur == 0 && codeBits == 0 && !nomore
    {
      this.data := data;
      pos, codeBuffer, codeBits, nomore, marker, fed, cur := 0, 0, 0, false, 0, 0, 0;
    }

    method Get8() returns (b: byte)
      modifies `pos
      ensures b == Get(data, old(pos)) && pos == Past(data, old(pos))
    {
      b := 0;
      if pos < |data| {
        b := data[pos];
        pos := pos + 1;
      }
    }

    /** The byte behind 0xFF that is not a fill byte. */
    method BehindFill() returns (c: byte)
      modifies `pos
      ensures var q := SkipFill(data, old(pos)); c == Get(data, q) && pos == Past(data, q)
    {
      c := Get8();
      while c == 0xFF
        invariant c == 0xFF ==> SkipFill(data, pos) == SkipFill(data, old(pos)) && pos <= |data|
        invariant c != 0xFF ==> c == Get(data, SkipFill(data, old(pos))) && pos == Past(data, SkipFill(data, old(pos)))
        decreases |data| - pos, c
      {
        c := Get8();
      }
    }

    /** Bytes into the buffer until more than 24 bits are there, or a marker is. */
    method Grow()
      requires Valid() && codeBits <= 24
      modifies `pos, `codeBuffer, `codeBits, `nomore, `marker, `fed
      ensures Valid() && (codeBits >= 25 || nomore) && (old(nomore) ==> codeBits >= 25)
      ensures codeBits >= old(codeBits)
    {
      var more := true;
      while more
        invariant Valid() && codeBits >= old(codeBits) && (old(nomore) ==> nomore)
        invariant if more then codeBits <= 24 else codeBits >= 25
        decreases more, 32 - codeBits
      {
        var ended := GrowByte();
        if ended { return; }
        more := codeBits <= 24;
      }
    }

    /** One byte into the buffer, or the marker that ends the data. */
    method GrowByte() returns (ended: bool)
      requires Valid() && codeBits <= 24
      modifies `pos, `codeBuffer, `codeBits, `nomore, `marker, `fed
      ensures Valid() && codeBits == old(codeBits) + (if ended then 0 else 8)
      ensures (ended ==> nomore && !old(nomore)) && (old(nomore) ==> nomore)
    {
      var b;
      ended, b := FetchByte();
      if !ended { FeedByte(b); }
    }

    /** Puts a byte behind the bits that are there. */
    method FeedByte(b: byte)
      requires 0 <= codeBits <= 24 && Holds(data, fed, codeBits, codeBuffer) && cur + codeBits == 8 * fed
      requires b == EntropyByte(data, fed)
      modifies `codeBuffer, `codeBits, `fed
      ensures codeBits == old(codeBits) + 8 && Holds(data, fed, codeBits, codeBuffer) && cur + codeBits == 8 * fed
      ensures fed == old(fed) + 1
    {
      HeldFeed(data, fed, codeBits, codeBuffer, b);
      codeBuffer := BitOr(Shl(b, 24 - codeBits), codeBuffer);
      codeBits := codeBits + 8;
      fed := fed + 1;
    }

    /** The next byte of the entropy-coded data, with its stuffing taken off. */
    method FetchByte() returns (ended: bool, b: byte)
      requires if nomore then Ended(data, fed) else SourceAt(data, fed) == Some(pos)
      modifies `pos, `nomore, `marker
      ensures ended ==> nomore && !old(nomore) && Ended(data, fed)
      ensures !ended ==> b == EntropyByte(data, fed) && nomore == old(nomore)
      ensures !ended ==> if nomore then Ended(data, fed + 1) else SourceAt(data, fed + 1) == Some(pos)
    {
      ended, b := false, 0;
      if nomore {
        EndedStays(data, fed);
        return;
      }
      b := Get8();
      if b == 0xFF {
        var c := BehindFill();
        if c != 0 {
          marker := c;
          nomore := true;
          ended := true;
        }
      }
    }

    /** With enough bits, or behind the marker, the top of the buffer is what comes next. */
    lemma TopIsNext(n: nat)
      requires Valid() && n <= 25 && (n <= codeBits || nomore)
      ensures codeBuffer < WORD && Top(codeBuffer, n) == NextBits(data, cur, n)
    {
      HeldIsWord(data, fed, codeBits, codeBuffer);
      if n <= codeBits {
        HeldTop(data, fed, codeBits, codeBuffer, cur, n);
      } else {
        HeldPadded(data, fed, codeBits, codeBuffer, cur, n);
      }
    }

    /** Takes `n` bits off. */
    method Consume(n: nat)
      requires Valid() && n <= codeBits
      modifies `codeBuffer, `codeBits, `cur
      ensures Valid() && cur == old(cur) + n && codeBits == old(codeBits) - n && codeBuffer == Drop(old(codeBuffer), n)
    {
      HeldDrop(data, fed, codeBits, codeBuffer, n);
      codeBuffer := Drop(codeBuffer, n);
      codeBits := codeBits - n;
      cur := cur + n;
    }

    /** What reading comes to when symbol `i`'s code is at bit `p`, with `bits` bits there. */
    ghost predicate Outcome(h: Huffman, s: seq<nat>, i: nat, p: nat, bits: int, r: int)
      requires i < |s| && h.Shape()
      reads this, h.values
    {
      if Misread(s, i) then r == -1 || (0 <= r < 256 && Valid() && cur != p + s[i])
      else if r == -1 then nomore && codeBits < s[i] && codeBits == bits
      else i < 256 && r == h.values[i] as int && Valid() && cur == p + s[i] && codeBits == bits - s[i]
    }

    /** The symbol that the first nine bits name. */
    method TakeFast(h: Huffman, ghost s: seq<nat>, ghost c: nat, k: nat) returns (r: int)
      requires Valid() && h.Describes(s) && (codeBits >= 16 || nomore)
      requires c == Top(codeBuffer, 16) / 128 < FAST_SIZE && k == h.fast[c] < 255
      modifies `codeBuffer, `codeBits, `cur
      ensures Top(old(codeBuffer), 16) < Start(s, |s|)
      ensures forall i: nat :: Matches(s, i, Top(old(codeBuffer), 16)) ==> Outcome(h, s, i, old(cur), old(codeBits), r)
    {
      var n := h.size[k];
      h.SizeAt(s, k);
      assert h.fast[..][c] == k;
      ghost var w := Top(codeBuffer, 16);
      NineBitsDecide(s, k, w, c);
      forall i: nat | Matches(s, i, w) ensures i == k { MatchUnique(s, i, k, w); }
      StartMonotone(s, k + 1, |s|);
      if n > codeBits { return -1; }
      Consume(n);
      r := h.values[k] as int;
    }

    /** The search for the length of a longer code. */
    method Search(h: Huffman, ghost s: seq<nat>, ghost c: nat) returns (r: int)
      requires Valid() && h.Describes(s) && (codeBits >= 16 || nomore) && codeBuffer < WORD
      requires c == Top(codeBuffer, 16) / 128 < FAST_SIZE && h.fast[c] >= 255
      modifies `codeBuffer, `codeBits, `cur
      ensures Top(old(codeBuffer), 16) >= Start(s, |s|) ==> r == -1
      ensures forall i: nat :: Matches(s, i, Top(old(codeBuffer), 16)) ==> Outcome(h, s, i, old(cur), old(codeBits), r)
    {
      var temp := Top(codeBuffer, 16);
      TopBound(codeBuffer, 16);
      Pow2Value(16);
      var k := FirstLength(h, s, temp);
      if k == 17 {
        NoMatch(s, temp);
        codeBits := codeBits - 16;
        return -1;
      }
      ghost var i := MatchExists(s, |s|, temp);
      StopsAt(h, s, temp, i, c, k);
      forall i': nat | Matches(s, i', temp) ensures i' == i { MatchUnique(s, i', i, temp); }
      r := TakeLong(h, s, k, i);
    }

    /** The symbol, by the leading bits and the offset of their length. */
    method TakeLong(h: Huffman, ghost s: seq<nat>, k: nat, ghost i: nat) returns (r: int)
      requires Valid() && h.Describes(s) && (codeBits >= 16 || nomore) && FAST_BITS < k <= 16
      requires Matches(s, i, Top(codeBuffer, 16)) && (Misread(s, i) || s[i] == k)
      modifies `codeBuffer, `codeBits, `cur
      ensures Outcome(h, s, i, old(cur), old(codeBits), r)
    {
      if k > codeBits { return -1; }
      var n := Top(codeBuffer, k) + h.delta[k];
      if !Misread(s, i) {
        TopOfTop(codeBuffer, 16, k);
        NumberFound(s, i, Top(codeBuffer, 16));
      }
      if n < 0 || n >= 256 { return -1; }
      Consume(k);
      r := h.values[n] as int;
    }

    /** The first length, from ten on, whose end lies beyond the word. */
    method FirstLength(h: Huffman, ghost s: seq<nat>, temp: nat) returns (k: nat)
      requires h.Describes(s) && temp < WINDOW
      ensures FAST_BITS < k <= 17 && temp < h.maxcode[k]
      ensures forall j :: FAST_BITS < j < k ==> h.maxcode[j] <= temp
      ensures k == 17 <==> temp >= Start(s, |s|)
    {
      k := FAST_BITS + 1;
      while temp >= h.maxcode[k]
        invariant FAST_BITS < k <= 17
        invariant forall j :: FAST_BITS < j < k ==> h.maxcode[j] <= temp
        decreases 17 - k
      {
        k := k + 1;
      }
      Huffman.BelowAll(s);
      if k < 17 {
        assert h.maxcode[k] == Start(s, Below(s, k + 1));
        if temp >= Start(s, |s|) { SearchPasses(s, temp, k); }
      } else {
        assert h.maxcode[16] == Start(s, Below(s, 17));
      }
    }

    /** A word whose symbol the nine bits do not name has a longer code, or the one short code that has
        no name. */
    lemma StopsAt(h: Huffman, s: seq<nat>, temp: nat, i: nat, c: nat, k: nat)
      requires h.Describes(s) && Matches(s, i, temp) && c == temp / 128 < FAST_SIZE && h.fast[c] >= 255
      requires FAST_BITS < k <= 16 && temp < h.maxcode[k] && forall j :: FAST_BITS < j < k ==> h.maxcode[j] <= temp
      ensures Misread(s, i) || s[i] == k
    {
      if s[i] <= FAST_BITS {
        NineBitsDecide(s, i, temp, c);
        assert h.fast[..][c] == i;
      } else {
        SearchStops(s, i, temp, k);
        assert h.maxcode[k] == Start(s, Below(s, k + 1));
        SearchStops(s, i, temp, s[i]);
        assert h.maxcode[s[i]] == Start(s, Below(s, s[i] + 1));
      }
    }

    /** The symbol whose code comes next, or -1: for an unknown code, and when a marker comes before the
        code's end. Only symbol 255 with a code of up to nine bits is not read. */
    method HuffDecode(h: Huffman, ghost s: seq<nat>, ghost w: nat) returns (r: int)
      requires Valid() && h.Describes(s) && w == NextBits(data, cur, 16)
      modifies `pos, `codeBuffer, `codeBits, `nomore, `marker, `fed, `cur
      ensures forall k: nat :: Matches(s, k, w) && !Misread(s, k) ==>
                if r == -1 then nomore && codeBits < s[k] && !old(nomore) && old(codeBits) < 16
                else && k < 256 && r == h.values[k] as int && Valid() && cur == old(cur) + s[k]
                     && (old(codeBits) >= 16 || old(nomore) ==> codeBits >= 16 - s[k])
      ensures forall k: nat :: Matches(s, k, w) && Misread(s, k) ==>
                r == -1 || (0 <= r < 256 && Valid() && cur != old(cur) + s[k])
      ensures w >= Start(s, |s|) ==> r == -1
      ensures r == -1 || (0 <= r < 256 && Valid())
    {
      if codeBits < 16 { Grow(); }
      TopIsNext(16);
      r := Decode(h, s);
      if w < Start(s, |s|) { ghost var _ := MatchExists(s, |s|, w); }
    }

    /** The same, with the buffer filled. */
    method Decode(h: Huffman, ghost s: seq<nat>) returns (r: int)
      requires Valid() && h.Describes(s) && (codeBits >= 16 || nomore) && codeBuffer < WORD
      modifies `codeBuffer, `codeBits, `cur
      ensures Top(old(codeBuffer), 16) >= Start(s, |s|) ==> r == -1
      ensures forall i: nat :: Matches(s, i, Top(old(codeBuffer), 16)) ==> Outcome(h, s, i, old(cur), old(codeBits), r)
    {
      TopOfTop(codeBuffer, 16, FAST_BITS);
      Pow2Value(7);
      TopBound(codeBuffer, FAST_BITS);
      Pow2Value(FAST_BITS);
      var c := Top(codeBuffer, FAST_BITS);
      var k := h.fast[c];
      if k < 255 {
        r := TakeFast(h, s, c, k);
      } else {
        r := Search(h, s, c);
      }
    }

    /** The value of the next `n` bits with their sign; 0 when a marker comes before their end. */
    method ExtendReceive(n: nat) returns (v: int)
      requires Valid() && 1 <= n <= 15
      modifies `pos, `codeBuffer, `codeBits, `nomore, `marker, `fed, `cur
      ensures Valid() && (old(codeBits) >= n || old(nomore) ==> cur == old(cur) + n)
      ensures if cur == old(cur) then v == 0 && nomore && codeBits < n
              else v == Extend(NextBits(data, old(cur), n), n) && cur == old(cur) + n
    {
      if codeBits < n { Grow(); }
      if codeBits < n { return 0; }
      TopIsNext(n);
      v := TakeSigned(n);
    }

    method TakeSigned(n: nat) returns (v: int)
      requires Valid() && 1 <= n <= 15 && n <= codeBits && codeBuffer < WORD
      modifies `codeBuffer, `codeBits, `cur
      ensures Valid() && v == Extend(Top(old(codeBuffer), n), n) && cur == old(cur) + n
    {
      var sgn := Top(codeBuffer, 1);
      var rot := Drop(codeBuffer, n) + Top(codeBuffer, n);
      SignedIs(codeBuffer, n, rot, sgn);
      HeldDrop(data, fed, codeBits, codeBuffer, n);
      v := rot % Pow2(n) + if sgn == 0 then JBIAS[n] else 0;
      codeBuffer := rot - rot % Pow2(n);
      codeBits := codeBits - n;
      cur := cur + n;
    }
  }

  /** The one symbol that the table of nine bits cannot name: number 255, when its code is that short. */
  predicate Misread(s: seq<nat>, k: nat)
    requires k < |s|
  {
    k == 255 && s[k] <= FAST_BITS
  }

  /** There is such a symbol: 255 codes of eight bits and one of nine. */
  lemma MisreadHappens() returns (s: seq<nat>)
    ensures Accepted(s) && |s| == 256 && Misread(s, 255) && Matches(s, 255, 65280)
  {
    s := Constant(8, 255) + [9];
    var n := 255;
    StartOfEights(s, n);
    Pow2Value(7);
    assert s[n] == 9 && Start(s, n + 1) == Start(s, n) + Pow2(16 - s[n]);
  }

  lemma {:induction false} StartOfEights(s: seq<nat>, k: nat)
    requires IsSizes(s) && k <= |s| && forall i :: 0 <= i < k ==> s[i] == 8
    ensures Start(s, k) == 256 * k
  {
    if k > 0 {
      StartOfEights(s, k - 1);
      Pow2Value(8);
    }
  }
}
