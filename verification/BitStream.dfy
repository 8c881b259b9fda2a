/** The bits of a byte buffer in DEFLATE order: least significant bit of each byte first,
    followed by zeros without end. */
module BitStream {
  import opened Bits

  predicate StreamBit(input: seq<byte>, i: nat) {
    i / 8 < |input| && Bit(input[i / 8], i % 8)
  }

  /** The `n` bits from position `pos` on. */
  function Window(input: seq<byte>, pos: nat, n: nat): (w: seq<bool>)
    ensures |w| == n
  {
    seq(n, i requires 0 <= i < n => StreamBit(input, pos + i))
  }

  /** The bit string `b` stands at position `pos`. */
  predicate At(input: seq<byte>, pos: nat, b: seq<bool>)
    decreases |b|
  {
    b == [] || (b[0] == StreamBit(input, pos) && At(input, pos + 1, b[1..]))
  }

  lemma {:induction false} AtIsWindow(input: seq<byte>, pos: nat, b: seq<bool>)
    ensures At(input, pos, b) <==> Window(input, pos, |b|) == b
    decreases |b|
  {
    if b != [] {
      AtIsWindow(input, pos + 1, b[1..]);
      var w := Window(input, pos, |b|);
      WindowSplit(input, pos, 1, |b| - 1);
      assert w[1..] == Window(input, pos + 1, |b| - 1);
      assert b == [b[0]] + b[1..] && w == [w[0]] + w[1..];
    }
  }

  lemma WindowSplit(input: seq<byte>, pos: nat, m: nat, n: nat)
    ensures Window(input, pos, m + n) == Window(input, pos, m) + Window(input, pos + m, n)
    ensures Window(input, pos, m + n)[..m] == Window(input, pos, m)
    ensures Window(input, pos, m + n)[m..] == Window(input, pos + m, n)
  {}

  lemma {:induction false} AtAppend(input: seq<byte>, pos: nat, a: seq<bool>, b: seq<bool>)
    ensures At(input, pos, a + b) <==> At(input, pos, a) && At(input, pos + |a|, b)
    decreases |a|
  {
    if a == [] {
      assert a + b == b;
    } else {
      AtAppend(input, pos + 1, a[1..], b);
      assert (a + b)[1..] == a[1..] + b;
    }
  }

  /** A bit string at `pos` starts every window there that is long enough. */
  lemma AtStartsWindow(input: seq<byte>, pos: nat, b: seq<bool>, n: nat)
    requires |b| <= n
    ensures At(input, pos, b) <==> b <= Window(input, pos, n)
  {
    AtIsWindow(input, pos, b);
    WindowSplit(input, pos, |b|, n - |b|);
  }

  /** A byte-aligned window of eight bits is a byte of the buffer, or zero past its end. */
  lemma WindowOfByte(input: seq<byte>, k: nat, n: nat)
    requires n == 8
    ensures Val(Window(input, 8 * k, n)) == if k < |input| then input[k] else 0
  {
    var v := if k < |input| then input[k] else 0;
    forall i | 0 <= i < n ensures Window(input, 8 * k, n)[i] == ToBits(v, n)[i] {
      ToBitsAt(v, n, i);
      assert (8 * k + i) / 8 == k && (8 * k + i) % 8 == i;
      BitOfZero(i);
      assert Window(input, 8 * k, n)[i] == StreamBit(input, 8 * k + i);
      assert StreamBit(input, 8 * k + i) == Bit(v, i);
    }
    assert Window(input, 8 * k, n) == ToBits(v, n);
    ValOfToBits(v, n);
    Pow2Value(n);
    QuotientUnique(v, Pow2(n), 0, v);
  }

  /** Past the end of the buffer there are only zeros. */
  lemma {:induction false} WindowPastEnd(input: seq<byte>, pos: nat, n: nat)
    requires 8 * |input| <= pos
    ensures Val(Window(input, pos, n)) == 0
    decreases n
  {
    if n > 0 {
      WindowPastEnd(input, pos + 1, n - 1);
      WindowSplit(input, pos, 1, n - 1);
      assert !StreamBit(input, pos);
    }
  }

  /** Taking padding into a window does not change its value. */
  lemma WindowPadded(input: seq<byte>, pos: nat, n: nat, m: nat)
    requires 8 * |input| <= pos + n
    ensures Val(Window(input, pos, n + m)) == Val(Window(input, pos, n))
  {
    WindowSplit(input, pos, n, m);
    ValAppend(Window(input, pos, n), Window(input, pos + n, m));
    WindowPastEnd(input, pos + n, m);
  }

  /** The bit string `b` is what is found at `p`. */
  predicate Found(input: seq<byte>, p: nat, b: seq<bool>) {
    Window(input, p, |b|) == b
  }

  lemma FoundParts(input: seq<byte>, p: nat, a: seq<bool>, b: seq<bool>)
    requires Found(input, p, a + b)
    ensures Found(input, p, a) && Found(input, p + |a|, b)
  {
    WindowSplit(input, p, |a|, |b|);
    assert (a + b)[..|a|] == a && (a + b)[|a|..] == b;
  }

  // ---- bits into bytes ----

  /** Bits packed into bytes, least significant bit first; the last byte is filled up with zeros. */
  function Pack(bits: seq<bool>): (bytes: seq<byte>)
    ensures |bits| <= 8 * |bytes|
    decreases |bits|
  {
    if bits == [] then []
    else
      var n := if |bits| < 8 then |bits| else 8;
      PackedByte(bits[..n]);
      [Val(bits[..n])] + Pack(bits[n..])
  }

  lemma PackedByte(b: seq<bool>)
    requires |b| <= 8
    ensures Val(b) < 256
  {
    ValBound(b);
    Pow2Value(|b|);
  }

  lemma {:induction false} PackBit(bits: seq<bool>, extra: seq<byte>, i: nat)
    requires i < |bits|
    ensures StreamBit(Pack(bits) + extra, i) == bits[i]
    decreases |bits|
  {
    var n := if |bits| < 8 then |bits| else 8;
    var input := Pack(bits) + extra;
    if i < n {
      ToBitsOfVal(bits[..n]);
      ToBitsAt(Val(bits[..n]), n, i);
      assert input[0] == Val(bits[..n]) && i / 8 == 0 && i % 8 == i;
    } else {
      PackBit(bits[n..], extra, i - 8);
      LaterBit(input, Pack(bits[n..]) + extra, i);
    }
  }

  lemma LaterBit(input: seq<byte>, rest: seq<byte>, i: nat)
    requires i >= 8 && |input| > 0 && input[1..] == rest
    ensures StreamBit(input, i) == StreamBit(rest, i - 8)
  {
    assert i / 8 == (i - 8) / 8 + 1 && i % 8 == (i - 8) % 8;
    if (i - 8) / 8 < |rest| { assert rest[(i - 8) / 8] == input[i / 8]; }
  }

  /** Packed bits stand where they were put, whatever comes before and after. */
  lemma PackedAt(front: seq<byte>, bits: seq<bool>, extra: seq<byte>, p: nat)
    requires p == 8 * |front|
    ensures Found(front + (Pack(bits) + extra), p, bits)
  {
    var rest := Pack(bits) + extra;
    var input := front + rest;
    forall i | 0 <= i < |bits| ensures Window(input, p, |bits|)[i] == bits[i] {
      PackBit(bits, extra, i);
      BitBehind(front, rest, p, i);
    }
  }

  lemma BitBehind(front: seq<byte>, rest: seq<byte>, p: nat, i: nat)
    requires p == 8 * |front|
    ensures StreamBit(front + rest, p + i) == StreamBit(rest, i)
  {
    assert (p + i) / 8 == |front| + i / 8 && (p + i) % 8 == i % 8;
  }

  lemma Regroup(a: seq<byte>, b: seq<byte>, c: seq<byte>)
    ensures a + b + c == a + (b + c)
  {}

  lemma PackedWithin(front: seq<byte>, bits: seq<bool>, extra: seq<byte>, p: nat, input: seq<byte>)
    requires p == 8 * |front| && input == front + Pack(bits) + extra
    ensures Found(input, p, bits) && p + |bits| <= 8 * |input|
  {
    Regroup(front, Pack(bits), extra);
    PackedAt(front, bits, extra, p);
  }

  // ---- bits of given bytes ----

  function Num(b: bool): nat {
    if b then 1 else 0
  }

  function Num4(b: seq<bool>): nat
    requires |b| == 4
  {
    Num(b[0]) + 2 * Num(b[1]) + 4 * Num(b[2]) + 8 * Num(b[3])
  }

  lemma ValOfFour(b: seq<bool>)
    requires |b| == 4
    ensures Val(b) == Num4(b)
  {
    var c, d, e := b[1..], b[2..], b[3..];
    assert c[1..] == d && d[1..] == e && e[1..] == [];
    assert Val(e) == Num(b[3]);
    assert Val(d) == Num(b[2]) + 2 * Val(e);
    assert Val(c) == Num(b[1]) + 2 * Val(d);
  }

  lemma ValOfEight(b: seq<bool>)
    requires |b| == 8
    ensures Val(b) == Num4(b[..4]) + 16 * Num4(b[4..])
  {
    var four := 4;
    ValOfFour(b[..4]);
    ValOfFour(b[4..]);
    assert b == b[..4] + b[4..];
    ValAppend(b[..4], b[4..]);
    Pow2Value(four);
  }

  /** The byte with these bits. */
  function Num8(b: seq<bool>): nat
    requires |b| == 8
  {
    Num(b[0]) + 2 * Num(b[1]) + 4 * Num(b[2]) + 8 * Num(b[3])
    + 16 * Num(b[4]) + 32 * Num(b[5]) + 64 * Num(b[6]) + 128 * Num(b[7])
  }

  /** Byte `k`, least significant bit first. */
  lemma ByteBits(input: seq<byte>, k: nat, b: seq<bool>)
    requires k < |input| && |b| == 8 && input[k] == Num8(b)
    ensures Window(input, 8 * k, 8) == b
  {
    var n := 8;
    ValOfEight(b);
    WindowOfByte(input, k, n);
    ToBitsOfVal(b);
    ToBitsOfVal(Window(input, 8 * k, n));
  }

  lemma WindowSlice(input: seq<byte>, p: nat, x: seq<bool>, off: nat, n: nat, q: nat)
    requires Window(input, p, |x|) == x && off + n <= |x| && q == p + off
    ensures Window(input, q, n) == x[off..off + n]
  {
    WindowSplit(input, p, off, |x| - off);
    WindowSplit(input, q, n, |x| - off - n);
    assert x[off..][..n] == x[off..off + n];
  }

  /** Bits that start in byte `k`, of bits `b`, and may reach into the next, of bits `c`. */
  lemma Piece(input: seq<byte>, k: nat, b: seq<bool>, c: seq<bool>, off: nat, s: seq<bool>, p: nat)
    requires k + 1 < |input| && |b| == |c| == 8 && input[k] == Num8(b) && input[k + 1] == Num8(c)
    requires off + |s| <= 16 && p == 8 * k + off
    requires forall i :: 0 <= i < |s| ==> s[i] == if off + i < 8 then b[off + i] else c[off + i - 8]
    ensures Window(input, p, |s|) == s && At(input, p, s)
  {
    ByteBits(input, k, b);
    ByteBits(input, k + 1, c);
    WindowSplit(input, 8 * k, 8, 8);
    WindowSlice(input, 8 * k, b + c, off, |s|, p);
    PieceOfTwo(b, c, off, s);
    AtIsWindow(input, p, s);
  }

  lemma PieceOfTwo(b: seq<bool>, c: seq<bool>, off: nat, s: seq<bool>)
    requires |b| == |c| == 8 && off + |s| <= 16
    requires forall i :: 0 <= i < |s| ==> s[i] == if off + i < 8 then b[off + i] else c[off + i - 8]
    ensures (b + c)[off..off + |s|] == s
  {}
}
