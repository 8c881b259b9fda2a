/** The packet checksum: a table-driven CRC-32 on machine words, against the shift register that takes
    the message one bit at a time. */
module Crc32 {
  import opened CrcTables

  // ---- the shift register ----

  const WIDTH: nat := 32
  const BYTE: nat := 8

  /** Bit by bit; of the shorter length when they differ. */
  function Xor(a: seq<bool>, b: seq<bool>): (x: seq<bool>)
    requires |a| == |b|
    ensures |x| == |a|
  {
    seq(|a|, i requires 0 <= i < |a| => a[i] != b[i])
  }

  function ZeroBits(n: nat): (z: seq<bool>)
    ensures |z| == n
  {
    seq(n, _ => false)
  }

  /** The low bit leaves; when it is one, the polynomial is added to the rest. */
  function Step(c: seq<bool>, poly: seq<bool>): (r: seq<bool>)
    requires |c| == |poly| > 0
    ensures |r| == |c|
  {
    var rest := c[1..] + [false];
    if c[0] then Xor(rest, poly) else rest
  }

  function Steps(c: seq<bool>, poly: seq<bool>, n: nat): (r: seq<bool>)
    requires |c| == |poly| > 0
    ensures |r| == |c|
    decreases n
  {
    if n == 0 then c else Steps(Step(c, poly), poly, n - 1)
  }

  /** Feeds a message: each bit is added at the low end before the step. */
  function Feed(c: seq<bool>, poly: seq<bool>, message: seq<bool>): (r: seq<bool>)
    requires |c| == |poly| > 0
    ensures |r| == |c|
    decreases |message|
  {
    if message == [] then c else Feed(Step(c[0 := c[0] != message[0]], poly), poly, message[1..])
  }

  // ---- its algebra ----

  lemma StepLinear(a: seq<bool>, b: seq<bool>, poly: seq<bool>)
    requires |a| == |b| == |poly| > 0
    ensures Step(Xor(a, b), poly) == Xor(Step(a, poly), Step(b, poly))
  {}

  lemma {:induction false} StepsLinear(a: seq<bool>, b: seq<bool>, poly: seq<bool>, n: nat)
    requires |a| == |b| == |poly| > 0
    ensures Steps(Xor(a, b), poly, n) == Xor(Steps(a, poly, n), Steps(b, poly, n))
    decreases n
  {
    if n > 0 {
      StepLinear(a, b, poly);
      StepsLinear(Step(a, poly), Step(b, poly), poly, n - 1);
    }
  }

  /** The polynomial's top bit is set, so the step can be undone: no two registers meet. */
  lemma StepInjective(a: seq<bool>, b: seq<bool>, poly: seq<bool>)
    requires |a| == |b| == |poly| > 0 && poly[|poly| - 1] && Step(a, poly) == Step(b, poly)
    ensures a == b
  {
    var n := |poly| - 1;
    var x, y := Step(a, poly), Step(b, poly);
    assert x[n] == a[0] && y[n] == b[0];
    forall i | 0 <= i <= n ensures a[i] == b[i] {
      if i > 0 { assert x[i - 1] == (a[i] != (a[0] && poly[i - 1])) && y[i - 1] == (b[i] != (b[0] && poly[i - 1])); }
    }
  }

  lemma {:induction false} StepsInjective(a: seq<bool>, b: seq<bool>, poly: seq<bool>, n: nat)
    requires |a| == |b| == |poly| > 0 && poly[|poly| - 1] && Steps(a, poly, n) == Steps(b, poly, n)
    ensures a == b
    decreases n
  {
    if n > 0 {
      StepsInjective(Step(a, poly), Step(b, poly), poly, n - 1);
      StepInjective(a, b, poly);
    }
  }

  /** Different registers stay different over the same message. */
  lemma {:induction false} FeedInjective(a: seq<bool>, b: seq<bool>, poly: seq<bool>, message: seq<bool>)
    requires |a| == |b| == |poly| > 0 && poly[|poly| - 1] && Feed(a, poly, message) == Feed(b, poly, message)
    ensures a == b
    decreases |message|
  {
    if message != [] {
      var x, y := a[0 := a[0] != message[0]], b[0 := b[0] != message[0]];
      FeedInjective(Step(x, poly), Step(y, poly), poly, message[1..]);
      StepInjective(x, y, poly);
      forall i | 0 <= i < |a| ensures a[i] == b[i] { assert x[i] == y[i]; }
    }
  }

  lemma {:induction false} FeedAppend(c: seq<bool>, poly: seq<bool>, a: seq<bool>, b: seq<bool>)
    requires |c| == |poly| > 0
    ensures Feed(c, poly, a + b) == Feed(Feed(c, poly, a), poly, b)
    decreases |a|
  {
    if a == [] {
      assert a + b == b;
    } else {
      assert (a + b)[1..] == a[1..] + b;
      FeedAppend(Step(c[0 := c[0] != a[0]], poly), poly, a[1..], b);
    }
  }

  /** A message no longer than the register, filled up with zeros. */
  function Padded(message: seq<bool>, n: nat): (p: seq<bool>)
    requires |message| <= n
    ensures |p| == n
  {
    message + ZeroBits(n - |message|)
  }

  lemma StepOfPadded(c: seq<bool>, poly: seq<bool>, message: seq<bool>)
    requires |c| == |poly| > 0 && 0 < |message| <= |c|
    ensures Step(Xor(c, Padded(message, |c|)), poly)
         == Xor(Step(c[0 := c[0] != message[0]], poly), Padded(message[1..], |c|))
  {
    var x, y := Xor(c, Padded(message, |c|)), c[0 := c[0] != message[0]];
    assert x[0] == y[0];
    forall i | 0 <= i < |c| ensures Step(x, poly)[i] == Xor(Step(y, poly), Padded(message[1..], |c|))[i] {
      if i + 1 < |c| { assert x[i + 1] == (c[i + 1] != Padded(message, |c|)[i + 1]); }
    }
  }

  /** Feeding a message no longer than the register is adding it all at once and then shifting. */
  lemma {:induction false} FeedIsSteps(c: seq<bool>, poly: seq<bool>, message: seq<bool>)
    requires |c| == |poly| > 0 && |message| <= |c|
    ensures Feed(c, poly, message) == Steps(Xor(c, Padded(message, |c|)), poly, |message|)
    decreases |message|
  {
    if message == [] {
      assert Xor(c, Padded(message, |c|)) == c;
    } else {
      StepOfPadded(c, poly, message);
      FeedIsSteps(Step(c[0 := c[0] != message[0]], poly), poly, message[1..]);
    }
  }

  /** Any error confined to as many consecutive bits as the register has is detected: two messages of the
      same length that differ only there leave different registers. */
  lemma BurstDetected(start: seq<bool>, poly: seq<bool>, before: seq<bool>, v: seq<bool>, w: seq<bool>,
                      after: seq<bool>)
    requires |start| == |poly| > 0 && poly[|poly| - 1] && |v| == |w| <= |poly|
    requires Feed(start, poly, before + v + after) == Feed(start, poly, before + w + after)
    ensures v == w
  {
    FeedAppend(start, poly, before + v, after);
    FeedAppend(start, poly, before + w, after);
    FeedInjective(Feed(start, poly, before + v), Feed(start, poly, before + w), poly, after);
    FeedAppend(start, poly, before, v);
    FeedAppend(start, poly, before, w);
    ShortMessageKept(Feed(start, poly, before), poly, v, w);
  }

  lemma ShortMessageKept(c: seq<bool>, poly: seq<bool>, v: seq<bool>, w: seq<bool>)
    requires |c| == |poly| > 0 && poly[|poly| - 1] && |v| == |w| <= |poly| && Feed(c, poly, v) == Feed(c, poly, w)
    ensures v == w
  {
    FeedIsSteps(c, poly, v);
    FeedIsSteps(c, poly, w);
    var x, y := Xor(c, Padded(v, |c|)), Xor(c, Padded(w, |c|));
    StepsInjective(x, y, poly, |v|);
    forall i | 0 <= i < |v| ensures v[i] == w[i] {
      assert x[i] == (c[i] != v[i]) && y[i] == (c[i] != w[i]);
    }
  }

  /** ZeroBits at the low end are only shifted out. */
  lemma {:induction false} StepsOfZeros(c: seq<bool>, poly: seq<bool>, n: nat)
    requires |c| == |poly| > 0 && n <= |c| && forall i :: 0 <= i < n ==> !c[i]
    ensures Steps(c, poly, n) == c[n..] + ZeroBits(n)
    decreases n
  {
    if n == 0 {
      assert c[n..] + ZeroBits(n) == c;
    } else {
      var rest := c[1..] + [false];
      assert Step(c, poly) == rest;
      StepsOfZeros(rest, poly, n - 1);
      assert rest[n - 1..] + ZeroBits(n - 1) == c[n..] + ZeroBits(n);
    }
  }

  // ---- machine words ----

  /** The low `n` bits of a word. */
  function BitsFrom(c: bv32, n: nat): (b: seq<bool>)
    ensures |b| == n
    decreases n
  {
    if n == 0 then [] else [c & 1 == 1] + BitsFrom(c >> 1, n - 1)
  }

  function BitsOf(c: bv32): (b: seq<bool>)
    ensures |b| == WIDTH
  {
    BitsFrom(c, WIDTH)
  }

  // ---- messages ----

  function ByteBits(b: bv8): (s: seq<bool>)
    ensures |s| == BYTE
  {
    BitsFrom(b as bv32, BYTE)
  }

  function Flatten(chunks: seq<seq<bool>>): seq<bool> {
    if chunks == [] then [] else Flatten(chunks[..|chunks| - 1]) + chunks[|chunks| - 1]
  }

  function Chunks(data: seq<bv8>): (chunks: seq<seq<bool>>)
    ensures |chunks| == |data| && forall i :: 0 <= i < |data| ==> |chunks[i]| == BYTE
  {
    seq(|data|, i requires 0 <= i < |data| => ByteBits(data[i]))
  }

  /** The bits of a message, each byte low bit first. */
  function MessageBits(data: seq<bv8>): seq<bool> {
    Flatten(Chunks(data))
  }

  lemma {:induction false} FlattenAppend(a: seq<seq<bool>>, b: seq<seq<bool>>)
    ensures Flatten(a + b) == Flatten(a) + Flatten(b)
    decreases |b|
  {
    if b == [] {
      assert a + b == a;
    } else {
      assert (a + b)[..|a + b| - 1] == a + b[..|b| - 1];
      FlattenAppend(a, b[..|b| - 1]);
    }
  }

  lemma {:induction false} FlattenCount(a: seq<seq<bool>>, m: nat)
    requires forall i :: 0 <= i < |a| ==> |a[i]| == m
    ensures |Flatten(a)| == m * |a|
    decreases |a|
  {
    if a != [] {
      FlattenCount(a[..|a| - 1], m);
      assert m * |a| == m * (|a| - 1) + m;
    }
  }

  lemma SameTail(a: seq<bool>, x: seq<bool>, b: seq<bool>, y: seq<bool>)
    requires a + x == b + y && |a| == |b|
    ensures a == b && x == y
  {
    assert a == (a + x)[..|a|] && b == (b + y)[..|b|] && x == (a + x)[|a|..] && y == (b + y)[|b|..];
  }

  lemma {:induction false} FlattenInjective(a: seq<seq<bool>>, b: seq<seq<bool>>, m: nat)
    requires |a| == |b| && Flatten(a) == Flatten(b)
    requires forall i :: 0 <= i < |a| ==> |a[i]| == m && |b[i]| == m
    ensures a == b
    decreases |a|
  {
    if a != [] {
      var n := |a| - 1;
      FlattenCount(a[..n], m);
      FlattenCount(b[..n], m);
      SameTail(Flatten(a[..n]), a[n], Flatten(b[..n]), b[n]);
      FlattenInjective(a[..n], b[..n], m);
      assert a == a[..n] + [a[n]] && b == b[..n] + [b[n]];
    }
  }

  lemma MessageBitsAppend(a: seq<bv8>, b: seq<bv8>)
    ensures MessageBits(a + b) == MessageBits(a) + MessageBits(b)
  {
    assert Chunks(a + b) == Chunks(a) + Chunks(b);
    FlattenAppend(Chunks(a), Chunks(b));
  }

  lemma MessageBitsOne(b: bv8)
    ensures MessageBits([b]) == ByteBits(b)
  {
    assert Chunks([b]) == [ByteBits(b)];
    assert Flatten([ByteBits(b)]) == Flatten([]) + ByteBits(b);
  }

  lemma ShiftXor(a: bv32, b: bv32, c: bv32)
    requires c == a ^ b
    ensures c >> 1 == (a >> 1) ^ (b >> 1) && (c & 1 == 1 <==> (a & 1 == 1) != (b & 1 == 1))
  {}

  lemma ConsXor(x: bool, xs: seq<bool>, y: bool, ys: seq<bool>)
    requires |xs| == |ys|
    ensures Xor([x] + xs, [y] + ys) == [x != y] + Xor(xs, ys)
  {}

  /** The low `n` bits of `c` are those of `a` and `b`, added. */
  predicate Adds(a: bv32, b: bv32, c: bv32, n: nat)
    decreases n
  {
    n == 0 || ((c & 1 == 1 <==> (a & 1 == 1) != (b & 1 == 1)) && Adds(a >> 1, b >> 1, c >> 1, n - 1))
  }

  lemma {:induction false} XorAdds(a: bv32, b: bv32, c: bv32, n: nat)
    requires c == a ^ b
    ensures Adds(a, b, c, n)
    decreases n
  {
    if n > 0 {
      ShiftXor(a, b, c);
      XorAdds(a >> 1, b >> 1, c >> 1, n - 1);
    }
  }

  lemma {:induction false} BitsOfSum(a: bv32, b: bv32, c: bv32, n: nat)
    requires Adds(a, b, c, n)
    ensures BitsFrom(c, n) == Xor(BitsFrom(a, n), BitsFrom(b, n))
    decreases n
  {
    if n > 0 {
      BitsOfSum(a >> 1, b >> 1, c >> 1, n - 1);
      ConsXor(a & 1 == 1, BitsFrom(a >> 1, n - 1), b & 1 == 1, BitsFrom(b >> 1, n - 1));
    }
  }

  lemma BitsOfXor(a: bv32, b: bv32, c: bv32)
    requires c == a ^ b
    ensures BitsOf(c) == Xor(BitsOf(a), BitsOf(b))
  {
    XorAdds(a, b, c, WIDTH);
    BitsOfSum(a, b, c, WIDTH);
  }

  /** No more than `n` bits. */
  predicate Narrow(x: bv32, n: nat)
    decreases n
  {
    if n == 0 then x == 0 else Narrow(x >> 1, n - 1)
  }

  lemma {:induction false} BitsOfZero(n: nat)
    ensures BitsFrom(0, n) == ZeroBits(n)
  {
    if n > 0 { BitsOfZero(n - 1); }
  }

  /** More bits than a word has are zero. */
  lemma {:induction false} BitsBeyond(x: bv32, n: nat, m: nat)
    requires Narrow(x, n) && n <= m
    ensures BitsFrom(x, m) == BitsFrom(x, n) + ZeroBits(m - n)
    decreases n
  {
    if n == 0 {
      BitsOfZero(m);
    } else {
      BitsBeyond(x >> 1, n - 1, m - 1);
    }
  }

  lemma SameWord(a: bv32, b: bv32)
    requires a >> 1 == b >> 1 && (a & 1 == 1 <==> b & 1 == 1)
    ensures a == b
  {}

  lemma ConsInjective(x: bool, xs: seq<bool>, y: bool, ys: seq<bool>)
    requires [x] + xs == [y] + ys
    ensures x == y && xs == ys
  {
    assert ([x] + xs)[0] == x && ([y] + ys)[0] == y && ([x] + xs)[1..] == xs && ([y] + ys)[1..] == ys;
  }

  lemma {:induction false} BitsInjective(a: bv32, b: bv32, n: nat)
    requires Narrow(a, n) && Narrow(b, n) && BitsFrom(a, n) == BitsFrom(b, n)
    ensures a == b
    decreases n
  {
    if n > 0 {
      ConsInjective(a & 1 == 1, BitsFrom(a >> 1, n - 1), b & 1 == 1, BitsFrom(b >> 1, n - 1));
      BitsInjective(a >> 1, b >> 1, n - 1);
      SameWord(a, b);
    }
  }

  // ---- shifting words ----

  function ShiftRight(x: bv32, k: nat): bv32
    decreases k
  {
    if k == 0 then x else ShiftRight(x >> 1, k - 1)
  }

  /** Dropping bits is shifting right. */
  lemma {:induction false} BitsDropped(x: bv32, n: nat, k: nat)
    requires k <= n
    ensures BitsFrom(x, n)[k..] == BitsFrom(ShiftRight(x, k), n - k)
    decreases k
  {
    if k > 0 {
      BitsDropped(x >> 1, n - 1, k - 1);
      assert BitsFrom(x, n)[k..] == BitsFrom(x, n)[1..][k - 1..];
    }
  }

  lemma {:induction false} NarrowShifted(x: bv32, n: nat, k: nat)
    requires Narrow(ShiftRight(x, k), n)
    ensures Narrow(x, n + k)
    decreases k
  {
    if k > 0 { NarrowShifted(x >> 1, n, k - 1); }
  }

  lemma ShiftFour(x: bv32)
    ensures (((x >> 1) >> 1) >> 1) >> 1 == x >> 4
  {}

  lemma ShiftEight(x: bv32)
    ensures (x >> 4) >> 4 == x >> 8
  {}

  predicate ShiftsTo(x: bv32, k: nat, y: bv32)
    decreases k
  {
    if k == 0 then x == y else ShiftsTo(x >> 1, k - 1, y)
  }

  lemma {:induction false} ShiftRightIs(x: bv32, k: nat, y: bv32)
    requires ShiftsTo(x, k, y)
    ensures ShiftRight(x, k) == y
    decreases k
  {
    if k > 0 { ShiftRightIs(x >> 1, k - 1, y); }
  }

  lemma ShiftsUnrolled(x: bv32, x1: bv32, x2: bv32, x3: bv32, x4: bv32, k: nat)
    requires k == 4 && x1 == x >> 1 && x2 == x1 >> 1 && x3 == x2 >> 1 && x4 == x3 >> 1
    ensures ShiftsTo(x, k, x4)
  {
    assert ShiftsTo(x3, k - 3, x4);
    assert ShiftsTo(x2, k - 2, x4);
    assert ShiftsTo(x1, k - 1, x4);
  }

  lemma ShiftRightFour(x: bv32, k: nat)
    requires k == 4
    ensures ShiftRight(x, k) == x >> 4
  {
    var x1 := x >> 1;
    var x2 := x1 >> 1;
    var x3 := x2 >> 1;
    ShiftFour(x);
    ShiftsUnrolled(x, x1, x2, x3, x >> 4, k);
    ShiftRightIs(x, k, x >> 4);
  }

  lemma {:induction false} ShiftRightTwice(x: bv32, j: nat, k: nat)
    ensures ShiftRight(x, j + k) == ShiftRight(ShiftRight(x, j), k)
    decreases j
  {
    if j > 0 { ShiftRightTwice(x >> 1, j - 1, k); }
  }

  lemma ShiftRightByte(x: bv32)
    ensures ShiftRight(x, BYTE) == x >> 8
  {
    var k := 4;
    ShiftRightTwice(x, k, k);
    ShiftRightFour(x, k);
    ShiftRightFour(x >> 4, k);
    ShiftEight(x);
  }

  lemma ShiftedOut(x: bv32)
    ensures (((x >> 8) >> 8) >> 8) >> 8 == 0
  {}

  /** Every word has thirty-two bits. */
  lemma WordIsNarrow(x: bv32)
    ensures Narrow(x, WIDTH)
  {
    var x1 := x >> 8;
    var x2 := x1 >> 8;
    var x3 := x2 >> 8;
    ShiftedOut(x);
    ShiftRightByte(x);
    ShiftRightByte(x1);
    ShiftRightByte(x2);
    ShiftRightByte(x3);
    NarrowShifted(x3, 0, BYTE);
    NarrowShifted(x2, BYTE, BYTE);
    NarrowShifted(x1, 2 * BYTE, BYTE);
    NarrowShifted(x, 3 * BYTE, BYTE);
  }

  lemma ByteShiftedOut(x: bv32)
    requires x <= 0xFF
    ensures x >> 8 == 0
  {}

  lemma ByteIsNarrow(x: bv32)
    requires x <= 0xFF
    ensures Narrow(x, BYTE)
  {
    ByteShiftedOut(x);
    ShiftRightByte(x);
    NarrowShifted(x, 0, BYTE);
  }

  /** `x >> 1` and `x >> 8`, as bits. */
  lemma BitsShifted(x: bv32, k: nat)
    requires k <= WIDTH
    ensures BitsOf(ShiftRight(x, k)) == BitsOf(x)[k..] + ZeroBits(k)
  {
    WordIsNarrow(x);
    BitsBeyond(x, WIDTH, WIDTH + k);
    BitsDropped(x, WIDTH + k, k);
    assert (BitsOf(x) + ZeroBits(k))[k..] == BitsOf(x)[k..] + ZeroBits(k);
  }

  // ---- the steps of the words ----

  function Poly(): (p: seq<bool>)
    ensures |p| == WIDTH
  {
    BitsOf(POLYNOMIAL)
  }

  lemma TopByte()
    ensures ((POLYNOMIAL >> 8) >> 8) >> 8 == 0xED
  {}

  lemma PolyTop()
    ensures Poly()[WIDTH - 1]
  {
    var p1 := POLYNOMIAL >> 8;
    var p2 := p1 >> 8;
    TopByte();
    ShiftRightByte(POLYNOMIAL);
    ShiftRightByte(p1);
    ShiftRightByte(p2);
    BitsDropped(POLYNOMIAL, WIDTH, BYTE);
    BitsDropped(p1, 3 * BYTE, BYTE);
    BitsDropped(p2, 2 * BYTE, BYTE);
    assert Poly()[WIDTH - 1] == BitsFrom(p1, 3 * BYTE)[3 * BYTE - 1]
        == BitsFrom(p2, 2 * BYTE)[2 * BYTE - 1] == BitsFrom(0xED, BYTE)[BYTE - 1];
    TopOfByte(0xED);
  }

  lemma HighBit(x: bv32)
    requires 0x80 <= x <= 0xFF
    ensures (x >> 4) >> 3 == 1 && (((x >> 4) >> 1) >> 1) >> 1 == (x >> 4) >> 3
  {}

  lemma TopOfByte(x: bv32)
    requires 0x80 <= x <= 0xFF
    ensures BitsFrom(x, BYTE)[BYTE - 1]
  {
    var k := 4;
    ShiftRightFour(x, k);
    BitsDropped(x, BYTE, k);
    HighBit(x);
    var y := x >> 4;
    var y1 := y >> 1;
    var y2 := y1 >> 1;
    assert BitsFrom(x, BYTE)[BYTE - 1] == BitsFrom(y, k)[k - 1] == BitsFrom(y1, k - 1)[k - 2]
        == BitsFrom(y2, k - 2)[k - 3] == BitsFrom(y2 >> 1, k - 3)[0];
  }

  lemma ShiftBitIs(c: bv32)
    ensures if c & 1 == 1 then ShiftBit(c) == (c >> 1) ^ POLYNOMIAL else ShiftBit(c) == c >> 1
  {}

  lemma ShiftBitBits(c: bv32)
    ensures BitsOf(ShiftBit(c)) == Step(BitsOf(c), Poly())
  {
    var one := 1;
    BitsShifted(c, one);
    assert ShiftRight(c, one) == c >> 1;
    assert ZeroBits(one) == [false];
    ShiftBitIs(c);
    if c & 1 == 1 { BitsOfXor(c >> 1, POLYNOMIAL, ShiftBit(c)); }
    assert BitsOf(c)[0] == (c & 1 == 1);
  }

  lemma FourBits(c: bv32, n: nat)
    requires n == 4
    ensures BitsOf(ShiftBit(ShiftBit(ShiftBit(ShiftBit(c))))) == Steps(BitsOf(c), Poly(), n)
  {
    var c1 := ShiftBit(c);
    var c2 := ShiftBit(c1);
    var c3 := ShiftBit(c2);
    ShiftBitBits(c);
    ShiftBitBits(c1);
    ShiftBitBits(c2);
    ShiftBitBits(c3);
    var p := Poly();
    assert Steps(BitsOf(c), p, n) == Steps(BitsOf(c1), p, n - 1) == Steps(BitsOf(c2), p, n - 2)
        == Steps(BitsOf(c3), p, n - 3) == Steps(BitsOf(ShiftBit(c3)), p, n - 4);
  }

  lemma {:induction false} StepsTwice(c: seq<bool>, poly: seq<bool>, j: nat, k: nat)
    requires |c| == |poly| > 0
    ensures Steps(c, poly, j + k) == Steps(Steps(c, poly, j), poly, k)
    decreases j
  {
    if j > 0 { StepsTwice(Step(c, poly), poly, j - 1, k); }
  }

  /** The generator's entry for a word is eight steps of the register. */
  lemma EntryBits(c: bv32)
    ensures BitsOf(Entry(c)) == Steps(BitsOf(c), Poly(), BYTE)
  {
    var k := 4;
    var half := ShiftBit(ShiftBit(ShiftBit(ShiftBit(c))));
    FourBits(c, k);
    FourBits(half, k);
    StepsTwice(BitsOf(c), Poly(), k, k);
  }

  // ---- a byte at a time ----

  /** The low `k` bits are zero. */
  predicate ClearLow(x: bv32, k: nat)
    decreases k
  {
    k == 0 || (x & 1 == 0 && ClearLow(x >> 1, k - 1))
  }

  lemma {:induction false} ClearLowBits(x: bv32, n: nat, k: nat)
    requires ClearLow(x, k) && k <= n
    ensures forall i :: 0 <= i < k ==> !BitsFrom(x, n)[i]
    decreases k
  {
    if k > 0 {
      ClearLowBits(x >> 1, n - 1, k - 1);
      forall i | 0 <= i < k ensures !BitsFrom(x, n)[i] {
        if i > 0 { assert BitsFrom(x, n)[i] == BitsFrom(x >> 1, n - 1)[i - 1]; }
      }
    }
  }

  lemma ClearNibble(x: bv32, x1: bv32, x2: bv32, x3: bv32)
    requires x & 0xF == 0 && x1 == x >> 1 && x2 == x1 >> 1 && x3 == x2 >> 1
    ensures x & 1 == 0 && x1 & 1 == 0 && x2 & 1 == 0 && x3 & 1 == 0
  {}

  lemma ClearUnrolled(x: bv32, x1: bv32, x2: bv32, x3: bv32, x4: bv32, k: nat)
    requires k >= 4 && x1 == x >> 1 && x2 == x1 >> 1 && x3 == x2 >> 1 && x4 == x3 >> 1
    requires x & 1 == 0 && x1 & 1 == 0 && x2 & 1 == 0 && x3 & 1 == 0 && ClearLow(x4, k - 4)
    ensures ClearLow(x, k)
  {
    assert ClearLow(x3, k - 3);
    assert ClearLow(x2, k - 2);
    assert ClearLow(x1, k - 1);
  }

  lemma ClearFour(x: bv32, k: nat)
    requires k >= 4 && x & 0xF == 0 && ClearLow(x >> 4, k - 4)
    ensures ClearLow(x, k)
  {
    var x1 := x >> 1;
    var x2 := x1 >> 1;
    var x3 := x2 >> 1;
    ShiftFour(x);
    ClearNibble(x, x1, x2, x3);
    ClearUnrolled(x, x1, x2, x3, x >> 4, k);
  }

  lemma ClearHighNibble(x: bv32)
    requires x & 0xFF == 0
    ensures x & 0xF == 0 && (x >> 4) & 0xF == 0
  {}

  lemma ByteIsClear(x: bv32)
    requires x & 0xFF == 0
    ensures ClearLow(x, BYTE)
  {
    ClearHighNibble(x);
    ClearFour(x >> 4, BYTE - 4);
    ClearFour(x, BYTE);
  }

  lemma Split(c: bv32, y: bv32, x: bv32, low: bv32, high: bv32)
    requires y <= 0xFF && x == c ^ y && low == x & 0xFF && high == x & 0xFFFF_FF00
    ensures x == low ^ high && high & 0xFF == 0 && high >> 8 == c >> 8
  {}

  lemma ByteFits(b: bv8)
    ensures b as bv32 <= 0xFF
  {}

  /** A byte as a message is a word added to the register. */
  lemma BytePadded(y: bv32)
    requires y <= 0xFF
    ensures Padded(BitsFrom(y, BYTE), WIDTH) == BitsOf(y)
  {
    ByteIsNarrow(y);
    BitsBeyond(y, BYTE, WIDTH);
  }

  /** Eight steps of a register whose low byte is clear only shift it. */
  lemma StepsOfHigh(high: bv32)
    requires high & 0xFF == 0
    ensures Steps(BitsOf(high), Poly(), BYTE) == BitsOf(ShiftRight(high, BYTE))
  {
    ByteIsClear(high);
    ClearLowBits(high, WIDTH, BYTE);
    StepsOfZeros(BitsOf(high), Poly(), BYTE);
    BitsShifted(high, BYTE);
  }

  lemma FeedByte(c: bv32, y: bv32, x: bv32)
    requires y <= 0xFF && x == c ^ y
    ensures Feed(BitsOf(c), Poly(), BitsFrom(y, BYTE)) == Steps(BitsOf(x), Poly(), BYTE)
  {
    BytePadded(y);
    FeedIsSteps(BitsOf(c), Poly(), BitsFrom(y, BYTE));
    BitsOfXor(c, y, x);
  }

  lemma StepsOfSum(x: bv32, low: bv32, high: bv32)
    requires x == low ^ high && high & 0xFF == 0
    ensures Steps(BitsOf(x), Poly(), BYTE) == Xor(BitsOf(Entry(low)), BitsOf(ShiftRight(high, BYTE)))
  {
    BitsOfXor(low, high, x);
    StepsLinear(BitsOf(low), BitsOf(high), Poly(), BYTE);
    EntryBits(low);
    StepsOfHigh(high);
  }

  lemma XorCommutes(a: seq<bool>, b: seq<bool>)
    requires |a| == |b|
    ensures Xor(a, b) == Xor(b, a)
  {}

  lemma XorWords(up: bv32, t: bv32, r: bv32)
    requires r == up ^ t
    ensures BitsOf(r) == Xor(BitsOf(t), BitsOf(up))
  {
    BitsOfXor(up, t, r);
    XorCommutes(BitsOf(up), BitsOf(t));
  }

  lemma StepsToEntry(x: bv32, low: bv32, high: bv32, up: bv32, t: bv32)
    requires x == low ^ high && high & 0xFF == 0 && high >> 8 == up && t == Entry(low)
    ensures Steps(BitsOf(x), Poly(), BYTE) == Xor(BitsOf(t), BitsOf(up))
  {
    StepsOfSum(x, low, high);
    ShiftRightByte(high);
  }

  lemma TableStepWords(c: bv32, y: bv32, x: bv32, low: bv32, high: bv32, up: bv32, t: bv32, r: bv32)
    requires y <= 0xFF && x == c ^ y && low == x & 0xFF && high == x & 0xFFFF_FF00
    requires t == Entry(low) && up == c >> 8 && r == up ^ t
    ensures BitsOf(r) == Feed(BitsOf(c), Poly(), BitsFrom(y, BYTE))
  {
    Split(c, y, x, low, high);
    StepsToEntry(x, low, high, up, t);
    XorWords(up, t, r);
    FeedByte(c, y, x);
  }

  /** One step of the table form feeds a byte to the register. */
  lemma TableStep(c: bv32, b: bv8, index: bv8, r: bv32)
    requires index as bv32 == (c ^ b as bv32) & 0xFF && r == (c >> 8) ^ Table(index)
    ensures BitsOf(r) == Feed(BitsOf(c), Poly(), BitsFrom(b as bv32, BYTE))
  {
    var y := b as bv32;
    var x := c ^ y;
    ByteFits(b);
    TableRight(index);
    TableStepWords(c, y, x, x & 0xFF, x & 0xFFFF_FF00, c >> 8, Table(index), r);
  }

  // ---- the checksum ----

  const ONES: bv32 := 0xFFFF_FFFF

  /** The register after a message, from an earlier register or, when that is zero, from all ones; in
      the latter case it is inverted at the end. */
  function Checksum(data: seq<bv8>, crc: bv32): (r: seq<bool>)
    ensures |r| == WIDTH
  {
    if crc != 0 then Feed(BitsOf(crc), Poly(), MessageBits(data)) else Xor(Feed(BitsOf(ONES), Poly(),
                                                                                MessageBits(data)),
                                                                           BitsOf(ONES))
  }

  lemma LowByteFits(c: bv32, y: bv32)
    ensures (c ^ y) & 0xFF <= 0xFF
  {}

  lemma NarrowedFits(x: bv32)
    requires x <= 0xFF
    ensures (x as bv8) as bv32 == x
  {}

  method NextRegister(crc: bv32, b: bv8) returns (r: bv32)
    ensures BitsOf(r) == Feed(BitsOf(crc), Poly(), ByteBits(b))
  {
    LowByteFits(crc, b as bv32);
    NarrowedFits((crc ^ b as bv32) & 0xFF);
    var index := ((crc ^ b as bv32) & 0xFF) as bv8;
    r := (crc >> 8) ^ Table(index);
    TableStep(crc, b, index, r);
  }

  lemma FeedNext(c: seq<bool>, data: seq<bv8>, i: nat)
    requires i < |data| && |c| == WIDTH
    ensures Feed(c, Poly(), MessageBits(data[..i + 1]))
         == Feed(Feed(c, Poly(), MessageBits(data[..i])), Poly(), ByteBits(data[i]))
  {
    assert data[..i + 1] == data[..i] + [data[i]];
    MessageBitsAppend(data[..i], [data[i]]);
    MessageBitsOne(data[i]);
    FeedAppend(c, Poly(), MessageBits(data[..i]), ByteBits(data[i]));
  }

  /** The checksum, with the table. */
  method Crc32(data: seq<bv8>, crc32: bv32) returns (r: bv32)
    ensures BitsOf(r) == Checksum(data, crc32)
  {
    var crc := if crc32 != 0 then crc32 else ONES;
    ghost var start := BitsOf(crc);
    for i := 0 to |data|
      invariant BitsOf(crc) == Feed(start, Poly(), MessageBits(data[..i]))
    {
      FeedNext(start, data, i);
      crc := NextRegister(crc, data[i]);
    }
    assert data[..|data|] == data;
    if crc32 != 0 {
      r := crc;
    } else {
      r := crc ^ ONES;
      BitsOfXor(crc, ONES, r);
    }
  }

  function Shifted(c: bv32, n: nat): bv32 {
    if n == 0 then c else ShiftBit(Shifted(c, n - 1))
  }

  lemma ShiftedFour(c: bv32, n: nat)
    requires n == 4
    ensures Shifted(c, n) == ShiftBit(ShiftBit(ShiftBit(ShiftBit(c))))
  {
    assert Shifted(c, n - 3) == ShiftBit(Shifted(c, n - 4)) == ShiftBit(c);
    assert Shifted(c, n - 2) == ShiftBit(Shifted(c, n - 3));
    assert Shifted(c, n - 1) == ShiftBit(Shifted(c, n - 2));
  }

  lemma {:induction false} ShiftedTwice(c: bv32, j: nat, k: nat)
    ensures Shifted(c, j + k) == Shifted(Shifted(c, j), k)
    decreases k
  {
    if k > 0 { ShiftedTwice(c, j, k - 1); }
  }

  lemma ShiftedByte(c: bv32)
    ensures Shifted(c, BYTE) == Entry(c)
  {
    var k := 4;
    ShiftedTwice(c, k, k);
    ShiftedFour(c, k);
    ShiftedFour(Shifted(c, k), k);
  }

  /** The generator of the table: the inner loop, which makes one entry, ... */
  method GenerateEntry(i: bv8) returns (crc: bv32)
    ensures crc == Table(i)
  {
    crc := i as bv32;
    ghost var first := crc;
    var j := 0;
    while j < BYTE
      invariant 0 <= j <= BYTE && crc == Shifted(first, j)
    {
      ShiftBitIs(crc);
      if crc & 1 == 1 {
        crc := (crc >> 1) ^ POLYNOMIAL;
      } else {
        crc := crc >> 1;
      }
      j := j + 1;
    }
    ShiftedByte(first);
    TableRight(i);
  }

  /** Entry `k` of the table. */
  predicate IsEntry(crc: bv32, k: nat) {
    k < 256 && crc == Table(k as bv8)
  }

  /** The beginning of the table. */
  ghost predicate IsTable(s: seq<bv32>) {
    if s == [] then true else IsTable(s[..|s| - 1]) && IsEntry(s[|s| - 1], |s| - 1)
  }

  lemma {:induction false} TableEntry(s: seq<bv32>, k: nat)
    requires IsTable(s) && k < |s|
    ensures k < 256 && s[k] == Table(k as bv8)
    decreases |s|
  {
    if k < |s| - 1 { TableEntry(s[..|s| - 1], k); }
  }

  /** ... and the outer loop: what it generates is the table that the checksum uses. */
  method GenerateTable(table: array<bv32>)
    requires table.Length == 256
    modifies table
    ensures forall k: nat :: k < 256 ==> table[k] == Table(k as bv8)
  {
    for i := 0 to 256
      invariant IsTable(table[..i])
    {
      ghost var done := table[..i];
      var crc := NextEntry(i);
      table[i] := crc;
      assert table[..i] == done && table[..i + 1][..i] == table[..i];
    }
    forall k: nat | k < 256 ensures table[k] == Table(k as bv8) { TableEntry(table[..256], k); }
  }

  method NextEntry(i: nat) returns (crc: bv32)
    requires i < 256
    ensures IsEntry(crc, i)
  {
    crc := GenerateEntry(i as bv8);
  }

  // ---- what it detects ----

  lemma WidenInjective(a: bv8, b: bv8)
    requires a as bv32 == b as bv32
    ensures a == b
  {}

  lemma ByteInjective(a: bv8, b: bv8)
    requires ByteBits(a) == ByteBits(b)
    ensures a == b
  {
    ByteFits(a);
    ByteFits(b);
    ByteIsNarrow(a as bv32);
    ByteIsNarrow(b as bv32);
    BitsInjective(a as bv32, b as bv32, BYTE);
    WidenInjective(a, b);
  }

  /** The bits determine the bytes. */
  lemma MessageBitsInjective(a: seq<bv8>, b: seq<bv8>)
    requires |a| == |b| && MessageBits(a) == MessageBits(b)
    ensures a == b
  {
    FlattenInjective(Chunks(a), Chunks(b), BYTE);
    forall i | 0 <= i < |a| ensures a[i] == b[i] {
      assert Chunks(a)[i] == Chunks(b)[i];
      ByteInjective(a[i], b[i]);
    }
  }

  lemma XorInjective(a: seq<bool>, b: seq<bool>, x: seq<bool>)
    requires |a| == |b| == |x| && Xor(a, x) == Xor(b, x)
    ensures a == b
  {
    forall i | 0 <= i < |a| ensures a[i] == b[i] { assert Xor(a, x)[i] == Xor(b, x)[i]; }
  }

  lemma ThreeParts(a: seq<bv8>, b: seq<bv8>, c: seq<bv8>)
    ensures MessageBits(a + b + c) == MessageBits(a) + MessageBits(b) + MessageBits(c)
  {
    MessageBitsAppend(a, b);
    MessageBitsAppend(a + b, c);
  }

  lemma FourBytesFed(start: seq<bool>, poly: seq<bool>, before: seq<bv8>, v: seq<bv8>, w: seq<bv8>, after: seq<bv8>)
    requires |start| == |poly| == WIDTH && poly[WIDTH - 1] && |v| == |w| <= 4
    requires Feed(start, poly, MessageBits(before + v + after)) == Feed(start, poly, MessageBits(before + w + after))
    ensures v == w
  {
    ThreeParts(before, v, after);
    ThreeParts(before, w, after);
    FlattenCount(Chunks(v), BYTE);
    FlattenCount(Chunks(w), BYTE);
    BurstDetected(start, poly, MessageBits(before), MessageBits(v), MessageBits(w), MessageBits(after));
    MessageBitsInjective(v, w);
  }

  /** Any error within four consecutive bytes is detected: two messages of the same length that differ
      only there never have the same checksum. */
  lemma FourBytesDetected(before: seq<bv8>, v: seq<bv8>, w: seq<bv8>, after: seq<bv8>, crc: bv32)
    requires |v| == |w| <= 4 && Checksum(before + v + after, crc) == Checksum(before + w + after, crc)
    ensures v == w
  {
    var start, poly := if crc != 0 then BitsOf(crc) else BitsOf(ONES), Poly();
    var x, y := Feed(start, poly, MessageBits(before + v + after)), Feed(start, poly, MessageBits(before + w + after));
    PolyTop();
    if crc == 0 { XorInjective(x, y, BitsOf(ONES)); }
    FourBytesFed(start, poly, before, v, w, after);
  }
}
