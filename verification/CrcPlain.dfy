/** The start value and the final inversion of the checksum: a message whose first four bytes are inverted, from a
    register of zeros, and known checksums. */
module CrcPlain {
  import opened CrcTables
  import opened Crc32

  function Negated(b: seq<bool>): (n: seq<bool>)
    ensures |n| == |b| && forall i :: 0 <= i < |b| ==> n[i] == !b[i]
  {
    seq(|b|, i requires 0 <= i < |b| => !b[i])
  }

  // ---- all ones ----

  /** A word whose low byte is all ones starts with eight ones. */
  lemma LowByteOnes(x: bv32)
    requires x & 0xFF == 0xFF
    ensures forall i :: 0 <= i < 8 ==> BitsFrom(x, 8)[i]
  {
    var four := 4;
    LowFour(x);
    ShiftRightFour(x, four);
    BitsDropped(x, 8, four);
    assert (x >> 4) & 0xF == 0xF;
    LowFour(x >> 4);
    TakeFour(x);
    forall i | 0 <= i < 8 ensures BitsFrom(x, 8)[i] {
      if i < 4 {
        assert BitsFrom(x, 8)[i] == BitsFrom(x, 8)[..4][i];
      } else {
        assert BitsFrom(x, 8)[i] == BitsFrom(x, 8)[4..][i - 4];
      }
    }
  }

  lemma LowFour(x: bv32)
    requires x & 0xF == 0xF
    ensures BitsFrom(x, 4) == [true, true, true, true]
  {
    assert (x >> 1) & 7 == 7 && ((x >> 1) >> 1) & 3 == 3 && (((x >> 1) >> 1) >> 1) & 1 == 1;
    assert x & 1 == 1 && (x >> 1) & 1 == 1 && ((x >> 1) >> 1) & 1 == 1;
    var a, b, c := x >> 1, (x >> 1) >> 1, ((x >> 1) >> 1) >> 1;
    assert BitsFrom(c, 1) == [true] + BitsFrom(c >> 1, 0);
    assert BitsFrom(b, 2) == [true] + BitsFrom(c, 1);
    assert BitsFrom(a, 3) == [true] + BitsFrom(b, 2);
  }

  lemma TakeFour(x: bv32)
    ensures BitsFrom(x, 8)[..4] == BitsFrom(x, 4)
  {
    var n, m := 4, 8;
    BitsTaken(x, n, m);
  }

  lemma {:induction false} BitsTaken(x: bv32, n: nat, m: nat)
    requires n <= m
    ensures BitsFrom(x, m)[..n] == BitsFrom(x, n)
    decreases n
  {
    if n > 0 {
      BitsTaken(x >> 1, n - 1, m - 1);
      assert BitsFrom(x, m)[..n] == [x & 1 == 1] + BitsFrom(x >> 1, m - 1)[..n - 1];
    }
  }

  lemma Bytes32(x: bv32)
    ensures BitsFrom(x, 32)[..8] == BitsFrom(x, 8)
    ensures BitsFrom(x, 32)[8..] == BitsFrom(x >> 8, 24)
  {
    var m := 32;
    BitsTaken(x, 8, m);
    ShiftRightByte(x);
    BitsDropped(x, m, 8);
  }

  /** All bits of the start value are ones. */
  lemma AllOnes(n: nat)
    requires n == 32
    ensures forall i :: 0 <= i < n ==> BitsFrom(0xFFFF_FFFF, n)[i]
  {
    var x: bv32 := 0xFFFF_FFFF;
    var k := 8;
    OnesOf(x, n);
    OnesOf(x >> 8, n - k);
    OnesOf((x >> 8) >> 8, n - k - k);
    LowByteOnes(((x >> 8) >> 8) >> 8);
  }

  /** Eight ones in front of the bits of the rest. */
  lemma OnesOf(x: bv32, n: nat)
    requires x & 0xFF == 0xFF && n >= 8
    ensures forall i :: 0 <= i < 8 ==> BitsFrom(x, n)[i]
    ensures forall i :: 8 <= i < n ==> BitsFrom(x, n)[i] == BitsFrom(x >> 8, n - 8)[i - 8]
  {
    var k := 8;
    LowByteOnes(x);
    BitsTaken(x, k, n);
    ShiftRightByte(x);
    BitsDropped(x, n, k);
    forall i | 0 <= i < 8 ensures BitsFrom(x, n)[i] { assert BitsFrom(x, n)[i] == BitsFrom(x, n)[..k][i]; }
    forall i | 8 <= i < n ensures BitsFrom(x, n)[i] == BitsFrom(x >> 8, n - 8)[i - 8] {
      assert BitsFrom(x, n)[i] == BitsFrom(x, n)[k..][i - 8];
    }
  }

  // ---- the start value ----

  /** Registers that differ in as many low bits as are fed, fed with opposite bits, become the same. */
  lemma {:induction false} OppositeFed(r: seq<bool>, q: seq<bool>, poly: seq<bool>, m: seq<bool>, n: seq<bool>)
    requires |r| == |q| == |poly| > 0 && |m| <= |r| && n == Negated(m)
    requires forall i :: 0 <= i < |r| ==> (r[i] != q[i] <==> i < |m|)
    ensures Feed(r, poly, m) == Feed(q, poly, n)
    decreases |m|
  {
    if m == [] {
      assert r == q;
    } else {
      var x, y := r[0 := r[0] != m[0]], q[0 := q[0] != n[0]];
      assert x[0] == y[0];
      OppositeStep(x, y, poly, |m|);
      assert n[1..] == Negated(m[1..]);
      OppositeFed(Step(x, poly), Step(y, poly), poly, m[1..], n[1..]);
    }
  }

  lemma OppositeStep(x: seq<bool>, y: seq<bool>, poly: seq<bool>, k: nat)
    requires |x| == |y| == |poly| > 0 && 0 < k <= |x| && x[0] == y[0]
    requires forall i :: 0 < i < |x| ==> (x[i] != y[i] <==> i < k)
    ensures forall i :: 0 <= i < |x| ==> (Step(x, poly)[i] != Step(y, poly)[i] <==> i < k - 1)
  {
    forall i | 0 <= i < |x| ensures Step(x, poly)[i] != Step(y, poly)[i] <==> i < k - 1 {
      if i + 1 < |x| { assert x[i + 1] != y[i + 1] <==> i + 1 < k; }
    }
  }

  /** Every bit of a fresh checksum, without its start value and its final inversion: the opposite of what a register
      of zeros becomes over the message with its first 32 bits inverted. */
  lemma FreshChecksum(v: seq<bv8>, rest: seq<bv8>, i: nat)
    requires |v| == 4 && i < 32
    ensures Checksum(v + rest, 0)[i]
         == !Feed(ZeroBits(32), Poly(), Negated(MessageBits(v)) + MessageBits(rest))[i]
  {
    var a, b := MessageBits(v), MessageBits(rest);
    FlattenCount(Chunks(v), BYTE);
    AllOnes(32);
    var ones := BitsOf(0xFFFF_FFFF);
    MessageBitsAppend(v, rest);
    FeedAppend(ones, Poly(), a, b);
    FeedAppend(ZeroBits(32), Poly(), Negated(a), b);
    OppositeFed(ones, ZeroBits(32), Poly(), a, Negated(a));
    assert Checksum(v + rest, 0) == Xor(Feed(ones, Poly(), a + b), ones);
  }

  // ---- known checksums ----

  /** The checksum of one zero byte is 0xD202EF8D. */
  lemma ChecksumOfZero()
    ensures Checksum([0], 0) == BitsOf(0xD202_EF8D)
  {
    var r: bv32 := 0x2DFD_1072;
    MessageBitsOne(0);
    assert Table(0xFF) == 0x2D02_EF8D;
    TableStep(0xFFFF_FFFF, 0, 0xFF, r);
    BitsOfXor(r, 0xFFFF_FFFF, 0xD202_EF8D);
  }

  /** The register after one byte more, in words. */
  function NextWord(crc: bv32, b: bv8): bv32 {
    LowByteFits(crc, b as bv32);
    (crc >> 8) ^ Table(((crc ^ b as bv32) & 0xFF) as bv8)
  }

  lemma WordRight(crc: bv32, b: bv8)
    ensures BitsOf(NextWord(crc, b)) == Feed(BitsOf(crc), Poly(), ByteBits(b))
  {
    LowByteFits(crc, b as bv32);
    NarrowedFits((crc ^ b as bv32) & 0xFF);
    TableStep(crc, b, ((crc ^ b as bv32) & 0xFF) as bv8, NextWord(crc, b));
  }

  function Register(data: seq<bv8>, i: nat, start: bv32): bv32
    requires i <= |data|
  {
    if i == 0 then start else NextWord(Register(data, i - 1, start), data[i - 1])
  }

  lemma {:induction false} RegisterRight(data: seq<bv8>, i: nat, start: bv32)
    requires i <= |data|
    ensures BitsOf(Register(data, i, start)) == Feed(BitsOf(start), Poly(), MessageBits(data[..i]))
    decreases i
  {
    if i == 0 {
      assert Chunks(data[..i]) == [];
    } else {
      RegisterRight(data, i - 1, start);
      WordRight(Register(data, i - 1, start), data[i - 1]);
      FeedNext(BitsOf(start), data, i - 1);
    }
  }

  lemma RegisterNext(data: seq<bv8>, i: nat, start: bv32, p: bv32, q: bv32)
    requires i < |data| && Register(data, i, start) == p && NextWord(p, data[i]) == q
    ensures Register(data, i + 1, start) == q
  {}

  lemma FirstWords()
    ensures NextWord(0xFFFF_FFFF, 0x31) == 0x7C23_1048
    ensures NextWord(0x7C23_1048, 0x32) == 0xB0AC_BB32
    ensures NextWord(0xB0AC_BB32, 0x33) == 0x77B7_9C2D
  {}

  lemma OverFirst(data: seq<bv8>, start: bv32)
    requires |data| == 9 && data[0] == 0x31 && data[1] == 0x32 && data[2] == 0x33
    requires Register(data, 0, start) == 0xFFFF_FFFF
    ensures Register(data, 3, start) == 0x77B7_9C2D
  {
    FirstWords();
    RegisterNext(data, 0, start, 0xFFFF_FFFF, 0x7C23_1048);
    RegisterNext(data, 1, start, 0x7C23_1048, 0xB0AC_BB32);
    RegisterNext(data, 2, start, 0xB0AC_BB32, 0x77B7_9C2D);
  }

  lemma MiddleWords()
    ensures NextWord(0x77B7_9C2D, 0x34) == 0x641C_1F5C
    ensures NextWord(0x641C_1F5C, 0x35) == 0x340A_C5E3
    ensures NextWord(0x340A_C5E3, 0x36) == 0xF68D_2C9E
  {}

  lemma OverMiddle(data: seq<bv8>, start: bv32)
    requires |data| == 9 && data[3] == 0x34 && data[4] == 0x35 && data[5] == 0x36
    requires Register(data, 3, start) == 0x77B7_9C2D
    ensures Register(data, 6, start) == 0xF68D_2C9E
  {
    MiddleWords();
    RegisterNext(data, 3, start, 0x77B7_9C2D, 0x641C_1F5C);
    RegisterNext(data, 4, start, 0x641C_1F5C, 0x340A_C5E3);
    RegisterNext(data, 5, start, 0x340A_C5E3, 0xF68D_2C9E);
  }

  lemma LastWords()
    ensures NextWord(0xF68D_2C9E, 0x37) == 0xAFFC_9660
    ensures NextWord(0xAFFC_9660, 0x38) == 0x651F_2550
    ensures NextWord(0x651F_2550, 0x39) == 0x340B_C6D9
  {}

  lemma OverLast(data: seq<bv8>, start: bv32)
    requires |data| == 9 && data[6] == 0x37 && data[7] == 0x38 && data[8] == 0x39
    requires Register(data, 6, start) == 0xF68D_2C9E
    ensures Register(data, 9, start) == 0x340B_C6D9
  {
    LastWords();
    RegisterNext(data, 6, start, 0xF68D_2C9E, 0xAFFC_9660);
    RegisterNext(data, 7, start, 0xAFFC_9660, 0x651F_2550);
    RegisterNext(data, 8, start, 0x651F_2550, 0x340B_C6D9);
  }

  /** The usual check value: of the digits 1 to 9 it is 0xCBF43926. */
  lemma ChecksumOfDigits(data: seq<bv8>, ones: bv32, check: bv32)
    requires data == [0x31, 0x32, 0x33, 0x34, 0x35, 0x36, 0x37, 0x38, 0x39]
    requires ones == 0xFFFF_FFFF && check == 0xCBF4_3926
    ensures Checksum(data, 0) == BitsOf(check)
  {
    var r := Register(data, 9, ones);
    OverFirst(data, ones);
    OverMiddle(data, ones);
    OverLast(data, ones);
    RegisterRight(data, 9, ones);
    assert data[..9] == data;
    BitsOfXor(r, ones, check);
  }

  method CheckDigits() returns (r: bv32)
    ensures BitsOf(r) == BitsOf(0xCBF4_3926)
  {
    var data := [0x31, 0x32, 0x33, 0x34, 0x35, 0x36, 0x37, 0x38, 0x39];
    ChecksumOfDigits(data, 0xFFFF_FFFF, 0xCBF4_3926);
    r := Crc32.Crc32(data, 0);
  }
}
