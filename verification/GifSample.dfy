/** A GIF image byte for byte: codes of growing width, each the entry that it completes. */
module GifSample {
  import opened Bits
  import opened BitStream
  import opened GifLzw
  import opened GifDecoder
  import opened GifRaster

  // ---- the codes ----

  /** Two-bit roots: the clear code 4, the root 1, the entries 6 and 7 as they are defined, and, of four bits by then,
      the end code 5. */
  predicate IsPayload(p: seq<byte>) {
    |p| == 2 && p[0] == 0x8C && p[1] == 0x5F
  }

  lemma ValOfThree(b: seq<bool>)
    requires |b| == 3
    ensures Val(b) == Num(b[0]) + 2 * Num(b[1]) + 4 * Num(b[2])
  {
    var c, d := b[1..], b[2..];
    assert c[1..] == d && d[1..] == [];
    assert Val(d) == Num(b[2]);
    assert Val(c) == Num(b[1]) + 2 * Val(d);
  }

  lemma PayloadCodes(p: seq<byte>)
    requires IsPayload(p)
    ensures Val(Window(p, 0, 3)) == 4 && Val(Window(p, 3, 3)) == 1 && Val(Window(p, 6, 3)) == 6
    ensures Val(Window(p, 9, 3)) == 7 && Val(Window(p, 12, 4)) == 5
  {
    var b, c := [false, false, true, true, false, false, false, true],
                [true, true, true, true, true, false, true, false];
    Piece(p, 0, b, c, 0, [false, false, true], 0);
    Piece(p, 0, b, c, 3, [true, false, false], 3);
    Piece(p, 0, b, c, 6, [false, true, true], 6);
    Piece(p, 0, b, c, 9, [true, true, true], 9);
    Piece(p, 0, b, c, 12, [true, false, true, false], 12);
    ValOfThree([false, false, true]);
    ValOfThree([true, false, false]);
    ValOfThree([false, true, true]);
    ValOfThree([true, true, true]);
    ValOfFour([true, false, true, false]);
  }

  lemma Words(cs: seq<nat>)
    requires [1] <= cs <= [1, 6, 7]
    ensures Legal(4, cs) && Word(4, cs, 1) == [1]
    ensures |cs| >= 2 ==> Word(4, cs, 6) == [1, 1]
    ensures |cs| >= 3 ==> Word(4, cs, 7) == [1, 1, 1]
  {
    assert First(4, cs, 1) == 1;
    if |cs| >= 2 {
      assert First(4, cs, 6) == First(4, cs, cs[0]);
      assert Word(4, cs, 6) == Word(4, cs, cs[0]) + [First(4, cs, cs[1])];
    }
    if |cs| >= 3 {
      assert First(4, cs, 7) == First(4, cs, cs[1]);
      assert Word(4, cs, 7) == Word(4, cs, cs[1]) + [First(4, cs, cs[2])];
    }
  }

  // ---- the decoder's steps ----

  lemma StepClear(st: Lzw, next: Lzw)
    requires st == Initial(2) && next == Lzw(2, [], true, 3)
    ensures st.Valid() && StepOf(st, 4) == Next(next) && WordOf(st, 4) == []
  {
    Pow2Value(2);
  }

  lemma StepRoot(st: Lzw, next: Lzw)
    requires st == Lzw(2, [], true, 3) && next == Lzw(2, [1], true, 3)
    ensures st.Valid() && StepOf(st, 1) == Next(next) && WordOf(st, 1) == [1]
  {
    Pow2Value(2);
    Pow2Value(3);
    assert [] + [1] == [1];
    Words([1]);
  }

  lemma StepSix(st: Lzw, next: Lzw)
    requires st == Lzw(2, [1], true, 3) && next == Lzw(2, [1, 6], true, 3)
    ensures st.Valid() && StepOf(st, 6) == Next(next) && WordOf(st, 6) == [1, 1]
  {
    Pow2Value(2);
    Pow2Value(3);
    assert [1] + [6] == [1, 6];
    Words([1, 6]);
  }

  lemma StepSeven(st: Lzw, next: Lzw)
    requires st == Lzw(2, [1, 6], true, 3) && next == Lzw(2, [1, 6, 7], true, 4)
    ensures st.Valid() && StepOf(st, 7) == Next(next) && WordOf(st, 7) == [1, 1, 1]
  {
    Pow2Value(2);
    Pow2Value(3);
    assert [1, 6] + [7] == [1, 6, 7];
    Words([1, 6, 7]);
  }

  lemma StepEnd(st: Lzw)
    requires st == Lzw(2, [1, 6, 7], true, 4)
    ensures st.Valid() && StepOf(st, 5) == Stop(Finished)
  {
    Pow2Value(2);
  }

  /** One code and what the rest of the stream yields. */
  lemma Then(p: seq<byte>, at: nat, st: Lzw, code: nat, next: Lzw, word: seq<byte>, rest: seq<byte>, all: seq<byte>)
    requires st.Valid() && at + st.width <= 8 * |p| && Val(Window(p, at, st.width)) == code
    requires StepOf(st, code) == Next(next) && next.Valid() && WordOf(st, code) == word
    requires Decode(p, at + st.width, next) == Decoded(rest, Finished) && all == word + rest
    ensures Decode(p, at, st) == Decoded(all, Finished)
  {
    DecodeStep(p, at, st, code);
  }

  lemma FromEnd(p: seq<byte>, st: Lzw)
    requires IsPayload(p) && st == Lzw(2, [1, 6, 7], true, 4)
    ensures st.Valid() && Decode(p, 12, st) == Decoded([], Finished)
  {
    PayloadCodes(p);
    StepEnd(st);
    DecodeStep(p, 12, st, 5);
  }

  lemma FromSeven(p: seq<byte>, st: Lzw, next: Lzw)
    requires IsPayload(p) && st == Lzw(2, [1, 6], true, 3) && next == Lzw(2, [1, 6, 7], true, 4)
    ensures st.Valid() && Decode(p, 9, st) == Decoded([1, 1, 1], Finished)
  {
    PayloadCodes(p);
    StepSeven(st, next);
    FromEnd(p, next);
    Then(p, 9, st, 7, next, [1, 1, 1], [], [1, 1, 1]);
  }

  lemma FromSix(p: seq<byte>, st: Lzw, next: Lzw)
    requires IsPayload(p) && st == Lzw(2, [1], true, 3) && next == Lzw(2, [1, 6], true, 3)
    ensures st.Valid() && Decode(p, 6, st) == Decoded([1, 1, 1, 1, 1], Finished)
  {
    PayloadCodes(p);
    StepSix(st, next);
    FromSeven(p, next, Lzw(2, [1, 6, 7], true, 4));
    Then(p, 6, st, 6, next, [1, 1], [1, 1, 1], [1, 1, 1, 1, 1]);
  }

  lemma OneAndFive() returns (word: seq<byte>, rest: seq<byte>, all: seq<byte>)
    ensures word == [1] && rest == [1, 1, 1, 1, 1] && all == [1, 1, 1, 1, 1, 1] == word + rest
  {
    word, rest, all := [1], [1, 1, 1, 1, 1], [1, 1, 1, 1, 1, 1];
  }

  lemma FromRoot(p: seq<byte>, st: Lzw, next: Lzw)
    requires IsPayload(p) && st == Lzw(2, [], true, 3) && next == Lzw(2, [1], true, 3)
    ensures st.Valid() && Decode(p, 3, st) == Decoded([1, 1, 1, 1, 1, 1], Finished)
  {
    var word, rest, all := OneAndFive();
    assert Val(Window(p, 3, 3)) == 1 by { PayloadCodes(p); }
    StepRoot(st, next);
    FromSix(p, next, Lzw(2, [1, 6], true, 3));
    Then(p, 3, st, 1, next, word, rest, all);
  }

  lemma PayloadDecodes(p: seq<byte>, st: Lzw, next: Lzw)
    requires IsPayload(p) && st == Initial(2) && next == Lzw(2, [], true, 3)
    ensures st.Valid() && Decode(p, 0, st) == Decoded([1, 1, 1, 1, 1, 1], Finished)
  {
    PayloadCodes(p);
    StepClear(st, next);
    FromRoot(p, next, Lzw(2, [1], true, 3));
    Then(p, 0, st, 4, next, [], [1, 1, 1, 1, 1, 1], [1, 1, 1, 1, 1, 1]);
  }

  /** The root size, a sub-block of two bytes and the empty one, wherever they stand: six pixels of colour 1. */
  lemma SampleDecodes(data: seq<byte>, pos: nat)
    requires pos + 5 <= |data| && data[pos..pos + 5] == [2, 2, 0x8C, 0x5F, 0]
    ensures DecodedRaster(data, pos) == Decoded([1, 1, 1, 1, 1, 1], Finished)
  {
    SampleParts(data, pos);
    PayloadDecodes(Payload(data, pos + 1), Initial(2), Lzw(2, [], true, 3));
  }

  lemma SampleParts(data: seq<byte>, pos: nat)
    requires pos + 5 <= |data| && data[pos..pos + 5] == [2, 2, 0x8C, 0x5F, 0]
    ensures data[pos] == 2 && IsPayload(Payload(data, pos + 1))
  {
    var s := data[pos..pos + 5];
    assert s[0] == data[pos] && s[1] == data[pos + 1] && s[2] == data[pos + 2] && s[3] == data[pos + 3];
    assert s[4] == data[pos + 4];
    assert Payload(data, pos + 4) == [];
    assert Payload(data, pos + 1) == Taken(data, pos + 2, 2) + Payload(data, pos + 4);
  }

  /** The rows of ten in the order they are sent. */
  lemma TenRows(h: nat)
    requires h == 10
    ensures RowOrder(h, true) == [0, 8, 4, 2, 6, 1, 3, 5, 7, 9]
  {
    assert RowsFrom(0, 8, h) == [0, 8];
    assert RowsFrom(4, 8, h) == [4];
    assert RowsFrom(2, 4, h) == [2, 6];
    RowsFromFour(h);
  }

  lemma RowsFromFour(h: nat)
    requires h == 10
    ensures RowsFrom(1, 2, h) == [1, 3, 5, 7, 9]
  {
    assert RowsFrom(11, 2, h) == [];
    assert RowsFrom(9, 2, h) == [9];
    assert RowsFrom(7, 2, h) == [7, 9];
    assert RowsFrom(5, 2, h) == [5, 7, 9];
  }
}
