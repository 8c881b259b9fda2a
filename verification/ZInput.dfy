/** The decompressor's input side: the bit buffer and Huffman decoding. */
module ZInputs {
  import opened Bits
  import opened BitReverse
  import opened BitStream
  import opened Canonical
  import opened DeflateFormat
  import opened DeflateBlocks
  import opened ZHuffman

  class ZInput {
    /** The bytes between the initial `zbuffer` and `zbuffer_end`. */
    const input: seq<byte>
    var zbuffer: nat
    var numBits: int
    var codeBuffer: nat
    var hitZeofOnce: bool
    /** How many bits of the stream have been consumed. */
    ghost var cur: nat

    constructor (input: seq<byte>)
      ensures this.input == input && zbuffer == 0 && cur == 0 && numBits == 0 && BitsValid()
    {
      this.input := input;
      zbuffer, numBits, codeBuffer, hitZeofOnce, cur := 0, 0, 0, false, 0;
    }

    /** The buffer holds the next `numBits` bits of the zero-padded stream and nothing else, so that
        its value is below 2^numBits; only past the end of the input may it hold padding. */
    ghost predicate BitsValid()
      reads this
    {
      && zbuffer <= |input| && 0 <= numBits <= 32
      && codeBuffer == Val(Window(input, cur, numBits))
      && (cur + numBits) % 8 == 0 && 8 * zbuffer <= cur + numBits
      && (zbuffer < |input| ==> cur + numBits == 8 * zbuffer)
      && (hitZeofOnce ==> 8 * |input| + 16 <= cur + numBits)
    }

    lemma CodeBufferBound()
      requires BitsValid()
      ensures codeBuffer < Pow2(numBits) <= Pow2(32)
    {
      ValBound(Window(input, cur, numBits));
      Pow2Monotone(numBits, 32);
    }

    predicate Zeof()
      reads this
    {
      zbuffer >= |input|
    }

    method Zget8() returns (b: byte)
      requires zbuffer <= |input|
      modifies this`zbuffer
      ensures zbuffer <= |input|
      ensures old(Zeof()) ==> b == 0 && zbuffer == old(zbuffer)
      ensures !old(Zeof()) ==> b == input[old(zbuffer)] && zbuffer == old(zbuffer) + 1
    {
      if Zeof() {
        b := 0;
      } else {
        b := input[zbuffer];
        zbuffer := zbuffer + 1;
      }
    }

    /** Joining the byte that comes next above the buffered bits extends the window. */
    lemma NextByte(b: byte, k: nat)
      requires 0 <= numBits && codeBuffer == Val(Window(input, cur, numBits)) && cur + numBits == 8 * k
      requires b == if k < |input| then input[k] else 0
      ensures BitOr(codeBuffer, Shl(b, numBits)) == Val(Window(input, cur, numBits + 8))
    {
      var w, n := Window(input, cur, numBits), 8;
      WindowSplit(input, cur, numBits, n);
      ValAppend(w, Window(input, cur + numBits, n));
      WindowOfByte(input, k, n);
      ValBound(w);
      OrIsAdd(codeBuffer, b, numBits);
    }

    /** The next byte, when no bits are buffered. */
    method Zget8Aligned() returns (b: byte)
      requires BitsValid() && numBits == 0
      modifies this`zbuffer, this`cur
      ensures BitsValid() && cur == old(cur) + 8 && b == ByteAt(input, old(cur) / 8)
    {
      b := Zget8();
      cur := cur + 8;
    }

    /** Behind a stored header that was accepted the input continues where the bits ended; and
        behind the header of a stored block that is there, likewise. */
    lemma BehindStoredHeader(p: nat, len: nat, nlen: nat)
      requires BitsValid() && numBits == 0 && cur == 8 * (Aligned(p) + 4)
      requires len == ByteAt(input, Aligned(p) + 1) as int * 256 + ByteAt(input, Aligned(p)) as int
      requires nlen == ByteAt(input, Aligned(p) + 3) as int * 256 + ByteAt(input, Aligned(p) + 2) as int
      ensures nlen == 0xFFFF - len && zbuffer + len <= |input| ==>
                cur == 8 * zbuffer && StoredAt(input, p, input[zbuffer..zbuffer + len])
      ensures forall d :: StoredAt(input, p, d) ==> len == |d| && nlen == 0xFFFF - len && zbuffer + len <= |input|
    {
    }

    /** The lowest buffered byte. */
    method DrainByte() returns (b: byte)
      requires BitsValid() && numBits >= 8 && numBits % 8 == 0
      modifies this`numBits, this`codeBuffer, this`cur
      ensures BitsValid() && cur == old(cur) + 8 && numBits == old(numBits) - 8
      ensures b == ByteAt(input, old(cur) / 8)
    {
      ghost var n, k := 8, cur / 8;
      assert cur == 8 * k;
      MaskIsMod(codeBuffer, n);
      WindowOfByte(input, k, n);
      Pow2Value(n);
      b := BitAnd(codeBuffer, 255);
      Drop(8);
    }

    method FillBits()
      requires BitsValid() && numBits <= 24
      modifies this`zbuffer, this`numBits, this`codeBuffer
      ensures BitsValid() && 25 <= numBits
    {
      var more := true;
      while more
        invariant BitsValid() && (more <==> numBits <= 24)
        decreases 32 - numBits
      {
        CodeBufferBound();
        if codeBuffer >= Shl(1, numBits) {
          // the guard against a corrupt buffer: never reached
          assert false;
        }
        FillByte();
        more := numBits <= 24;
      }
    }

    method FillByte()
      requires BitsValid() && numBits <= 24
      modifies this`zbuffer, this`numBits, this`codeBuffer
      ensures BitsValid() && numBits == old(numBits) + 8
    {
      ghost var k := (cur + numBits) / 8;
      assert zbuffer < |input| ==> k == zbuffer;
      assert zbuffer == |input| ==> k >= |input|;
      var b := Zget8();
      NextByte(b, k);
      codeBuffer := BitOr(codeBuffer, Shl(b, numBits));
      numBits := numBits + 8;
    }

    /** Consumes the next `n` bits of the stream and returns their value. */
    method Zreceive(n: nat) returns (k: nat)
      requires BitsValid() && n <= 25
      modifies this`zbuffer, this`numBits, this`codeBuffer, this`cur
      ensures BitsValid()
      ensures k == Val(Window(input, old(cur), n)) && cur == old(cur) + n
    {
      if numBits < n {
        FillBits();
      }
      MaskIsMod(codeBuffer, n);
      k := BitAnd(codeBuffer, Shl(1, n) - 1);
      Drop(n);
    }

    /** Consumes `n` buffered bits. */
    method Drop(n: nat)
      requires BitsValid() && n <= numBits
      modifies this`numBits, this`codeBuffer, this`cur
      ensures BitsValid() && cur == old(cur) + n && numBits == old(numBits) - n
      ensures old(codeBuffer) % Pow2(n) == Val(Window(input, old(cur), n))
    {
      ValSplit(Window(input, cur, numBits), n);
      WindowSplit(input, cur, n, numBits - n);
      codeBuffer := Shr(codeBuffer, n);
      numBits := numBits - n;
      cur := cur + n;
    }

    /** Decodes the symbol whose code comes next. Within the input it finds the symbol whenever
        there is one; no other symbol's code can start there. */
    method HuffmanDecode(z: Table) returns (r: int)
      requires BitsValid() && z.Ready()
      modifies this`zbuffer, this`numBits, this`codeBuffer, this`hitZeofOnce, this`cur
      ensures BitsValid()
      ensures Decoded(input, old(cur), z.lengths, r)
      ensures r >= 0 ==> cur == old(cur) + z.lengths[r]
    {
      if numBits < 16 {
        var ok := Refill();
        if !ok { return -1; }
      }
      r := HuffmanDecodeBuffered(z);
    }

    /** Makes 16 bits available, padding once at the end of the input; refuses to pad again. */
    method Refill() returns (ok: bool)
      requires BitsValid() && numBits < 16
      modifies this`zbuffer, this`numBits, this`codeBuffer, this`hitZeofOnce
      ensures BitsValid() && (ok ==> 16 <= numBits)
      ensures !ok ==> cur > 8 * |input|
    {
      if Zeof() {
        if !hitZeofOnce {
          WindowPadded(input, cur, numBits, 16);
          hitZeofOnce := true;
          numBits := numBits + 16;
        } else {
          return false;
        }
      } else {
        FillBits();
      }
      return true;
    }

    method HuffmanDecodeBuffered(z: Table) returns (r: int)
      requires BitsValid() && z.Ready() && 16 <= numBits
      modifies this`numBits, this`codeBuffer, this`cur
      ensures BitsValid()
      ensures r
           == -1 || (0 <= r < |z.lengths| && SymbolAt(input, old(cur), z.lengths, r) && cur == old(cur) + z.lengths[r])
      ensures r == -1 ==> forall i :: 0 <= i < |z.lengths| ==> !SymbolAt(input, old(cur), z.lengths, i)
    {
      FastIndex();
      var b := z.fast[BitAnd(codeBuffer, Shl(1, FAST_BITS) - 1)];
      if b != 0 {
        var s := Shr(b, 9);
        FastHit(z);
        Drop(s);
        return BitAnd(b, 511);
      }
      FastMiss(z);
      r := HuffmanDecodeSlowpath(z);
    }

    lemma FastIndex()
      ensures BitAnd(codeBuffer, Shl(1, FAST_BITS) - 1) == codeBuffer % 512
    {
      var n := FAST_BITS;
      Pow2Value(n);
      MaskIsMod(codeBuffer, n);
    }

    /** An index of the fast table ends in a code exactly when the stream goes on with that code. */
    lemma FastMatchAtCursor(l: seq<nat>, i: nat)
      requires BitsValid() && numBits >= 16 && i < |l| && 1 <= l[i] <= FAST_BITS
      ensures FastMatch(l, i, codeBuffer % 512) <==> SymbolAt(input, cur, l, i)
    {
      var s, n := l[i], FAST_BITS;
      Pow2Add(s, n - s);
      Pow2Value(n);
      ModMod(codeBuffer, Pow2(s), Pow2(n - s));
      WindowSplit(input, cur, s, numBits - s);
      ValSplit(Window(input, cur, numBits), s);
      AtIsWindow(input, cur, CodeBits(l, i));
      if Val(Window(input, cur, s)) == Val(CodeBits(l, i)) {
        ValInjective(Window(input, cur, s), CodeBits(l, i));
      }
    }

    lemma FastHit(z: Table)
      requires BitsValid() && numBits >= 16 && z.Ready() && z.fast[codeBuffer % 512] != 0
      ensures var b := z.fast[codeBuffer % 512];
              var i := BitAnd(b, 511);
              i < |z.lengths| && Shr(b, 9) == z.lengths[i] <= FAST_BITS && SymbolAt(input, cur, z.lengths, i)
    {
      var b := z.fast[codeBuffer % 512];
      var n := FAST_BITS;
      Pow2Value(n);
      MaskIsMod(b, n);
      assert Shl(1, n) - 1 == 511;
      FastMatchAtCursor(z.lengths, b % 512);
      QuotientUnique(b, 512, z.lengths[b % 512], b % 512);
    }

    lemma FastMiss(z: Table)
      requires BitsValid() && numBits >= 16 && z.Ready() && z.fast[codeBuffer % 512] == 0
      ensures forall i :: 0 <= i < |z.lengths| && z.lengths[i] <= FAST_BITS ==> !SymbolAt(input, cur, z.lengths, i)
    {
      forall i | 0 <= i < |z.lengths| && 1 <= z.lengths[i] <= FAST_BITS ensures !SymbolAt(input, cur, z.lengths, i) {
        FastMatchAtCursor(z.lengths, i);
      }
    }

    /** Finds the codes longer than the fast table's, where no shorter code comes next. */
    method HuffmanDecodeSlowpath(z: Table) returns (r: int)
      requires BitsValid() && z.Ready() && numBits >= 16
      requires forall i :: 0 <= i < |z.lengths| && z.lengths[i] <= FAST_BITS ==> !SymbolAt(input, cur, z.lengths, i)
      modifies this`numBits, this`codeBuffer, this`cur
      ensures BitsValid()
      ensures r
           == -1 || (0 <= r < |z.lengths| && SymbolAt(input, old(cur), z.lengths, r) && cur == old(cur) + z.lengths[r])
      ensures r == -1 ==> forall i :: 0 <= i < |z.lengths| ==> !SymbolAt(input, old(cur), z.lengths, i)
    {
      var k, s := SlowLength(z);
      if s >= 16 {
        NoneMatches(z.lengths, Window(input, cur, 16));
        return -1;
      }
      ghost var i := SlotOfWindow(z, k, s);
      r := TakeSymbol(z, k, s, i);
    }

    /** The next 16 bits, first bit most significant, and the first length they fit below. */
    method SlowLength(z: Table) returns (k: nat, s: nat)
      requires BitsValid() && z.Ready() && numBits >= 16
      requires forall i :: 0 <= i < |z.lengths| && z.lengths[i] <= FAST_BITS ==> !SymbolAt(input, cur, z.lengths, i)
      ensures k == MsbVal(Window(input, cur, 16))
      ensures 10 <= s <= 16 && End(z.lengths, s - 1) * Pow2(16 - (s - 1)) <= k
      ensures s < 16 ==> k < End(z.lengths, s) * Pow2(16 - s)
    {
      k := ReverseCode(codeBuffer, 16);
      TopBits();
      NotShort(z.lengths, Window(input, cur, 16), FAST_BITS);
      s := FirstFitting(z, k);
    }

    /** The end of the slow path, at a length that fits: neither check rejects the symbol. */
    method TakeSymbol(z: Table, k: nat, s: nat, ghost i: nat) returns (r: int)
      requires BitsValid() && 10 <= s <= 15 && s <= numBits && z.Shape() && z.firstcode[s] <= Shr(k, 16 - s)
      requires var b := Shr(k, 16 - s) - z.firstcode[s] + z.firstsymbol[s];
               b < NSYMS && z.size[b] == s && z.value[b] == i
      modifies this`numBits, this`codeBuffer, this`cur
      ensures BitsValid() && r == i && cur == old(cur) + s
    {
      var b := Shr(k, 16 - s) - z.firstcode[s] + z.firstsymbol[s];
      if b >= NSYMS {
        assert false;
      }
      if z.size[b] != s {
        assert false;
      }
      Drop(s);
      return z.value[b];
    }

    /** The search loop: the first length whose end lies above `k`. */
    static method FirstFitting(z: Table, k: nat) returns (s: nat)
      requires z.Ready() && k < 0x1_0000 && End(z.lengths, 9) * Pow2(16 - 9) <= k
      ensures 10 <= s <= 16 && End(z.lengths, s - 1) * Pow2(16 - (s - 1)) <= k
      ensures s < 16 ==> k < End(z.lengths, s) * Pow2(16 - s)
    {
      s := FAST_BITS + 1;
      while k >= z.maxcode[s]
        invariant 10 <= s <= 16 && End(z.lengths, s - 1) * Pow2(16 - (s - 1)) <= k
        decreases 16 - s
      {
        s := s + 1;
      }
    }

    /** Where the tables put the symbol whose code comes next, when that code has length `s`. */
    lemma SlotOfWindow(z: Table, k: nat, s: nat) returns (i: nat)
      requires z.Ready() && k == MsbVal(Window(input, cur, 16)) && 10 <= s <= 15
      requires End(z.lengths, s - 1) * Pow2(16 - (s - 1)) <= k < End(z.lengths, s) * Pow2(16 - s)
      ensures i < |z.lengths| && z.lengths[i] == s && SymbolAt(input, cur, z.lengths, i)
      ensures z.firstcode[s] <= Shr(k, 16 - s)
      ensures var b := Shr(k, 16 - s) - z.firstcode[s] + z.firstsymbol[s];
              b < NSYMS && z.size[b] == s && z.value[b] == i
    {
      i := SymbolOfSlot(z.lengths, k, s);
      var slot := Slot(z.lengths, i);
      assert z.firstcode[s] == First(z.lengths, s) && z.firstsymbol[s] == FirstSymbol(z.lengths, s);
      assert z.size[slot] == s && z.value[slot] == i;
    }

    lemma SymbolOfSlot(l: seq<nat>, k: nat, s: nat) returns (i: nat)
      requires IsLengths(l) && Fits(l) && k == MsbVal(Window(input, cur, 16)) && 10 <= s <= 15
      requires End(l, s - 1) * Pow2(16 - (s - 1)) <= k < End(l, s) * Pow2(16 - s)
      ensures i < |l| && l[i] == s && SymbolAt(input, cur, l, i)
      ensures First(l, s) <= Shr(k, 16 - s)
      ensures Slot(l, i) == Shr(k, 16 - s) - First(l, s) + FirstSymbol(l, s) < |l|
    {
      var w := Window(input, cur, 16);
      EndIsNextFirst(l, s, 16);
      i := SymbolOfWindow(l, w, s);
      SlotBound(l, i);
      AtStartsWindow(input, cur, CodeBits(l, i), 16);
    }

    /** The bits the slow path compares: the next 16, first bit most significant. */
    lemma TopBits()
      requires BitsValid() && numBits >= 16
      ensures ReverseCode(codeBuffer, 16) == MsbVal(Window(input, cur, 16)) < 0x1_0000
    {
      var n := 16;
      BitReverse16Value(codeBuffer, n);
      ToBitsOfVal(Window(input, cur, numBits));
      ToBitsTake(codeBuffer, n, numBits);
      WindowSplit(input, cur, n, numBits - n);
      assert Pow2(0) == 1;
      Pow2Value(n);
    }

    lemma NotShort(l: seq<nat>, w: seq<bool>, t: nat)
      requires Fits(l) && 1 <= t <= 15 && w == Window(input, cur, 16)
      requires forall i :: 0 <= i < |l| && l[i] <= t ==> !SymbolAt(input, cur, l, i)
      ensures End(l, t) * Pow2(16 - t) <= MsbVal(w)
    {
      if MsbVal(w) < End(l, t) * Pow2(16 - t) {
        var i := Covered(l, w, t);
        AtStartsWindow(input, cur, CodeBits(l, i), 16);
      }
    }

    lemma NoneMatches(l: seq<nat>, w: seq<bool>)
      requires Fits(l) && IsLengths(l) && w == Window(input, cur, 16)
      requires End(l, 15) * Pow2(16 - 15) <= MsbVal(w)
      ensures forall i :: 0 <= i < |l| ==> !SymbolAt(input, cur, l, i)
    {
      forall i | 0 <= i < |l| ensures !SymbolAt(input, cur, l, i) {
        if SymbolAt(input, cur, l, i) {
          AtStartsWindow(input, cur, CodeBits(l, i), 16);
          MatchIsCovered(l, w, i, 15);
        }
      }
    }
  }
}
