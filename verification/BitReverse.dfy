/** The swap network that reverses 16 bits, and the reversal of shorter codes built on it. */
module BitReverse {
  import opened Bits

  /** One statement of the network: exchange neighbouring runs of `k` bits. */
  function Stage(n: nat, k: nat, hi: nat, lo: nat): nat {
    BitOr(Shr(BitAnd(n, hi), k), Shl(BitAnd(n, lo), k))
  }

  function BitReverse16(n: nat): nat {
    var n1 := Stage(n, 1, 0xAAAA, 0x5555);
    var n2 := Stage(n1, 2, 0xCCCC, 0x3333);
    var n3 := Stage(n2, 4, 0xF0F0, 0x0F0F);
    Stage(n3, 8, 0xFF00, 0x00FF)
  }

  /** `bits` of `v` reversed: reverse 16 and shift the rest away. */
  function ReverseCode(v: nat, bits: nat): nat
    requires bits <= 16
  {
    Shr(BitReverse16(v), 16 - bits)
  }

  /** One stage of the network, bit by bit. */
  lemma StageBit(n: nat, hi: nat, lo: nat, k: nat, i: nat)
    ensures Bit(Stage(n, k, hi, lo), i)
       <==> (Bit(n, i + k) && Bit(hi, i + k)) || (i >= k && Bit(n, i - k) && Bit(lo, i - k))
  {
    BitOfOr(Shr(BitAnd(n, hi), k), Shl(BitAnd(n, lo), k), i);
    BitOfShr(BitAnd(n, hi), k, i);
    BitOfShl(BitAnd(n, lo), k, i);
    BitOfAnd(n, hi, i + k);
    if i >= k { BitOfAnd(n, lo, i - k); }
  }

  // ---- the masks: runs of k ones, repeated ----

  function Repeat(v: nat, w: nat, n: nat): nat {
    if n == 0 then 0 else v + Shl(Repeat(v, w, n - 1), w)
  }

  lemma {:induction false} BitBeyond(v: nat, n: nat, i: nat)
    requires v < Pow2(n) && n <= i
    ensures !Bit(v, i)
    decreases n
  {
    if n == 0 { BitOfZero(i); } else { BitBeyond(v / 2, n - 1, i - 1); }
  }

  lemma {:induction false} RepeatBit(v: nat, w: nat, n: nat, j: nat)
    requires 0 < w && v < Pow2(w)
    ensures Bit(Repeat(v, w, n), j) <==> j < n * w && Bit(v, j % w)
    decreases n
  {
    if n == 0 {
      BitOfZero(j);
    } else {
      var rest := Repeat(v, w, n - 1);
      OrIsAdd(v, rest, w);
      BitOfOr(v, Shl(rest, w), j);
      BitOfShl(rest, w, j);
      assert n * w == (n - 1) * w + w;
      MulMonotone(0, n - 1, w);
      if j >= w {
        BitBeyond(v, w, j);
        RepeatBit(v, w, n - 1, j - w);
        ModStep(j, w);
      } else {
        QuotientUnique(j, w, 0, j);
      }
    }
  }

  lemma {:induction false} OnesBit(k: nat, i: nat)
    ensures Bit(Pow2(k) - 1, i) <==> i < k
    decreases k
  {
    if k == 0 {
      BitOfZero(i);
    } else if i > 0 {
      assert (Pow2(k) - 1) / 2 == Pow2(k - 1) - 1;
      OnesBit(k - 1, i - 1);
    }
  }

  /** The two masks of the stage that exchanges neighbouring runs of `k` bits. */
  predicate StageMasks(k: nat, hi: nat, lo: nat) {
    || (k == 1 && hi == Repeat(Shl(Pow2(1) - 1, 1), 2, 8) && lo == Repeat(Pow2(1) - 1, 2, 8))
    || (k == 2 && hi == Repeat(Shl(Pow2(2) - 1, 2), 4, 4) && lo == Repeat(Pow2(2) - 1, 4, 4))
    || (k == 4 && hi == Repeat(Shl(Pow2(4) - 1, 4), 8, 2) && lo == Repeat(Pow2(4) - 1, 8, 2))
    || (k == 8 && hi == Repeat(Shl(Pow2(8) - 1, 8), 16, 1) && lo == Repeat(Pow2(8) - 1, 16, 1))
  }

  lemma MasksAreStageMasks()
    ensures StageMasks(1, 0xAAAA, 0x5555)
    ensures StageMasks(2, 0xCCCC, 0x3333)
    ensures StageMasks(4, 0xF0F0, 0x0F0F)
    ensures StageMasks(8, 0xFF00, 0x00FF)
  {
    Pow2Value(1);
    Pow2Value(2);
    Pow2Value(4);
    Pow2Value(8);
    Pow2Value(16);
    assert Repeat(1, 2, 2) == 5 && Repeat(2, 2, 2) == 10;
    assert Repeat(1, 2, 4) == 0x55 && Repeat(2, 2, 4) == 0xAA;
    assert Repeat(1, 2, 6) == 0x555 && Repeat(2, 2, 6) == 0xAAA;
    assert Repeat(1, 2, 8) == 0x5555 && Repeat(2, 2, 8) == 0xAAAA;
    assert Repeat(3, 4, 2) == 0x33 && Repeat(12, 4, 2) == 0xCC;
    assert Repeat(3, 4, 4) == 0x3333 && Repeat(12, 4, 4) == 0xCCCC;
    assert Repeat(15, 8, 2) == 0x0F0F && Repeat(240, 8, 2) == 0xF0F0;
    assert Repeat(255, 16, 1) == 0x00FF && Repeat(0xFF00, 16, 1) == 0xFF00;
  }

  /** Whether bit `j` lies in an odd-numbered run of `k` bits. */
  predicate OddRun(j: nat, k: nat) {
    if k == 1 then j % 2 >= 1
    else if k == 2 then j % 4 >= 2
    else if k == 4 then j % 8 >= 4
    else j % 16 >= 8
  }

  /** Where a stage takes bit `i` of its result from. */
  function Partner(i: nat, k: nat): nat {
    if OddRun(i, k) && k <= i then i - k else i + k
  }

  lemma MaskRuns(k: nat, n: nat, j: nat)
    requires k > 0
    ensures Bit(Repeat(Shl(Pow2(k) - 1, k), 2 * k, n), j) <==> j < n * (2 * k) && j % (2 * k) >= k
    ensures Bit(Repeat(Pow2(k) - 1, 2 * k, n), j) <==> j < n * (2 * k) && j % (2 * k) < k
  {
    var w, ones, m := 2 * k, Pow2(k) - 1, j % (2 * k);
    Pow2Add(k, k);
    MulMonotone(ones, Pow2(k), Pow2(k));
    MulMonotone(1, Pow2(k), ones);
    assert Shl(ones, k) == Pow2(w) - Pow2(k) by {
      assert (Pow2(k) - 1) * Pow2(k) == Pow2(k) * Pow2(k) - Pow2(k);
    }
    Pow2Monotone(k, w);
    RepeatBit(Shl(ones, k), w, n, j);
    RepeatBit(ones, w, n, j);
    OnesBit(k, m);
    BitOfShl(ones, k, m);
    if m >= k { OnesBit(k, m - k); }
  }

  lemma MaskBit(k: nat, hi: nat, lo: nat, j: nat)
    requires StageMasks(k, hi, lo)
    ensures Bit(hi, j) <==> j < 16 && OddRun(j, k)
    ensures Bit(lo, j) <==> j < 16 && !OddRun(j, k)
  {
    if k == 1 {
      MaskRuns(1, 8, j);
    } else if k == 2 {
      MaskRuns(2, 4, j);
    } else if k == 4 {
      MaskRuns(4, 2, j);
    } else {
      MaskRuns(8, 1, j);
    }
  }

  lemma RunFlip(i: nat, k: nat, n: nat)
    requires k > 0
    ensures (i + k) % (2 * k) >= k <==> i % (2 * k) < k
    ensures i % (2 * k) >= k ==> k <= i
    ensures i < n * (2 * k) <= i + k ==> i % (2 * k) >= k
    ensures i >= n * (2 * k) > i - k ==> i % (2 * k) < k
  {
    var w := 2 * k;
    var q, m := i / w, i % w;
    assert i == q * w + m;
    assert (q + 1) * w == q * w + w;
    if m < k {
      QuotientUnique(i + k, w, q, m + k);
    } else {
      QuotientUnique(i + k, w, q + 1, m - k);
      MulMonotone(0, q, w);
    }
    if q + 1 <= n { MulMonotone(q + 1, n, w); } else { MulMonotone(n, q, w); }
  }

  lemma RunOfNeighbour(i: nat, k: nat)
    requires k in {1, 2, 4, 8}
    ensures OddRun(i + k, k) <==> !OddRun(i, k)
    ensures OddRun(i, k) ==> k <= i
    ensures i < 16 && i + k >= 16 ==> OddRun(i, k)
    ensures i >= 16 && i - k < 16 ==> !OddRun(i, k)
  {
    if k == 1 {
      RunFlip(i, 1, 8);
    } else if k == 2 {
      RunFlip(i, 2, 4);
    } else if k == 4 {
      RunFlip(i, 4, 2);
    } else {
      RunFlip(i, 8, 1);
    }
  }

  lemma StageIsExchange(n: nat, k: nat, hi: nat, lo: nat, i: nat)
    requires StageMasks(k, hi, lo)
    ensures Bit(Stage(n, k, hi, lo), i)
       <==> i < 16 && Bit(n, Partner(i, k))
  {
    StageBit(n, hi, lo, k, i);
    MaskBit(k, hi, lo, i + k);
    RunOfNeighbour(i, k);
    if i >= k {
      MaskBit(k, hi, lo, i - k);
      RunOfNeighbour(i - k, k);
    }
  }

  lemma {:induction false} BitsOfZero(v: nat)
    requires forall i: nat :: !Bit(v, i)
    ensures v == 0
    decreases v
  {
    if v > 0 {
      assert !Bit(v, 0);
      forall i: nat ensures !Bit(v / 2, i) { assert !Bit(v, i + 1); }
      BitsOfZero(v / 2);
    }
  }

  lemma {:induction false} BoundFromBits(v: nat, n: nat)
    requires forall i: nat :: n <= i ==> !Bit(v, i)
    ensures v < Pow2(n)
    decreases n
  {
    if n == 0 {
      BitsOfZero(v);
    } else {
      forall i: nat | n - 1 <= i ensures !Bit(v / 2, i) { assert !Bit(v, i + 1); }
      BoundFromBits(v / 2, n - 1);
    }
  }

  lemma FourExchanges(i: nat)
    requires i < 16
    ensures Partner(i, 8) < 16
    ensures Partner(Partner(i, 8), 4) < 16
    ensures Partner(Partner(Partner(i, 8), 4), 2) < 16
    ensures Partner(Partner(Partner(Partner(i, 8), 4), 2), 1) == 15 - i
  {}

  /** Bit `i` of the network's result is bit `15 - i` of its input, and nothing lies above bit 15. */
  lemma BitReverse16Bit(n: nat, i: nat)
    ensures Bit(BitReverse16(n), i) <==> i < 16 && Bit(n, 15 - i)
  {
    var n1 := Stage(n, 1, 0xAAAA, 0x5555);
    var n2 := Stage(n1, 2, 0xCCCC, 0x3333);
    var n3 := Stage(n2, 4, 0xF0F0, 0x0F0F);
    MasksAreStageMasks();
    StageIsExchange(n3, 8, 0xFF00, 0x00FF, i);
    if i < 16 {
      FourExchanges(i);
      StageIsExchange(n2, 4, 0xF0F0, 0x0F0F, Partner(i, 8));
      StageIsExchange(n1, 2, 0xCCCC, 0x3333, Partner(Partner(i, 8), 4));
      StageIsExchange(n, 1, 0xAAAA, 0x5555, Partner(Partner(Partner(i, 8), 4), 2));
    }
  }

  lemma ReversedWord(n: nat, r: nat, w: nat)
    requires r < Pow2(w)
    requires forall i: nat :: i < w ==> (Bit(r, i) <==> Bit(n, w - 1 - i))
    ensures r == MsbVal(ToBits(n, w))
  {
    var b := ToBits(n, w);
    forall i | 0 <= i < w ensures ToBits(r, w)[i] == Reverse(b)[i] {
      ToBitsAt(r, w, i);
      ToBitsAt(n, w, w - 1 - i);
      ReverseAt(b, i);
    }
    assert ToBits(r, w) == Reverse(b);
    ValOfToBits(r, w);
    QuotientUnique(r, Pow2(w), 0, r);
    ValOfReverse(b);
  }

  /** The network turns a word into the value of its low 16 bits read from the other end. */
  lemma BitReverse16Value(n: nat, w: nat)
    requires w == 16
    ensures BitReverse16(n) == MsbVal(ToBits(n, w)) < Pow2(w)
  {
    var r := BitReverse16(n);
    forall i: nat ensures Bit(r, i) <==> i < 16 && Bit(n, 15 - i) { BitReverse16Bit(n, i); }
    BoundFromBits(r, w);
    ReversedWord(n, r, w);
  }

  /** Reversing a code of `bits` bits gives the value whose least significant bits are the code,
      first bit first: the form in which DEFLATE packs Huffman codes. */
  lemma ReverseCodeValue(v: nat, bits: nat)
    requires bits <= 16 && v < Pow2(bits)
    ensures ReverseCode(v, bits) == Val(ToMsbBits(v, bits)) < Pow2(bits)
  {
    var w := 16;
    var b := ToBits(v, w);
    BitReverse16Value(v, w);
    MsbValPrefix(b, bits);
    ToBitsTake(v, bits, w);
    ValOfReverse(ToBits(v, bits));
    ReverseOfToBits(v, bits);
    ValBound(ToMsbBits(v, bits));
  }
}
