/** Machine words as naturals, and the bit strings they stand for.
    Bit strings are `seq<bool>`, least significant bit first unless a name says otherwise. */
module Bits {

  type byte = x: int | 0 <= x < 0x100
  type uint16 = x: int | 0 <= x < 0x1_0000
  type uint32 = x: int | 0 <= x < 0x1_0000_0000

  datatype Option<+T> = None | Some(value: T)

  function Pow2(n: nat): (p: nat)
    ensures p >= 1
  {
    if n == 0 then 1 else 2 * Pow2(n - 1)
  }

  /** C's `v >> n` on an unsigned value. */
  function Shr(v: nat, n: nat): nat {
    QuotientNonNegative(v, Pow2(n));
    v / Pow2(n)
  }

  /** C's `v << n` where the result fits its type. */
  function Shl(v: nat, n: nat): nat {
    v * Pow2(n)
  }

  /** C's `a & b` on unsigned values. */
  function BitAnd(a: nat, b: nat): nat {
    if a == 0 || b == 0 then 0 else 2 * BitAnd(a / 2, b / 2) + (a % 2) * (b % 2)
  }

  /** C's `a | b` on unsigned values. */
  function BitOr(a: nat, b: nat): nat {
    if a == 0 then b else if b == 0 then a
    else 2 * BitOr(a / 2, b / 2) + (if a % 2 == 1 || b % 2 == 1 then 1 else 0)
  }

  /** Bit `i` of `v`. */
  predicate Bit(v: nat, i: nat)
    decreases i
  {
    if i == 0 then v % 2 == 1 else Bit(v / 2, i - 1)
  }

  // ---- powers of two ----

  lemma {:induction false} Pow2Add(a: nat, b: nat)
    ensures Pow2(a + b) == Pow2(a) * Pow2(b)
  {
    if a > 0 {
      Pow2Add(a - 1, b);
      assert Pow2(a + b) == 2 * Pow2(a - 1 + b);
      assert Pow2(a) * Pow2(b) == 2 * (Pow2(a - 1) * Pow2(b));
    }
  }

  lemma {:induction false} Pow2Monotone(a: nat, b: nat)
    requires a <= b
    ensures Pow2(a) <= Pow2(b)
    ensures a < b ==> 2 * Pow2(a) <= Pow2(b)
    decreases b
  {
    if a < b { Pow2Monotone(a, b - 1); }
  }

  /** 2^n for small `n`, in figures. */
  function SmallPow2(n: nat): nat {
    if n == 0 then 1 else if n == 1 then 2 else if n == 2 then 4 else if n == 3 then 8
    else if n == 4 then 16 else if n == 5 then 32 else if n == 6 then 64 else if n == 7 then 128
    else if n == 8 then 256 else if n == 9 then 512 else if n == 10 then 1024 else if n == 11 then 2048
    else if n == 12 then 4096 else if n == 13 then 8192 else if n == 14 then 16384 else if n == 15 then 32768
    else 65536
  }

  lemma {:induction false} Pow2Value(n: nat)
    requires n <= 16
    ensures Pow2(n) == SmallPow2(n)
  {
    if n > 0 { Pow2Value(n - 1); }
  }

  // ---- products and quotients ----

  lemma MulDistribute(a: int, b: int, d: int)
    ensures (a + b) * d == a * d + b * d
  {}

  lemma MulAssociate(a: int, b: int, c: int)
    ensures a * b * c == a * (b * c)
  {}

  lemma MulMonotone(a: int, b: int, d: nat)
    requires a <= b
    ensures a * d <= b * d
  {
    MulDistribute(a, b - a, d);
  }

  lemma SmallMultiple(k: int, d: int)
    requires 0 - d < k * d < d
    ensures k == 0
  {
    if k > 0 {
      MulMonotone(1, k, d);
    } else if k < 0 {
      MulMonotone(k, -1, d);
    }
  }

  lemma QuotientNonNegative(v: nat, d: nat)
    requires d > 0
    ensures v / d >= 0
  {
    var q := v / d;
    assert v == q * d + v % d;
    if q < 0 { MulMonotone(q, -1, d); }
  }

  lemma DivMod(v: nat, d: nat)
    requires d > 0
    ensures v == v / d * d + v % d && 0 <= v % d < d
  {}

  lemma QuotientUnique(v: int, d: nat, q: int, r: nat)
    requires d > 0 && v == q * d + r && r < d
    ensures v / d == q && v % d == r
  {
    var q', r' := v / d, v % d;
    assert v == q' * d + r';
    MulDistribute(q', -q, d);
    SmallMultiple(q' - q, d);
  }

  lemma MulCancel(a: nat, b: nat, d: nat)
    requires a * d <= b * d && d > 0
    ensures a <= b
  {
    if a > b {
      MulDistribute(b, a - b, d);
      MulMonotone(1, a - b, d);
    }
  }

  /** Division against a bound: `e <= v / d` exactly when `e * d <= v`. */
  lemma DivAtLeast(v: nat, d: nat, e: nat)
    requires d > 0
    ensures e <= v / d <==> e * d <= v
  {
    var q, r := v / d, v % d;
    assert v == q * d + r;
    if e <= q {
      MulMonotone(e, q, d);
    } else {
      MulMonotone(q + 1, e, d);
      MulDistribute(q, 1, d);
    }
  }

  lemma ModStep(j: nat, w: nat)
    requires 0 < w <= j
    ensures (j - w) % w == j % w
  {
    var q, r := (j - w) / w, (j - w) % w;
    assert j - w == q * w + r;
    MulDistribute(q, 1, w);
    QuotientUnique(j, w, q + 1, r);
  }

  lemma TwoDigits(v: nat, a: nat, b: nat, p: nat, q: int, r2: nat, r: nat)
    requires v == (q * b + r2) * a + r && r2 < b && r < a && p == a * b
    ensures v == q * p + (r2 * a + r) && 0 <= r2 * a + r < p
  {
    MulDistribute(q * b, r2, a);
    MulAssociate(q, b, a);
    MulMonotone(r2 + 1, b, a);
    MulDistribute(r2, 1, a);
    MulMonotone(0, r2, a);
  }

  /** Dividing in two steps: `v` in terms of the quotients and remainders of both. */
  lemma TwoSteps(v: nat, a: nat, b: nat)
    requires a > 0 && b > 0
    ensures a * b > 0
    ensures v / a / b == v / (a * b)
    ensures v % (a * b) == v / a % b * a + v % a
  {
    var q, r := v / a, v % a;
    QuotientNonNegative(v, a);
    var q2, r2 := q / b, q % b;
    TwoDigits(v, a, b, a * b, q2, r2, r);
    QuotientUnique(v, a * b, q2, r2 * a + r);
  }

  lemma DivDiv(v: nat, a: nat, b: nat)
    requires a > 0 && b > 0
    ensures a * b > 0 && v / a / b == v / (a * b)
  {
    TwoSteps(v, a, b);
  }

  lemma ModMod(v: nat, a: nat, b: nat)
    requires a > 0 && b > 0
    ensures a * b > 0 && v % (a * b) % a == v % a
  {
    TwoSteps(v, a, b);
    QuotientUnique(v % (a * b), a, v / a % b, v % a);
  }

  lemma ModTimes(x: nat, k: nat, n: nat)
    requires n > 0
    ensures x % n * k % n == x * k % n
  {
    var q, r := x / n, x % n;
    assert x == q * n + r;
    MulDistribute(q * n, r, k);
    assert q * n * k == q * k * n by { MulAssociate(q, n, k); MulAssociate(q, k, n); }
    var q', r' := r * k / n, r * k % n;
    MulDistribute(q * k, q', n);
    QuotientUnique(x * k, n, q * k + q', r');
  }

  /** The digits of a number in a register of size `t`, after a shift by `c`: its top digit is the one
      that stood `low` from the right, and another shift moves on. */
  lemma TopDigit(v: nat, c: nat, field: nat, low: nat, t: nat)
    requires c > 0 && field > 0 && low > 0 && low * field * c == t
    ensures c * low > 0 && t > 0
    ensures v * c % t / (c * low) == v / low % field
    ensures v * c % t * field % t == v * (c * field) % t
  {
    var p := low * field;
    MulMonotone(1, low, field);
    MulMonotone(1, p, c);
    MulMonotone(1, c, low);
    var q, r := v / p, v % p;
    QuotientNonNegative(v, p);
    assert v == q * p + r;
    MulDistribute(q * p, r, c);
    MulAssociate(q, p, c);
    MulMonotone(r + 1, p, c);
    MulDistribute(r, 1, c);
    QuotientUnique(v * c, t, q, r * c);
    TwoSteps(v, low, field);
    QuotientUnique(r, low, v / low % field, v % low);
    QuotientUnique(r * c, c, r, 0);
    DivDiv(r * c, c, low);
    ModTimes(v * c, field, t);
    MulAssociate(v, c, field);
  }

  lemma HalveMod(v: nat, p: nat)
    requires p > 0
    ensures v % (2 * p) == 2 * (v / 2 % p) + v % 2
  {
    var h := v / 2;
    var q, r := h / p, h % p;
    assert h == q * p + r;
    assert q * (2 * p) == 2 * (q * p);
    QuotientUnique(v, 2 * p, q, 2 * r + v % 2);
  }

  // ---- products, folded up ----

  /** `n * d` by repeated addition: offsets are compared and added, seldom multiplied out. */
  function Times(n: nat, d: nat): nat {
    if n == 0 then 0 else Times(n - 1, d) + d
  }

  lemma {:induction false} TimesIs(n: nat, d: nat)
    ensures Times(n, d) == n * d
  {
    if n > 0 { TimesIs(n - 1, d); }
  }

  lemma {:induction false} TimesAdd(a: nat, b: nat, d: nat)
    ensures Times(a + b, d) == Times(a, d) + Times(b, d)
    decreases b
  {
    if b > 0 { TimesAdd(a, b - 1, d); }
  }

  /** Side by side instead of one after the other. */
  lemma {:induction false} TimesBeside(n: nat, a: nat, b: nat)
    ensures Times(n, a) + Times(n, b) == Times(n, a + b)
  {
    if n > 0 { TimesBeside(n - 1, a, b); }
  }

  lemma {:induction false} TimesMonotone(a: nat, b: nat, d: nat)
    requires a <= b
    ensures Times(a, d) <= Times(b, d)
    ensures a < b ==> Times(a, d) + d <= Times(b, d)
    decreases b
  {
    if a < b { TimesMonotone(a, b - 1, d); }
  }

  // ---- counting in groups ----

  /** The group that item `i` falls in, `per` items to the group. */
  function Group(per: nat, i: nat): nat
    requires per > 0
    decreases i
  {
    if i < per then 0 else Group(per, i - per) + 1
  }

  /** Its place in that group. */
  function Within(per: nat, i: nat): (m: nat)
    requires per > 0
    ensures m < per
    decreases i
  {
    if i < per then i else Within(per, i - per)
  }

  lemma {:induction false} GroupIs(per: nat, i: nat)
    requires per > 0
    ensures Group(per, i) == i / per && Within(per, i) == i % per
    decreases i
  {
    if i < per {
      QuotientUnique(i, per, 0, i);
    } else {
      GroupIs(per, i - per);
      var q, r := (i - per) / per, (i - per) % per;
      MulDistribute(q, 1, per);
      QuotientUnique(i, per, q + 1, r);
    }
  }

  lemma {:induction false} NextInGroup(per: nat, i: nat)
    requires per > 0
    ensures if Within(per, i) + 1 < per
            then Within(per, i + 1) == Within(per, i) + 1 && Group(per, i + 1) == Group(per, i)
            else Within(per, i + 1) == 0 && Group(per, i + 1) == Group(per, i) + 1
    decreases i
  {
    if i >= per { NextInGroup(per, i - per); }
  }

  // ---- the bits of a word under the C operators ----

  lemma {:induction false} BitOfZero(i: nat)
    ensures !Bit(0, i)
  {
    if i > 0 { BitOfZero(i - 1); }
  }

  lemma {:induction false} BitOfAnd(a: nat, b: nat, i: nat)
    ensures Bit(BitAnd(a, b), i) <==> Bit(a, i) && Bit(b, i)
    decreases i
  {
    if a == 0 || b == 0 {
      BitOfZero(i);
    } else {
      assert (a % 2) * (b % 2) < 2;
      assert BitAnd(a, b) / 2 == BitAnd(a / 2, b / 2);
      if i > 0 { BitOfAnd(a / 2, b / 2, i - 1); }
    }
  }

  lemma {:induction false} BitOfOr(a: nat, b: nat, i: nat)
    ensures Bit(BitOr(a, b), i) <==> Bit(a, i) || Bit(b, i)
    decreases i
  {
    if a == 0 || b == 0 {
      BitOfZero(i);
    } else {
      assert BitOr(a, b) / 2 == BitOr(a / 2, b / 2);
      if i > 0 { BitOfOr(a / 2, b / 2, i - 1); }
    }
  }

  lemma {:induction false} BitOfShr(v: nat, n: nat, i: nat)
    ensures Bit(Shr(v, n), i) <==> Bit(v, i + n)
    decreases n
  {
    if n > 0 {
      DivDiv(v, 2, Pow2(n - 1));
      BitOfShr(v / 2, n - 1, i);
    }
  }

  lemma {:induction false} BitOfShl(v: nat, n: nat, i: nat)
    ensures Bit(Shl(v, n), i) <==> i >= n && Bit(v, i - n)
    decreases n
  {
    if n > 0 {
      assert Shl(v, n) == 2 * Shl(v, n - 1) by { assert v * (2 * Pow2(n - 1)) == 2 * (v * Pow2(n - 1)); }
      if i > 0 { BitOfShl(v, n - 1, i - 1); }
    }
  }

  /** Joining a word with one shifted clear of it: the `|` of the bit buffers is an addition. */
  lemma {:induction false} OrIsAdd(a: nat, b: nat, n: nat)
    requires a < Pow2(n)
    ensures BitOr(a, Shl(b, n)) == a + Shl(b, n)
    decreases n
  {
    if n > 0 && a > 0 && b > 0 {
      assert Shl(b, n) == 2 * Shl(b, n - 1) by { assert b * (2 * Pow2(n - 1)) == 2 * (b * Pow2(n - 1)); }
      assert Shl(b, n) > 0;
      OrIsAdd(a / 2, b, n - 1);
    }
  }

  /** Masking with a single bit tests it. */
  lemma {:induction false} MaskIsBit(v: nat, k: nat)
    ensures BitAnd(v, Pow2(k)) == if Bit(v, k) then Pow2(k) else 0
    decreases k
  {
    if v == 0 {
      BitOfZero(k);
    } else if k > 0 {
      MaskIsBit(v / 2, k - 1);
    } else {
      assert BitAnd(v / 2, 0) == 0;
    }
  }

  /** Masking with `n` ones keeps the remainder by 2^n. */
  lemma {:induction false} MaskIsMod(v: nat, n: nat)
    ensures BitAnd(v, Shl(1, n) - 1) == v % Pow2(n)
    decreases n
  {
    if n > 0 {
      assert (Shl(1, n) - 1) / 2 == Shl(1, n - 1) - 1 && (Shl(1, n) - 1) % 2 == 1;
      MaskIsMod(v / 2, n - 1);
      HalveMod(v, Pow2(n - 1));
      if v == 0 { QuotientUnique(0, Pow2(n), 0, 0); }
    }
  }

  // ---- bit strings ----

  /** The value of a bit string, first bit least significant. */
  function Val(b: seq<bool>): nat {
    if b == [] then 0 else (if b[0] then 1 else 0) + 2 * Val(b[1..])
  }

  /** The value of a bit string, first bit most significant. */
  function MsbVal(b: seq<bool>): nat {
    if b == [] then 0 else 2 * MsbVal(b[..|b| - 1]) + (if b[|b| - 1] then 1 else 0)
  }

  /** The low `n` bits of `v`, least significant first. */
  function ToBits(v: nat, n: nat): (b: seq<bool>)
    ensures |b| == n
    decreases n
  {
    if n == 0 then [] else [v % 2 == 1] + ToBits(v / 2, n - 1)
  }

  /** The low `n` bits of `v`, most significant first. */
  function ToMsbBits(v: nat, n: nat): (b: seq<bool>)
    ensures |b| == n
    decreases n
  {
    if n == 0 then [] else ToMsbBits(v / 2, n - 1) + [v % 2 == 1]
  }

  function Reverse(b: seq<bool>): (r: seq<bool>)
    ensures |r| == |b|
  {
    if b == [] then [] else Reverse(b[1..]) + [b[0]]
  }

  lemma {:induction false} ValBound(b: seq<bool>)
    ensures Val(b) < Pow2(|b|)
  {
    if b != [] { ValBound(b[1..]); }
  }

  lemma {:induction false} ToBitsOfVal(b: seq<bool>)
    ensures ToBits(Val(b), |b|) == b
  {
    if b != [] {
      ToBitsOfVal(b[1..]);
      assert Val(b) / 2 == Val(b[1..]);
      assert b == [b[0]] + b[1..];
    }
  }

  lemma {:induction false} ValOfToBits(v: nat, n: nat)
    ensures Val(ToBits(v, n)) == v % Pow2(n)
    decreases n
  {
    if n > 0 {
      ValOfToBits(v / 2, n - 1);
      HalveMod(v, Pow2(n - 1));
      assert ToBits(v, n)[1..] == ToBits(v / 2, n - 1);
    }
  }

  lemma ValInjective(a: seq<bool>, b: seq<bool>)
    requires |a| == |b| && Val(a) == Val(b)
    ensures a == b
  {
    ToBitsOfVal(a);
    ToBitsOfVal(b);
  }

  lemma {:induction false} ValAppend(a: seq<bool>, b: seq<bool>)
    ensures Val(a + b) == Val(a) + Shl(Val(b), |a|)
  {
    if a == [] {
      assert a + b == b;
    } else {
      ValAppend(a[1..], b);
      assert (a + b)[1..] == a[1..] + b;
      var p := Pow2(|a| - 1);
      assert Val(b) * (2 * p) == 2 * (Val(b) * p);
    }
  }

  /** Masking keeps the first bits, shifting drops them. */
  lemma ValSplit(b: seq<bool>, n: nat)
    requires n <= |b|
    ensures Val(b[..n]) == Val(b) % Pow2(n)
    ensures Val(b[n..]) == Shr(Val(b), n)
  {
    assert b == b[..n] + b[n..];
    ValAppend(b[..n], b[n..]);
    ValBound(b[..n]);
    QuotientUnique(Val(b), Pow2(n), Val(b[n..]), Val(b[..n]));
  }

  lemma {:induction false} ToBitsAt(v: nat, n: nat, i: nat)
    requires i < n
    ensures ToBits(v, n)[i] == Bit(v, i)
    decreases n
  {
    if i > 0 { ToBitsAt(v / 2, n - 1, i - 1); }
  }

  lemma {:induction false} ToBitsTake(v: nat, n: nat, m: nat)
    requires n <= m
    ensures ToBits(v, m)[..n] == ToBits(v, n)
    decreases n
  {
    if n > 0 {
      ToBitsTake(v / 2, n - 1, m - 1);
      assert ToBits(v, m)[..n] == [v % 2 == 1] + ToBits(v / 2, m - 1)[..n - 1];
    }
  }

  lemma {:induction false} ReverseAt(b: seq<bool>, i: nat)
    requires i < |b|
    ensures Reverse(b)[i] == b[|b| - 1 - i]
  {
    if i < |b| - 1 { ReverseAt(b[1..], i); }
  }

  lemma {:induction false} ValOfReverse(b: seq<bool>)
    ensures Val(Reverse(b)) == MsbVal(b)
  {
    if b != [] {
      var n := |b| - 1;
      ValOfReverse(b[..n]);
      assert Reverse(b) == [b[n]] + Reverse(b[..n]) by {
        forall i | 0 <= i <= n ensures Reverse(b)[i] == ([b[n]] + Reverse(b[..n]))[i] {
          ReverseAt(b, i);
          if i > 0 { ReverseAt(b[..n], i - 1); }
        }
      }
      assert Reverse(b)[1..] == Reverse(b[..n]);
    }
  }

  lemma {:induction false} ReverseOfToBits(v: nat, n: nat)
    ensures Reverse(ToBits(v, n)) == ToMsbBits(v, n)
    decreases n
  {
    if n > 0 {
      ReverseOfToBits(v / 2, n - 1);
      assert ToBits(v, n)[1..] == ToBits(v / 2, n - 1);
    }
  }

  lemma {:induction false} MsbValOfToMsbBits(v: nat, n: nat)
    requires v < Pow2(n)
    ensures MsbVal(ToMsbBits(v, n)) == v
    decreases n
  {
    if n > 0 {
      MsbValOfToMsbBits(v / 2, n - 1);
      assert ToMsbBits(v, n)[..n - 1] == ToMsbBits(v / 2, n - 1);
    }
  }

  lemma {:induction false} ToMsbBitsOfMsbVal(b: seq<bool>)
    ensures ToMsbBits(MsbVal(b), |b|) == b
  {
    if b != [] {
      var n := |b| - 1;
      ToMsbBitsOfMsbVal(b[..n]);
      assert MsbVal(b) / 2 == MsbVal(b[..n]);
      assert b == b[..n] + [b[n]];
    }
  }

  /** The leading bits of a window are its value shifted down. */
  lemma {:induction false} MsbValPrefix(b: seq<bool>, n: nat)
    requires n <= |b|
    ensures MsbVal(b[..n]) == Shr(MsbVal(b), |b| - n)
    decreases |b|
  {
    if n < |b| {
      var m := |b| - 1;
      MsbValPrefix(b[..m], n);
      assert b[..m][..n] == b[..n];
      assert MsbVal(b) / 2 == MsbVal(b[..m]);
      DivDiv(MsbVal(b), 2, Pow2(m - n));
    } else {
      assert b[..n] == b;
    }
  }

  // ---- sequences ----

  function Constant(v: nat, n: nat): (s: seq<nat>)
    ensures |s| == n && forall i :: 0 <= i < n ==> s[i] == v
  {
    seq(n, _ => v)
  }

  /** No number occurs twice. */
  predicate Distinct(s: seq<nat>) {
    forall i, j :: 0 <= i < j < |s| ==> s[i] != s[j]
  }

  function Elements(s: seq<nat>): set<nat> {
    set x | x in s
  }

  lemma {:induction false} DistinctCount(s: seq<nat>)
    requires Distinct(s)
    ensures |Elements(s)| == |s|
    decreases |s|
  {
    if s != [] {
      var n := |s| - 1;
      DistinctCount(s[..n]);
      assert s == s[..n] + [s[n]];
      assert Elements(s) == Elements(s[..n]) + {s[n]};
    }
  }

  // ---- concatenation ----

  function Concat(bs: seq<seq<bool>>): seq<bool> {
    if bs == [] then [] else Concat(bs[..|bs| - 1]) + bs[|bs| - 1]
  }

  lemma ConcatAppend(bs: seq<seq<bool>>, b: seq<bool>)
    ensures Concat(bs + [b]) == Concat(bs) + b
  {
    assert (bs + [b])[..|bs|] == bs;
  }

  /** Piece `k` of a concatenation follows the pieces before it. */
  lemma {:induction false} ConcatFrom(bs: seq<seq<bool>>, k: nat) returns (rest: seq<bool>)
    requires k < |bs|
    ensures Concat(bs) == Concat(bs[..k]) + bs[k] + rest
    ensures Concat(bs[..k + 1]) == Concat(bs[..k]) + bs[k]
    decreases |bs|
  {
    var n := |bs| - 1;
    assert bs[..k + 1][..k] == bs[..k];
    if k == n {
      assert bs[..n + 1] == bs;
      rest := [];
    } else {
      var r := ConcatFrom(bs[..n], k);
      assert bs[..n][..k] == bs[..k];
      rest := r + bs[n];
      assert Concat(bs[..k]) + bs[k] + r + bs[n] == Concat(bs[..k]) + bs[k] + rest;
    }
  }
}
