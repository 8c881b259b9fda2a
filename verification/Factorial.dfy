/** Factorials of any size, in decimal digits: multiplication by one number after the other. */
module Factorial {
  import opened Bits
  import opened Sizes

  function Product(n: nat): (f: nat)
    ensures f >= 1
  {
    if n == 0 then 1
    else
      MulMonotone(1, n, Product(n - 1));
      n * Product(n - 1)
  }

  // ---- what a factorial counts ----

  ghost function Below(n: nat): set<nat> {
    if n == 0 then {} else Below(n - 1) + {n - 1}
  }

  lemma {:induction false} BelowCount(n: nat)
    ensures |Below(n)| == n && forall x: nat :: x in Below(n) <==> x < n
  {
    if n > 0 { BelowCount(n - 1); }
  }

  /** One number more, not yet there, behind an ordering. */
  ghost function Longer(s: seq<nat>, more: set<nat>): set<seq<nat>> {
    set x | x in more :: s + [x]
  }

  lemma {:induction false} LongerCount(s: seq<nat>, more: set<nat>)
    ensures |Longer(s, more)| == |more|
  {
    if more != {} {
      var x :| x in more;
      LongerCount(s, more - {x});
      assert s + [x] !in Longer(s, more - {x}) by {
        forall y | y in more - {x} ensures s + [y] != s + [x] { assert (s + [y])[|s|] == y && (s + [x])[|s|] == x; }
      }
      assert Longer(s, more) == Longer(s, more - {x}) + {s + [x]};
    }
  }

  ghost function AllLonger(of: set<seq<nat>>, n: nat): set<seq<nat>> {
    set s, x | s in of && x in Below(n) - Elements(s) :: s + [x]
  }

  /** The ways to put `k` of the numbers below `n` in a row. */
  ghost function Orderings(k: nat, n: nat): set<seq<nat>> {
    if k == 0 then {[]} else AllLonger(Orderings(k - 1, n), n)
  }

  ghost predicate IsOrdering(s: seq<nat>, k: nat, n: nat) {
    |s| == k && Distinct(s) && forall i :: 0 <= i < |s| ==> s[i] < n
  }

  ghost predicate AreOrderings(of: set<seq<nat>>, k: nat, n: nat) {
    forall s :: s in of ==> IsOrdering(s, k, n)
  }

  lemma LongerOrdering(s: seq<nat>, x: nat, k: nat, n: nat)
    ensures IsOrdering(s + [x], k + 1, n) <==> IsOrdering(s, k, n) && x < n && x !in s
  {
    var t := s + [x];
    assert t[..|s|] == s && t[|s|] == x;
    if IsOrdering(t, k + 1, n) {
      forall i | 0 <= i < |s| ensures s[i] < n && s[i] != x { assert t[i] == s[i]; }
      forall i, j | 0 <= i < j < |s| ensures s[i] != s[j] { assert t[i] == s[i] && t[j] == s[j]; }
    }
  }

  lemma {:induction false} OrderingsAre(s: seq<nat>, k: nat, n: nat)
    ensures s in Orderings(k, n) <==> IsOrdering(s, k, n)
    decreases k, 1
  {
    if k > 0 {
      if s in Orderings(k, n) {
        var r, x :| r in Orderings(k - 1, n) && x in Below(n) - Elements(r) && s == r + [x];
        OrderingExtends(r, x, k, n);
      } else if IsOrdering(s, k, n) {
        assert s == s[..k - 1] + [s[k - 1]];
        OrderingExtends(s[..k - 1], s[k - 1], k, n);
      }
    }
  }

  lemma {:induction false} OrderingExtends(r: seq<nat>, x: nat, k: nat, n: nat)
    requires k > 0
    ensures r in Orderings(k - 1, n) && x in Below(n) - Elements(r) <==> IsOrdering(r + [x], k, n)
    decreases k, 0
  {
    LongerOrdering(r, x, k - 1, n);
    OrderingsAre(r, k - 1, n);
    BelowCount(n);
  }

  /** One ordering and the others, made longer. */
  lemma OneAndOthers(s: seq<nat>, rest: set<seq<nat>>, of: set<seq<nat>>, k: nat, n: nat)
    requires AreOrderings(of, k, n) && s in of && rest == of - {s}
    ensures |of| == |rest| + 1 && |AllLonger(of, n)| == |AllLonger(rest, n)| + n - k
  {
    ChoicesLeft(s, k, n);
    NoneTwice(s, rest, n, k);
    assert AllLonger(of, n) == AllLonger(rest, n) + Longer(s, Below(n) - Elements(s));
  }

  lemma {:induction false} AllLongerCount(of: set<seq<nat>>, k: nat, n: nat)
    requires k <= n && AreOrderings(of, k, n)
    ensures |AllLonger(of, n)| == |of| * (n - k)
    decreases |of|
  {
    if |of| == 0 {
      NoneLonger(of, n);
    } else {
      var s :| s in of;
      var rest := of - {s};
      AllLongerCount(rest, k, n);
      OneAndOthers(s, rest, of, k, n);
      MulDistribute(|rest|, 1, n - k);
    }
  }

  lemma NoneLonger(of: set<seq<nat>>, n: nat)
    requires of == {}
    ensures AllLonger(of, n) == {}
  {}

  lemma ChoicesLeft(s: seq<nat>, k: nat, n: nat)
    requires IsOrdering(s, k, n)
    ensures |Longer(s, Below(n) - Elements(s))| == n - k
  {
    BelowCount(n);
    DistinctCount(s);
    assert Elements(s) <= Below(n);
    LongerCount(s, Below(n) - Elements(s));
  }

  lemma NoneTwice(s: seq<nat>, rest: set<seq<nat>>, n: nat, k: nat)
    requires |s| == k && s !in rest && forall r :: r in rest ==> |r| == k
    ensures AllLonger(rest, n) !! Longer(s, Below(n) - Elements(s))
  {
    forall t | t in AllLonger(rest, n) ensures t !in Longer(s, Below(n) - Elements(s)) {
      var r, x :| r in rest && x in Below(n) - Elements(r) && t == r + [x];
      assert t[..k] == r;
    }
  }

  lemma {:induction false} OrderingsCount(k: nat, n: nat)
    requires k <= n
    ensures |Orderings(k, n)| * Product(n - k) == Product(n)
    decreases k
  {
    if k > 0 {
      OrderingsCount(k - 1, n);
      var shorter := Orderings(k - 1, n);
      forall s | s in shorter ensures IsOrdering(s, k - 1, n) { OrderingsAre(s, k - 1, n); }
      AllLongerCount(shorter, k - 1, n);
      MulAssociate(|shorter|, n - k + 1, Product(n - k));
    }
  }

  /** n! is the number of ways to put n things in a row. */
  lemma ProductCounts(n: nat, all: set<seq<nat>>)
    requires forall s :: s in all <==> |s| == n && Distinct(s) && forall i :: 0 <= i < |s| ==> s[i] < n
    ensures |all| == Product(n)
  {
    OrderingsCount(n, n);
    forall s ensures s in Orderings(n, n) <==> s in all { OrderingsAre(s, n, n); }
    assert all == Orderings(n, n);
  }

  // ---- decimal digits, least significant first ----

  function Value(d: seq<nat>): nat {
    if d == [] then 0 else d[0] + 10 * Value(d[1..])
  }

  predicate AreDigits(d: seq<nat>) {
    forall i :: 0 <= i < |d| ==> d[i] < 10
  }

  /** Digits as numbers are written: no zero in front, here at the end. */
  predicate Canonical(d: seq<nat>) {
    AreDigits(d) && d != [] && d[|d| - 1] != 0
  }

  /** A number has one such representation. */
  lemma {:induction false} CanonicalUnique(a: seq<nat>, b: seq<nat>)
    requires Canonical(a) && Canonical(b) && Value(a) == Value(b)
    ensures a == b
    decreases |a|
  {
    PositiveTail(a);
    PositiveTail(b);
    assert a[0] == b[0] && Value(a[1..]) == Value(b[1..]);
    if |a| > 1 && |b| > 1 { CanonicalUnique(a[1..], b[1..]); }
    assert a == [a[0]] + a[1..] && b == [b[0]] + b[1..];
  }

  lemma {:induction false} PositiveTail(d: seq<nat>)
    requires Canonical(d)
    ensures Value(d) > 0 && (|d| > 1 <==> Value(d[1..]) > 0)
    decreases |d|
  {
    if |d| > 1 { PositiveTail(d[1..]); }
  }

  function Pow10(n: nat): (p: nat)
    ensures p >= 1
  {
    if n == 0 then 1 else 10 * Pow10(n - 1)
  }

  /** A digit behind the others. */
  lemma {:induction false} ValueAppend(d: seq<nat>, v: nat)
    ensures Value(d + [v]) == Value(d) + Pow10(|d|) * v
    decreases |d|
  {
    if d == [] {
      assert [v][1..] == [];
    } else {
      ValueAppend(d[1..], v);
      assert (d + [v])[1..] == d[1..] + [v];
      MulAssociate(10, Pow10(|d| - 1), v);
    }
  }

  /** Digits written in reverse: as the result is. */
  function Reversed(d: seq<nat>): (r: seq<nat>)
    ensures |r| == |d| && forall i :: 0 <= i < |d| ==> r[i] == d[|d| - 1 - i]
  {
    seq(|d|, i requires 0 <= i < |d| => d[|d| - 1 - i])
  }

  // ---- 64-bit arithmetic ----

  const UINT64: nat := 0x1_0000_0000_0000_0000

  /** A digit times the multiplier, and the carry: below ten times the multiplier, so nothing wraps. */
  lemma DigitStep(d: nat, i: nat, carry: nat)
    requires d < 10 && 1 <= i <= INT_MAX && carry < i
    ensures d * i + carry < 10 * i <= UINT64
    ensures (d * i + carry) / 10 < i && d * i + carry == (d * i + carry) / 10 * 10 + (d * i + carry) % 10
  {
    MulMonotone(d, 9, i);
  }

  // ---- the loops ----

  /** The inner loop: `digits` times `i`, digit by digit in place, and what is carried out. */
  method MultiplyDigits(digits: seq<nat>, i: nat) returns (out: seq<nat>, carry: nat)
    requires AreDigits(digits) && 1 <= i <= INT_MAX
    ensures AreDigits(out) && |out| == |digits| && carry < i
    ensures Value(out) + Pow10(|digits|) * carry == i * Value(digits)
  {
    out, carry := digits, 0;
    for k := 0 to |digits|
      invariant AreDigits(out) && |out| == |digits| && out[k..] == digits[k..] && carry < i
      invariant Value(out[..k]) + Pow10(k) * carry == i * Value(digits[..k])
    {
      var temp := (out[k] * i + carry) % UINT64;
      DigitRound(digits, out, k, i, carry, out[k], temp, temp / 10, temp % 10);
      out := out[k := temp % 10];
      carry := temp / 10;
    }
    assert digits[..|digits|] == digits && out[..|digits|] == out;
  }

  /** One digit of the loop. */
  lemma DigitRound(digits: seq<nat>, out: seq<nat>, k: nat, i: nat, carry: nat, d: nat, temp: nat, q: nat, r: nat)
    requires AreDigits(digits) && k < |out| == |digits| && out[k..] == digits[k..] && d == out[k]
    requires 1 <= i <= INT_MAX && carry < i && Value(out[..k]) + Pow10(k) * carry == i * Value(digits[..k])
    requires temp == (d * i + carry) % UINT64 && q == temp / 10 && r == temp % 10
    ensures q < i && out[k := r][k + 1..] == digits[k + 1..]
    ensures Value(out[k := r][..k + 1]) + Pow10(k + 1) * q == i * Value(digits[..k + 1])
  {
    assert d == digits[k..][0] == digits[k];
    NextDigit(digits, out, k, r);
    NoWrap(d, i, carry, temp, q, r);
    ValueAppend(digits[..k], d);
    ValueAppend(out[..k], r);
    StepSum(i, Value(digits[..k]), Value(out[..k]), Pow10(k), d, carry, q, r);
    assert Pow10(k + 1) * q == 10 * Pow10(k) * q;
  }

  lemma NoWrap(d: nat, i: nat, carry: nat, temp: nat, q: nat, r: nat)
    requires d < 10 && 1 <= i <= INT_MAX && carry < i
    requires temp == (d * i + carry) % UINT64 && q == temp / 10 && r == temp % 10
    ensures q < i && d * i + carry == q * 10 + r
  {
    DigitStep(d, i, carry);
    QuotientUnique(d * i + carry, UINT64, 0, d * i + carry);
  }

  lemma NextDigit(digits: seq<nat>, out: seq<nat>, k: nat, v: nat)
    requires k < |digits| == |out| && out[k..] == digits[k..]
    ensures out[k := v][k + 1..] == digits[k + 1..] && out[k := v][..k + 1] == out[..k] + [v]
    ensures digits[..k + 1] == digits[..k] + [digits[k]]
  {
    assert out[k := v][k + 1..] == out[k..][1..] && digits[k + 1..] == digits[k..][1..];
  }

  lemma StepSum(i: nat, v: nat, o: nat, p: nat, d: nat, carry: nat, q: nat, r: nat)
    requires o + p * carry == i * v && d * i + carry == q * 10 + r
    ensures o + p * r + 10 * p * q == i * (v + p * d)
  {
    assert p * (q * 10 + r) == 10 * p * q + p * r;
    assert p * (d * i + carry) == i * (p * d) + p * carry;
    assert i * (v + p * d) == i * v + i * (p * d);
  }

  /** The carry becomes new digits, the last of them not zero. */
  method PushCarry(digits: seq<nat>, carry0: nat) returns (out: seq<nat>)
    requires AreDigits(digits)
    ensures AreDigits(out) && digits <= out && Value(out) == Value(digits) + Pow10(|digits|) * carry0
    ensures carry0 > 0 ==> Canonical(out)
    ensures carry0 == 0 ==> out == digits
  {
    out := digits;
    var carry := carry0;
    while carry > 0
      invariant AreDigits(out) && digits <= out
      invariant Value(out) + Pow10(|out|) * carry == Value(digits) + Pow10(|digits|) * carry0
      invariant carry == carry0 ==> out == digits
      invariant carry == 0 && carry0 > 0 ==> Canonical(out)
      decreases carry
    {
      ValueAppend(out, carry % 10);
      CarrySplit(Pow10(|out|), carry);
      out := out + [carry % 10];
      carry := carry / 10;
    }
  }

  lemma CarrySplit(p: nat, c: nat)
    ensures p * c == p * (c % 10) + 10 * p * (c / 10)
  {
    assert c == 10 * (c / 10) + c % 10;
    assert p * (10 * (c / 10)) == 10 * p * (c / 10);
  }

  /** The digits of n!, most significant first; of 1 for a negative n. */
  method BigFactorial(n: int) returns (r: seq<nat>)
    requires -INT_MAX - 1 <= n < INT_MAX
    ensures exists d :: Canonical(d) && Value(d) == Product(if n < 0 then 0 else n) && r == Reversed(d)
  {
    var digits: seq<nat> := [1];
    assert Value([1]) == 1 by { assert [1][1..] == []; }
    var i: nat := 1;
    while i <= n
      invariant 1 <= i && (i == 1 || i - 1 <= n)
      invariant Canonical(digits) && Value(digits) == Product(i - 1)
      decreases n - i
    {
      var out, carry := MultiplyDigits(digits, i);
      KeepsLast(digits, out, carry, i);
      digits := PushCarry(out, carry);
      i := i + 1;
    }
    r := Reversed(digits);
  }

  /** Without a carry the last digit stays nonzero: the product has as many digits. */
  lemma KeepsLast(digits: seq<nat>, out: seq<nat>, carry: nat, i: nat)
    requires Canonical(digits) && AreDigits(out) && |out| == |digits| && i >= 1
    requires Value(out) + Pow10(|digits|) * carry == i * Value(digits)
    ensures carry == 0 ==> Canonical(out)
  {
    if carry == 0 {
      var n := |out| - 1;
      AtLeast(digits);
      MulMonotone(1, i, Value(digits));
      if out[n] == 0 {
        assert out == out[..n] + [0];
        ValueAppend(out[..n], 0);
        BelowPower(out[..n]);
      }
    }
  }

  lemma {:induction false} AtLeast(d: seq<nat>)
    requires Canonical(d)
    ensures Value(d) >= Pow10(|d| - 1)
  {
    if |d| > 1 {
      assert d[1..][|d| - 2] == d[|d| - 1];
      AtLeast(d[1..]);
    }
  }

  lemma {:induction false} BelowPower(d: seq<nat>)
    requires AreDigits(d)
    ensures Value(d) < Pow10(|d|)
  {
    if d != [] { BelowPower(d[1..]); }
  }

  /** Ten of them. */
  method FactorialOfTen() returns (r: seq<nat>)
    ensures r == [3, 6, 2, 8, 8, 0, 0]
  {
    r := BigFactorial(10);
    ghost var d :| Canonical(d) && Value(d) == Product(10) && r == Reversed(d);
    TenInDigits([0, 0, 8, 8, 2, 6, 3]);
    CanonicalUnique(d, [0, 0, 8, 8, 2, 6, 3]);
  }

  lemma ValueStep(d: seq<nat>, first: nat, rest: seq<nat>)
    requires d == [first] + rest
    ensures Value(d) == first + 10 * Value(rest)
  {
    assert d[1..] == rest;
  }

  lemma TenInDigits(d: seq<nat>)
    requires d == [0, 0, 8, 8, 2, 6, 3]
    ensures Canonical(d) && Value(d) == 3628800 == Product(10)
  {
    ValueStep(d, 0, [0, 8, 8, 2, 6, 3]);
    ValueStep([0, 8, 8, 2, 6, 3], 0, [8, 8, 2, 6, 3]);
    ValueStep([8, 8, 2, 6, 3], 8, [8, 2, 6, 3]);
    ValueStep([8, 2, 6, 3], 8, [2, 6, 3]);
    ValueStep([2, 6, 3], 2, [6, 3]);
    ValueStep([6, 3], 6, [3]);
    ValueStep([3], 3, []);
    TenFactorial(5);
  }

  lemma TenFactorial(five: nat)
    requires five == 5
    ensures Product(2 * five) == 3628800
  {
    assert Product(1) == 1;
    assert Product(five) == 120;
    assert Product(five + 1) == 720;
    assert Product(five + 2) == 5040;
    assert Product(five + 3) == 40320;
    assert Product(five + 4) == 362880;
  }
}
