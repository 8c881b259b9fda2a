/** Byte buffers that are written a window at a time. */
module Buffers {
  import opened Bits

  /** A buffer after `s` was written at `at`. */
  function Written(before: seq<byte>, at: nat, s: seq<byte>): (after: seq<byte>)
    requires at + |s| <= |before|
    ensures |after| == |before|
  {
    seq(|before|, i requires 0 <= i < |before| => if at <= i < at + |s| then s[i - at] else before[i])
  }

  lemma WrittenNext(before: seq<byte>, at: nat, s: seq<byte>, v: byte)
    requires at + |s| < |before|
    ensures Written(before, at, s)[at + |s| := v] == Written(before, at, s + [v])
  {}

  /** A buffer that agrees with `s` in a window and is otherwise unchanged. */
  lemma WrittenAt(before: seq<byte>, after: seq<byte>, at: nat, s: seq<byte>)
    requires at + |s| <= |before| == |after|
    requires forall i :: 0 <= i < at || at + |s| <= i < |before| ==> after[i] == before[i]
    requires forall k :: 0 <= k < |s| ==> after[at + k] == s[k]
    ensures after == Written(before, at, s)
  {
    var w := Written(before, at, s);
    forall i | 0 <= i < |before| ensures after[i] == w[i] {
      if at <= i < at + |s| { assert after[at + (i - at)] == s[i - at]; }
    }
  }

  /** A longer write hides a shorter one at the same place. */
  lemma WrittenOver(before: seq<byte>, at: nat, s: seq<byte>, t: seq<byte>)
    requires |s| <= |t| && at + |t| <= |before|
    ensures Written(before, at, s)[at..at + |s|] == s
    ensures Written(Written(before, at, s), at, t) == Written(before, at, t)
  {}

  /** Writes that follow each other are one write. */
  lemma WrittenAppend(before: seq<byte>, s: seq<byte>, t: seq<byte>)
    requires |s| + |t| <= |before|
    ensures Written(Written(before, 0, s), |s|, t) == Written(before, 0, s + t)
  {}

  lemma WrittenAll(before: seq<byte>, s: seq<byte>)
    requires |s| == |before|
    ensures Written(before, 0, s) == s
  {}
}
