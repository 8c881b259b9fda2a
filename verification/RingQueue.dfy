/** The ring buffer of the circular queues: one cell more than the capacity, empty when head meets tail. */
module RingQueue {
  import opened Bits

  /** `(i + 1) % m_max_size`. */
  function Bump(i: nat, size: nat): (j: nat)
    requires i < size
    ensures j == if i + 1 < size then i + 1 else 0
  {
    QuotientUnique(i + 1, size, if i + 1 < size then 0 else 1, if i + 1 < size then i + 1 else 0);
    (i + 1) % size
  }

  /** `n` cells on. */
  function Advance(i: nat, n: nat, size: nat): (j: nat)
    requires i < size
    ensures j < size
    decreases n
  {
    if n == 0 then i else Advance(Bump(i, size), n - 1, size)
  }

  lemma {:induction false} AdvanceIs(i: nat, n: nat, size: nat)
    requires i < size && n <= size
    ensures Advance(i, n, size) == if i + n < size then i + n else i + n - size
    decreases n
  {
    if n > 0 { AdvanceIs(Bump(i, size), n - 1, size); }
  }

  lemma {:induction false} AdvanceBump(i: nat, n: nat, size: nat)
    requires i < size
    ensures Bump(Advance(i, n, size), size) == Advance(i, n + 1, size)
    decreases n
  {
    if n > 0 { AdvanceBump(Bump(i, size), n - 1, size); }
  }

  /** The contents: `n` values from `head` on. */
  function Ring<T>(data: seq<T>, head: nat, n: nat): (q: seq<T>)
    requires head < |data|
    ensures |q| == n
    decreases n
  {
    if n == 0 then [] else [data[head]] + Ring(data, Bump(head, |data|), n - 1)
  }

  /** Writing a cell beyond the contents does not change them. */
  lemma {:induction false} RingWrite<T>(data: seq<T>, head: nat, n: nat, m: nat, v: T)
    requires head < |data| && n <= m < |data|
    ensures Ring(data[Advance(head, m, |data|) := v], head, n) == Ring(data, head, n)
    decreases n
  {
    if n > 0 {
      AdvanceIs(head, m, |data|);
      RingWrite(data, Bump(head, |data|), n - 1, m - 1, v);
    }
  }

  /** Writing the cell at the tail and counting it appends. */
  lemma {:induction false} RingPush<T>(data: seq<T>, head: nat, n: nat, v: T)
    requires head < |data| && n < |data|
    ensures Ring(data[Advance(head, n, |data|) := v], head, n + 1) == Ring(data, head, n) + [v]
    decreases n
  {
    var d := data[Advance(head, n, |data|) := v];
    if n == 0 {
      assert Ring(d, head, 1) == [d[head]] + Ring(d, Bump(head, |data|), 0);
    } else {
      AdvanceIs(head, n, |data|);
      RingPush(data, Bump(head, |data|), n - 1, v);
      assert Ring(d, head, n + 1) == [data[head]] + Ring(d, Bump(head, |data|), n);
    }
  }

  /** Head and tail alone tell a full ring and an empty one apart. */
  lemma FullOrEmpty(head: nat, n: nat, size: nat)
    requires head < size && n < size
    ensures Advance(head, n, size) == head <==> n == 0
    ensures Bump(Advance(head, n, size), size) == head <==> n == size - 1
  {
    AdvanceIs(head, n, size);
  }

  /** The queue with a mutex held for the whole of each call, so that calls take effect one by one. */
  class CircularQueueLK<T(0)> {
    const maxSize: nat
    const data: array<T>
    var head: nat
    var tail: nat
    ghost var count: nat

    ghost predicate Valid()
      reads this
    {
      data.Length == maxSize && head < maxSize && count < maxSize && tail == Advance(head, count, maxSize)
    }

    /** What is queued, oldest first. */
    ghost function Contents(): seq<T>
      requires Valid()
      reads this, data
    {
      Ring(data[..], head, count)
    }

    constructor (cap: nat)
      ensures Valid() && maxSize == cap + 1 && Contents() == [] && fresh(data)
    {
      maxSize := cap + 1;
      data := new T[cap + 1];
      head, tail, count := 0, 0, 0;
    }

    /** Refuses when full, and then changes nothing. */
    method Emplace(value: T) returns (ok: bool)
      requires Valid()
      modifies this, data
      ensures Valid() && (ok <==> |old(Contents())| + 1 < maxSize)
      ensures Contents() == if ok then old(Contents()) + [value] else old(Contents())
    {
      FullOrEmpty(head, count, maxSize);
      if (tail + 1) % maxSize == head { return false; }
      RingPush(data[..], head, count, value);
      data[tail] := value;
      AdvanceBump(head, count, maxSize);
      tail := (tail + 1) % maxSize;
      count := count + 1;
      ok := true;
    }

    /** Refuses when empty, and then changes nothing. */
    method Pop() returns (val: Option<T>)
      requires Valid()
      modifies this
      ensures Valid() && (val == None <==> old(Contents()) == [])
      ensures if val.Some? then old(Contents()) == [val.value] + Contents() else Contents() == old(Contents())
    {
      FullOrEmpty(head, count, maxSize);
      if head == tail { return None; }
      val := Some(data[head]);
      head := (head + 1) % maxSize;
      count := count - 1;
    }
  }
}
