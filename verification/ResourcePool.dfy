/** The resource manager: slots that are recycled last in, first out, and handles that carry the
    generation of their slot so that stale ones are refused. */
module ResourcePool {
  import opened Bits

  const LIMIT: nat := 0x1_0000_0000

  /** Zero is the null handle's; a generation counts 1, 2, ... and from the last 32-bit value back to 1. */
  const CYCLE: nat := LIMIT - 1

  datatype Handle = Handle(index: uint32, generation: uint32)
  datatype Slot<T> = Slot(pres: Option<T>, generation: uint32)
  datatype Errc = NotEnoughMemory | InvalidArgument

  // ---- generations ----

  /** `++generation`, once more when that wrapped to zero. */
  function NextGeneration(g: uint32): (n: uint32)
    ensures n != 0
  {
    var n := (g + 1) % LIMIT;
    if n == 0 then (n + 1) % LIMIT else n
  }

  /** The generation after so many increments. */
  function Generation(n: nat): (g: uint32)
    ensures n > 0 ==> g != 0
  {
    if n == 0 then 0 else NextGeneration(Generation(n - 1))
  }

  lemma CountOn(m: nat, c: nat)
    requires c > 0
    ensures (m + 1) % c == if m % c + 1 < c then m % c + 1 else 0
  {
    var q, r := m / c, m % c;
    if r + 1 < c {
      QuotientUnique(m + 1, c, q, r + 1);
    } else {
      QuotientUnique(m + 1, c, q + 1, 0);
    }
  }

  lemma {:induction false} GenerationIs(n: nat)
    requires n > 0
    ensures Generation(n) == (n - 1) % CYCLE + 1
  {
    if n > 1 {
      GenerationIs(n - 1);
      CountOn(n - 2, CYCLE);
    }
  }

  /** In plain numbers: a new slot counts up from 1, and behind the last 32-bit value comes 1 again. */
  lemma GenerationsInNumbers(n: nat)
    ensures 1 <= n <= 0xFFFF_FFFF ==> Generation(n) == n
    ensures n == 0x1_0000_0000 ==> Generation(n) == 1
  {
    if n > 0 { GenerationIs(n); }
    if n == 0x1_0000_0000 {
      QuotientUnique(n - 1, CYCLE, 1, 0);
    } else if 1 <= n <= 0xFFFF_FFFF {
      QuotientUnique(n - 1, CYCLE, 0, n - 1);
    }
  }

  /** Generations repeat after a full cycle through the nonzero values, and not before. */
  lemma GenerationsRepeat(a: nat, b: nat)
    requires 0 < a <= b
    ensures Generation(a) == Generation(b) <==> (b - a) % CYCLE == 0
  {
    GenerationIs(a);
    GenerationIs(b);
    SameRemainder(a - 1, b - 1, CYCLE);
  }

  lemma SameRemainder(a: nat, b: nat, c: nat)
    requires a <= b && c > 0
    ensures a % c == b % c <==> (b - a) % c == 0
  {
    DivMod(a, c);
    DivMod(b, c);
    RemainderOf(a, b, c, a / c, a % c, b / c, b % c);
  }

  lemma RemainderOf(a: nat, b: nat, c: nat, q: int, r: nat, q': int, r': nat)
    requires a <= b && r < c && r' < c && a == q * c + r && b == q' * c + r'
    ensures r == r' <==> (b - a) % c == 0
  {
    MulDistribute(q' - q, q, c);
    if r <= r' {
      QuotientUnique(b - a, c, q' - q, r' - r);
    } else {
      MulDistribute(q' - q - 1, 1, c);
      QuotientUnique(b - a, c, q' - q - 1, r' - r + c);
    }
  }

  /** Of increments of the same parity: after a full cycle of pairs. */
  lemma EvenCycles(d: nat)
    requires d % 2 == 0
    ensures d % CYCLE == 0 <==> d % (2 * CYCLE) == 0
  {
    TwoSteps(d, CYCLE, 2);
    var q, r := d / CYCLE, d % CYCLE;
    QuotientNonNegative(d, CYCLE);
    assert d == q * CYCLE + r;
    assert CYCLE == 2 * 0x7FFF_FFFF + 1;
  }

  // ---- counting slots ----

  function Live<T>(pool: seq<Slot<T>>): nat {
    if pool == [] then 0 else Live(pool[..|pool| - 1]) + (if pool[|pool| - 1].pres.Some? then 1 else 0)
  }

  function EmptySlots<T>(pool: seq<Slot<T>>): (s: set<nat>) {
    set i: nat | i < |pool| && pool[i].pres == None
  }

  lemma {:induction false} LiveAndEmpty<T>(pool: seq<Slot<T>>)
    ensures Live(pool) + |EmptySlots(pool)| == |pool|
    decreases |pool|
  {
    if pool != [] {
      var n := |pool| - 1;
      LiveAndEmpty(pool[..n]);
      if pool[n].pres == None {
        assert EmptySlots(pool) == EmptySlots(pool[..n]) + {n};
      } else {
        assert EmptySlots(pool) == EmptySlots(pool[..n]);
      }
    }
  }

  /** Taking the last of distinct values off. */
  lemma WithoutLast(s: seq<nat>)
    requires Distinct(s) && s != []
    ensures Distinct(s[..|s| - 1]) && forall x: nat :: x in s[..|s| - 1] <==> x in s && x != s[|s| - 1]
  {
    var n := |s| - 1;
    assert s == s[..n] + [s[n]];
    forall x: nat ensures x in s[..n] <==> x in s && x != s[n] {
      if x in s[..n] { var i :| 0 <= i < n && s[..n][i] == x; assert s[i] == x; }
    }
  }

  // ---- the state and what the operations make of it ----

  /** The slots and the free list of a manager, and how often each slot's generation was incremented. */
  datatype Model<T> = Model(pool: seq<Slot<T>>, free: seq<nat>, bumps: seq<nat>)
  {
    /** Slot 0 is the null handle's for ever; the free list holds every other empty slot exactly once;
        a slot is live after an odd number of increments. */
    ghost predicate Valid() {
      && 1 <= |pool| <= LIMIT && |bumps| == |pool| && pool[0] == Slot(None, 0)
      && (forall i :: 1 <= i < |pool| ==> SlotValid(pool[i], bumps[i]))
      && Distinct(free) && (forall i: nat :: i in free <==> 1 <= i < |pool| && pool[i].pres == None)
    }

    predicate IsValid(h: Handle) {
      h.index != 0 && h.index < |pool| && pool[h.index].generation == h.generation && pool[h.index].pres.Some?
    }

    function Active(): int {
      |pool| - 1 - |free|
    }

    /** There is a slot to take, or one can be added. */
    predicate HasRoom() {
      free != [] || |pool| < LIMIT
    }

    /** The slot that is taken next: the one freed last, or a new one. */
    function NextSlot(): nat {
      if free == [] then |pool| else free[|free| - 1]
    }

    /** With a new slot when all are live. */
    function Extended(): Model<T> {
      if free == [] then Model(pool + [Slot(None, 0)], free, bumps + [0]) else Model(pool, free[..|free| - 1], bumps)
    }
  }

  ghost predicate SlotValid<T>(s: Slot<T>, n: nat) {
    n >= 1 && s.generation == Generation(n) && (s.pres.Some? <==> n % 2 == 1)
  }

  function Acquired<T>(s: Model<T>, resource: T): (r: (Model<T>, Handle))
    requires s.Valid() && s.HasRoom()
  {
    var i, e := s.NextSlot(), s.Extended();
    assert s.free != [] ==> i in s.free;
    var g := NextGeneration(e.pool[i].generation);
    (Model(e.pool[i := Slot(Some(resource), g)], e.free, e.bumps[i := e.bumps[i] + 1]), Handle(i, g))
  }

  function Released<T>(s: Model<T>, h: Handle): (r: (Model<T>, Option<Errc>))
    requires s.Valid()
  {
    if h.index == 0 || h.index >= |s.pool| then (s, Some(NotEnoughMemory))
    else if !s.IsValid(h) then (s, Some(InvalidArgument))
    else
      (Model(s.pool[h.index := Slot(None, NextGeneration(h.generation))], s.free + [h.index as nat],
             s.bumps[h.index := s.bumps[h.index] + 1]), None)
  }

  /** Acquiring keeps the state valid, increments one slot that was not live, and makes its handle valid. */
  lemma AcquireKeeps<T>(s: Model<T>, resource: T)
    requires s.Valid() && s.HasRoom()
    ensures var (t, h) := Acquired(s, resource);
            && t.Valid() && t.IsValid(h) && t.pool[h.index].pres == Some(resource) && !s.IsValid(h)
            && t.Active() == s.Active() + 1 && h.generation == Generation(t.bumps[h.index])
  {
    if s.free != [] {
      WithoutLast(s.free);
      assert s.NextSlot() in s.free;
    }
    var i := s.NextSlot();
    assert i < |s.pool| ==> SlotValid(s.pool[i], s.bumps[i]);
    var (t, h) := Acquired(s, resource);
    assert SlotValid(t.pool[i], t.bumps[i]);
    forall k | 1 <= k < |t.pool| ensures SlotValid(t.pool[k], t.bumps[k]) {
      if k != i { assert SlotValid(s.pool[k], s.bumps[k]); }
    }
    forall k: nat ensures k in t.free <==> 1 <= k < |t.pool| && t.pool[k].pres == None {
      assert k in s.free <==> 1 <= k < |s.pool| && s.pool[k].pres == None;
    }
  }

  /** Releasing a valid handle keeps the state valid and makes the handle invalid. */
  lemma ReleaseKeeps<T>(s: Model<T>, h: Handle)
    requires s.Valid()
    ensures var (t, e) := Released(s, h);
            && t.Valid() && !t.IsValid(h) && (e == None <==> s.IsValid(h))
            && t.Active() == s.Active() - (if s.IsValid(h) then 1 else 0)
  {
    if s.IsValid(h) {
      var (t, _) := Released(s, h);
      assert SlotValid(s.pool[h.index], s.bumps[h.index]);
      forall k | 1 <= k < |t.pool| ensures SlotValid(t.pool[k], t.bumps[k]) {
        if k != h.index { assert SlotValid(s.pool[k], s.bumps[k]); }
      }
    }
  }

  /** `active` counts the live slots. */
  lemma ActiveCounts<T>(s: Model<T>)
    requires s.Valid()
    ensures s.Active() == Live(s.pool)
  {
    LiveAndEmpty(s.pool);
    DistinctCount(s.free);
    assert 0 !in Elements(s.free);
    assert EmptySlots(s.pool) == Elements(s.free) + {0};
    assert |EmptySlots(s.pool)| == |s.free| + 1;
  }

  /** Last freed, first reused: what is acquired right after a release has the slot of the released handle, one
      generation on. */
  lemma ReusedNext<T>(s: Model<T>, h: Handle, resource: T)
    requires s.Valid() && s.IsValid(h)
    ensures var t := Released(s, h).0;
            && t.Valid() && t.HasRoom()
            && Acquired(t, resource).1 == Handle(h.index, if h.generation == 0xFFFF_FFFF then 2
                                                          else if h.generation == 0xFFFF_FFFE then 1
                                                          else h.generation + 2)
  {
    ReleaseKeeps(s, h);
  }

  /** The slots of two released handles are reused in the opposite order. */
  lemma LastFreedFirst<T>(s: Model<T>, a: Handle, b: Handle, x: T, y: T)
    requires s.Valid() && s.IsValid(a) && s.IsValid(b) && a.index != b.index
    ensures var t := Released(s, a).0;
            && t.Valid()
            && var u := Released(t, b).0;
               && u.Valid() && u.HasRoom()
               && var (v, h) := Acquired(u, x);
                  v.Valid() && v.HasRoom() && h.index == b.index && Acquired(v, y).1.index == a.index
  {
    ReleaseKeeps(s, a);
    var t := Released(s, a).0;
    ReleaseKeeps(t, b);
    var u := Released(t, b).0;
    AcquireKeeps(u, x);
    assert u.free == s.free + [a.index as nat] + [b.index as nat];
    assert u.free[..|u.free| - 1] == s.free + [a.index as nat];
  }

  /** And while nothing is free, a slot behind all that there were, of generation 1. */
  lemma NewSlotNext<T>(s: Model<T>, resource: T)
    requires s.Valid() && s.free == [] && |s.pool| < 0x1_0000_0000
    ensures var (t, h) := Acquired(s, resource); h == Handle(|s.pool|, 1) && |t.pool| == |s.pool| + 1
  {}

  // ---- the manager ----

  class ResourceManager<T(==)> {
    var pool: seq<Slot<T>>
    var free: seq<nat>
    ghost var bumps: seq<nat>

    ghost function State(): Model<T>
      reads this
    {
      Model(pool, free, bumps)
    }

    constructor ()
      ensures State() == Model([Slot(None, 0)], [], [0]) && State().Valid()
    {
      pool, free, bumps := [Slot(None, 0)], [], [0];
    }

    predicate IsValid(h: Handle)
      reads this
      ensures IsValid(h) == State().IsValid(h)
    {
      h.index != 0 && h.index < |pool| && pool[h.index].generation == h.generation && pool[h.index].pres.Some?
    }

    function Get(h: Handle): (r: Option<T>)
      reads this
      ensures r.Some? <==> State().IsValid(h)
      ensures r.Some? ==> pool[h.index].pres == r
    {
      if IsValid(h) then pool[h.index].pres else None
    }

    function Capacity(): nat
      reads this
    {
      |pool|
    }

    function Active(): (n: int)
      reads this
      ensures State().Valid() ==> n == Live(pool)
    {
      assert State().Valid() ==> |pool| - 1 - |free| == Live(pool) by {
        if State().Valid() { ActiveCounts(State()); }
      }
      Capacity() - 1 - |free|
    }

    /** Takes the slot freed last, or a new one. */
    method Acquire(resource: T) returns (h: Handle)
      requires State().Valid() && State().HasRoom()
      modifies this
      ensures (State(), h) == Acquired(old(State()), resource)
      ensures State().Valid() && IsValid(h) && Get(h) == Some(resource) && !old(IsValid(h))
      ensures Active() == old(Active()) + 1
    {
      AcquireKeeps(State(), resource);
      var idx := |pool|;
      if free != [] {
        idx := free[|free| - 1];
        assert idx in free;
        free := free[..|free| - 1];
      } else {
        pool, bumps := pool + [Slot(None, 0)], bumps + [0];
      }
      var g := NextGeneration(pool[idx].generation);
      pool := pool[idx := Slot(Some(resource), g)];
      bumps := bumps[idx := bumps[idx] + 1];
      h := Handle(idx, g);
    }

    /** Refuses the null handle, an index that never was, and a stale handle, changing nothing. */
    method Release(h: Handle) returns (ec: Option<Errc>)
      requires State().Valid()
      modifies this
      ensures (State(), ec) == Released(old(State()), h)
      ensures State().Valid() && !IsValid(h) && (ec == None <==> old(IsValid(h)))
    {
      ReleaseKeeps(State(), h);
      if h.index == 0 || h.index >= |pool| { return Some(NotEnoughMemory); }
      if pool[h.index].generation != h.generation || pool[h.index].pres == None { return Some(InvalidArgument); }
      assert SlotValid(pool[h.index], bumps[h.index]);
      pool := pool[h.index := Slot(None, NextGeneration(pool[h.index].generation))];
      bumps := bumps[h.index := bumps[h.index] + 1];
      free := free + [h.index];
      ec := None;
    }
  }

  // ---- runs ----

  datatype Op<T> = Acquire(resource: T) | Release(handle: Handle)

  predicate Possible<T>(s: Model<T>, op: Op<T>) {
    op.Acquire? ==> s.HasRoom()
  }

  function Step<T>(s: Model<T>, op: Op<T>): Model<T>
    requires s.Valid() && Possible(s, op)
  {
    match op
    case Acquire(resource) => Acquired(s, resource).0
    case Release(h) => Released(s, h).0
  }

  /** The operation takes or frees slot `i`. */
  predicate Touches<T>(s: Model<T>, op: Op<T>, i: nat) {
    match op
    case Acquire(_) => s.NextSlot() == i
    case Release(h) => h.index == i && s.IsValid(h)
  }

  lemma StepKeeps<T>(s: Model<T>, op: Op<T>, i: nat)
    requires s.Valid() && Possible(s, op) && i < |s.pool|
    ensures Step(s, op).Valid() && i < |Step(s, op).pool|
    ensures Step(s, op).bumps[i] == s.bumps[i] + if Touches(s, op, i) then 1 else 0
    ensures !Touches(s, op, i) ==> Step(s, op).pool[i] == s.pool[i]
  {
    match op
    case Acquire(resource) => AcquireKeeps(s, resource);
    case Release(h) => ReleaseKeeps(s, h);
  }

  /** Every acquire of the run finds room. */
  ghost predicate Runs<T>(s: Model<T>, ops: seq<Op<T>>)
    requires s.Valid()
    decreases |ops|
  {
    ops == [] || (Possible(s, ops[0]) && (StepKeeps(s, ops[0], 0); Runs(Step(s, ops[0]), ops[1..])))
  }

  ghost function Run<T>(s: Model<T>, ops: seq<Op<T>>): Model<T>
    requires s.Valid() && Runs(s, ops)
    decreases |ops|
  {
    if ops == [] then s
    else
      StepKeeps(s, ops[0], 0);
      Run(Step(s, ops[0]), ops[1..])
  }

  /** How often a run takes or frees slot `i`. */
  ghost function Uses<T>(s: Model<T>, ops: seq<Op<T>>, i: nat): nat
    requires s.Valid() && Runs(s, ops)
    decreases |ops|
  {
    if ops == [] then 0
    else
      StepKeeps(s, ops[0], 0);
      (if Touches(s, ops[0], i) then 1 else 0) + Uses(Step(s, ops[0]), ops[1..], i)
  }

  /** Every state of a run is valid, so the free list holds each empty slot but the first exactly once
      and `active` counts the live ones; and each use of a slot increments it once. */
  lemma {:induction false} RunKeeps<T>(s: Model<T>, ops: seq<Op<T>>, i: nat)
    requires s.Valid() && Runs(s, ops) && i < |s.pool|
    ensures Run(s, ops).Valid() && Run(s, ops).Active() == Live(Run(s, ops).pool)
    ensures i < |Run(s, ops).pool| && Run(s, ops).bumps[i] == s.bumps[i] + Uses(s, ops, i)
    decreases |ops|
  {
    if ops == [] {
      ActiveCounts(s);
    } else {
      StepKeeps(s, ops[0], i);
      RunKeeps(Step(s, ops[0]), ops[1..], i);
    }
  }

  /** A handle of generation number `n` is valid exactly while its slot is at that number, up to full
      cycles of generations. */
  lemma ValidExactly<T>(s: Model<T>, h: Handle, n: nat)
    requires s.Valid() && 1 <= h.index < |s.pool| && n % 2 == 1 && n <= s.bumps[h.index]
    requires h.generation == Generation(n)
    ensures s.IsValid(h) <==> (s.bumps[h.index] - n) % (2 * CYCLE) == 0
  {
    var d := s.bumps[h.index] - n;
    assert SlotValid(s.pool[h.index], s.bumps[h.index]);
    GenerationsRepeat(n, s.bumps[h.index]);
    if s.bumps[h.index] % 2 == 1 {
      assert d % 2 == 0;
      EvenCycles(d);
    } else {
      assert d % 2 == 1;
      OddNeverCycles(d);
    }
  }

  lemma OddNeverCycles(d: nat)
    requires d % 2 == 1
    ensures d % (2 * CYCLE) != 0
  {
    ModMod(d, 2, CYCLE);
  }

  /** After any run, a handle is valid exactly if the run used its slot a multiple of 2 (2^32 - 1)
      times: a full cycle of generations, each acquired and released. */
  lemma HandleOverRun<T>(s: Model<T>, h: Handle, ops: seq<Op<T>>)
    requires s.Valid() && s.IsValid(h) && Runs(s, ops)
    ensures Run(s, ops).IsValid(h) <==> Uses(s, ops, h.index) % (2 * CYCLE) == 0
  {
    assert SlotValid(s.pool[h.index], s.bumps[h.index]);
    RunKeeps(s, ops, h.index);
    ValidExactly(Run(s, ops), h, s.bumps[h.index]);
  }

  /** So a handle that was released, like any that is stale, stays refused, and releasing it again
      changes nothing, until its slot has gone through that cycle. */
  lemma StaleRefused<T>(s: Model<T>, h: Handle, ops: seq<Op<T>>)
    requires s.Valid() && s.IsValid(h) && Runs(s, ops) && 0 < Uses(s, ops, h.index) < 2 * CYCLE
    ensures Run(s, ops).Valid() && Released(Run(s, ops), h) == (Run(s, ops), Some(InvalidArgument))
  {
    RunKeeps(s, ops, h.index);
    HandleOverRun(s, h, ops);
    var n := Uses(s, ops, h.index);
    QuotientUnique(n, 2 * CYCLE, 0, n);
  }

  /** The null handle, and any of a slot that never was, are refused with the other error, after any run. */
  lemma NullRefused<T>(s: Model<T>, h: Handle, ops: seq<Op<T>>)
    requires s.Valid() && Runs(s, ops) && (h.index == 0 || |Run(s, ops).pool| <= h.index)
    ensures Run(s, ops).Valid() && Released(Run(s, ops), h) == (Run(s, ops), Some(NotEnoughMemory))
  {
    RunKeeps(s, ops, 0);
  }

  /** As long as it is not itself released, a handle is valid and refers to the same resource, whatever
      else is acquired and released. */
  lemma {:induction false} ValidUntilReleased<T>(s: Model<T>, h: Handle, ops: seq<Op<T>>)
    requires s.Valid() && s.IsValid(h) && Runs(s, ops) && forall k :: 0 <= k < |ops| ==> ops[k] != Release(h)
    ensures Run(s, ops).IsValid(h) && Run(s, ops).pool[h.index] == s.pool[h.index]
    decreases |ops|
  {
    if ops != [] {
      assert ops[0] != Release(h);
      assert s.NextSlot() != h.index by { if s.free != [] { assert s.NextSlot() in s.free; } }
      StepKeeps(s, ops[0], h.index);
      ValidUntilReleased(Step(s, ops[0]), h, ops[1..]);
    }
  }
}
