/** Parallel filtering into one array: tasks filter their parts of the input, reserve room in the output by an atomic
    addition each, and copy. Every interleaving of their steps is a run. */
module Compaction {
  import opened Bits

  // ---- what is to be computed ----

  /** The input, the filter, and where the parts of the input begin and end. */
  datatype Job<!T(==)> = Job(input: seq<T>, keep: T -> bool, bounds: seq<nat>)
  {
    ghost predicate Valid() {
      && |bounds| >= 1 && bounds[0] == 0 && bounds[|bounds| - 1] == |input|
      && forall i, k :: 0 <= i <= k < |bounds| ==> bounds[i] <= bounds[k]
    }

    /** The number of tasks. */
    function Tasks(): nat
      requires |bounds| >= 1
    {
      |bounds| - 1
    }
  }

  function Survivors<T>(s: seq<T>, keep: T -> bool): (r: seq<T>)
    ensures |r| <= |s|
  {
    if s == [] then [] else Survivors(s[..|s| - 1], keep) + (if keep(s[|s| - 1]) then [s[|s| - 1]] else [])
  }

  /** `r` is what `keep` accepts in `s`: the elements at the positions `at`, in order, and no others. */
  ghost predicate Selected<T>(s: seq<T>, keep: T -> bool, r: seq<T>, at: seq<nat>) {
    && |at| == |r| && (forall i, m :: 0 <= i < m < |at| ==> at[i] < at[m])
    && (forall i :: 0 <= i < |at| ==> at[i] < |s| && r[i] == s[at[i]])
    && forall k: nat :: k < |s| ==> (k in at <==> keep(s[k]))
  }

  ghost predicate IsSelection<T>(s: seq<T>, keep: T -> bool, r: seq<T>) {
    exists at :: Selected(s, keep, r, at)
  }

  lemma {:induction false} SurvivorsSelected<T>(s: seq<T>, keep: T -> bool) returns (at: seq<nat>)
    ensures Selected(s, keep, Survivors(s, keep), at)
    decreases |s|
  {
    at := [];
    if s != [] {
      var n := |s| - 1;
      var before := SurvivorsSelected(s[..n], keep);
      at := before;
      if keep(s[n]) { at := before + [n]; }
      SelectedAppend(s, keep, Survivors(s[..n], keep), before, Survivors(s, keep), at);
    }
  }

  lemma SelectedAppend<T>(s: seq<T>, keep: T -> bool, q: seq<T>, before: seq<nat>, r: seq<T>, at: seq<nat>)
    requires s != [] && Selected(s[..|s| - 1], keep, q, before)
    requires keep(s[|s| - 1]) ==> r == q + [s[|s| - 1]] && at == before + [|s| - 1]
    requires !keep(s[|s| - 1]) ==> r == q && at == before
    ensures Selected(s, keep, r, at)
  {
    var n := |s| - 1;
    forall k: nat | k < |s| ensures k in at <==> keep(s[k]) {
      if k < n { assert k in before <==> keep(s[..n][k]); }
    }
  }

  /** Each element occurs as often as in the input, or not at all. */
  lemma {:induction false} SurvivorsCounted<T>(s: seq<T>, keep: T -> bool, x: T)
    ensures multiset(Survivors(s, keep))[x] == if keep(x) then multiset(s)[x] else 0
    decreases |s|
  {
    if s != [] {
      var n := |s| - 1;
      SurvivorsCounted(s[..n], keep, x);
      assert s == s[..n] + [s[n]];
    }
  }

  lemma {:induction false} SurvivorsAppend<T>(a: seq<T>, b: seq<T>, keep: T -> bool)
    ensures Survivors(a + b, keep) == Survivors(a, keep) + Survivors(b, keep)
    decreases |b|
  {
    if b == [] {
      assert a + b == a;
    } else {
      SurvivorsAppend(a, b[..|b| - 1], keep);
      assert (a + b)[..|a + b| - 1] == a + b[..|b| - 1];
    }
  }

  /** What task `k` contributes. */
  ghost function Part<T>(j: Job<T>, k: nat): (r: seq<T>)
    requires j.Valid() && k < j.Tasks()
    ensures |r| <= j.bounds[k + 1] - j.bounds[k]
  {
    Survivors(j.input[j.bounds[k]..j.bounds[k + 1]], j.keep)
  }

  /** Numbers of tasks. */
  ghost predicate Known<T>(j: Job<T>, order: seq<nat>)
    requires j.Valid()
  {
    forall m :: 0 <= m < |order| ==> order[m] < j.Tasks()
  }

  /** What some tasks contribute, one after the other. */
  ghost function Gathered<T>(j: Job<T>, order: seq<nat>): seq<T>
    requires j.Valid() && Known(j, order)
  {
    if order == [] then [] else Gathered(j, order[..|order| - 1]) + Part(j, order[|order| - 1])
  }

  /** Contributions counted task by task, whatever their order. */
  ghost function Counted<T>(j: Job<T>, order: seq<nat>, n: nat): (m: multiset<T>)
    requires j.Valid() && n <= j.Tasks()
    ensures |m| <= j.bounds[n]
  {
    if n == 0 then multiset{}
    else Counted(j, order, n - 1) + (if n - 1 in order then multiset(Part(j, n - 1)) else multiset{})
  }

  lemma {:induction false} CountOne<T>(j: Job<T>, order: seq<nat>, k: nat, n: nat)
    requires j.Valid() && k < j.Tasks() && k !in order && n <= j.Tasks()
    ensures Counted(j, order + [k], n) == Counted(j, order, n) + (if k < n then multiset(Part(j, k)) else multiset{})
  {
    if n > 0 {
      CountOne(j, order, k, n - 1);
      assert n - 1 in order + [k] <==> n - 1 in order || n - 1 == k;
    }
  }

  lemma {:induction false} GatheredIsCounted<T>(j: Job<T>, order: seq<nat>)
    requires j.Valid() && Distinct(order) && Known(j, order)
    ensures multiset(Gathered(j, order)) == Counted(j, order, j.Tasks())
    ensures |Gathered(j, order)| <= |j.input|
    decreases |order|
  {
    if order == [] {
      NoneCounted(j, j.Tasks());
    } else {
      var n := |order| - 1;
      GatheredIsCounted(j, order[..n]);
      assert order == order[..n] + [order[n]];
      CountOne(j, order[..n], order[n], j.Tasks());
    }
    assert |multiset(Gathered(j, order))| == |Gathered(j, order)|;
  }

  lemma {:induction false} NoneCounted<T>(j: Job<T>, n: nat)
    requires j.Valid() && n <= j.Tasks()
    ensures Counted(j, [], n) == multiset{}
  {
    if n > 0 { NoneCounted(j, n - 1); }
  }

  /** When all tasks have contributed, what is there is what the filter lets through. */
  lemma {:induction false} AllCounted<T>(j: Job<T>, order: seq<nat>, n: nat)
    requires j.Valid() && n <= j.Tasks() && forall k: nat :: k < j.Tasks() ==> k in order
    ensures Counted(j, order, n) == multiset(Survivors(j.input[..j.bounds[n]], j.keep))
  {
    if n > 0 {
      AllCounted(j, order, n - 1);
      SurvivorsUpTo(j, n - 1);
    } else {
      assert j.input[..0] == [];
    }
  }

  /** One part more of the input. */
  lemma SurvivorsUpTo<T>(j: Job<T>, k: nat)
    requires j.Valid() && k < j.Tasks()
    ensures multiset(Survivors(j.input[..j.bounds[k + 1]], j.keep))
         == multiset(Survivors(j.input[..j.bounds[k]], j.keep)) + multiset(Part(j, k))
  {
    var a, b := j.bounds[k], j.bounds[k + 1];
    SurvivorsAppend(j.input[..a], j.input[a..b], j.keep);
    assert j.input[..a] + j.input[a..b] == j.input[..b];
  }

  /** Where the contribution of the `i`-th task in the order begins, and that it ends before the next. */
  lemma {:induction false} GatheredPrefix<T>(j: Job<T>, order: seq<nat>, i: nat)
    requires j.Valid() && Known(j, order) && i <= |order|
    ensures Gathered(j, order[..i]) <= Gathered(j, order)
    ensures i < |order| ==> Gathered(j, order[..i]) + Part(j, order[i]) <= Gathered(j, order)
    decreases |order|
  {
    if i < |order| {
      var n := |order| - 1;
      GatheredPrefix(j, order[..n], i);
      assert order[..n][..i] == order[..i];
    } else {
      assert order[..i] == order;
    }
  }

  // ---- the tasks ----

  /** A task: filtering its part into a buffer of its own; about to reserve; copying from `base` on, `i` done; done. */
  datatype Task<T> =
    | Filtering
    | Reserving(local: seq<T>)
    | Copying(local: seq<T>, base: nat, i: nat)
    | Done(local: seq<T>, base: nat)

  /** The shared array and its counter, the tasks, and the order in which they have reserved. */
  datatype State<T> = State(a: seq<T>, size: nat, tasks: seq<Task<T>>, order: seq<nat>)

  ghost predicate Init<T>(j: Job<T>, s: State<T>) {
    && j.Valid() && |s.a| == |j.input| && s.size == 0 && s.order == []
    && |s.tasks| == j.Tasks() && forall k :: 0 <= k < |s.tasks| ==> s.tasks[k] == Filtering
  }

  /** The task's buffer is filled; nothing shared is touched. */
  ghost predicate Filter<T>(j: Job<T>, s: State<T>, s': State<T>, k: nat)
    requires j.Valid() && |s.tasks| == j.Tasks()
  {
    k < |s.tasks| && s.tasks[k].Filtering? && s' == s.(tasks := s.tasks[k := Reserving(Part(j, k))])
  }

  /** The atomic addition: the old value is where the task may write. */
  ghost predicate Reserve<T>(s: State<T>, s': State<T>, k: nat) {
    && k < |s.tasks| && s.tasks[k].Reserving?
    && var l := s.tasks[k].local;
       s' == s.(size := s.size + |l|, tasks := s.tasks[k := Copying(l, s.size, 0)], order := s.order + [k])
  }

  /** One element. */
  ghost predicate Copy<T>(s: State<T>, s': State<T>, k: nat) {
    && k < |s.tasks| && s.tasks[k].Copying? && s.tasks[k].i < |s.tasks[k].local|
    && var t := s.tasks[k];
       && t.base + t.i < |s.a|
       && s' == s.(a := s.a[t.base + t.i := t.local[t.i]], tasks := s.tasks[k := t.(i := t.i + 1)])
  }

  ghost predicate Finish<T>(s: State<T>, s': State<T>, k: nat) {
    && k < |s.tasks| && s.tasks[k].Copying? && s.tasks[k].i == |s.tasks[k].local|
    && s' == s.(tasks := s.tasks[k := Done(s.tasks[k].local, s.tasks[k].base)])
  }

  ghost predicate Step<T>(j: Job<T>, s: State<T>, s': State<T>, k: nat)
    requires j.Valid() && |s.tasks| == j.Tasks()
  {
    Filter(j, s, s', k) || Reserve(s, s', k) || Copy(s, s', k) || Finish(s, s', k)
  }

  /** A run: at each step some task moves. */
  ghost predicate Run<T>(j: Job<T>, run: seq<State<T>>) {
    && run != [] && Init(j, run[0])
    && forall i :: 0 < i < |run| ==> SomeStep(j, run[i - 1], run[i])
  }

  ghost predicate SomeStep<T>(j: Job<T>, s: State<T>, s': State<T>)
    requires j.Valid()
  {
    |s.tasks| == j.Tasks() && exists k: nat :: Step(j, s, s', k)
  }

  // ---- what every state of every run satisfies ----

  ghost predicate HasReserved<T>(t: Task<T>) {
    t.Copying? || t.Done?
  }

  /** How much of its contribution a task has copied. */
  ghost function Copied<T>(t: Task<T>): nat
    requires HasReserved(t)
  {
    if t.Copying? then t.i else |t.local|
  }

  /** A task has its room at `base` and has copied so much of `part` into it. */
  ghost predicate PlacedAt<T>(t: Task<T>, part: seq<T>, base: nat, a: seq<T>) {
    && HasReserved(t) && t.local == part && t.base == base
    && Copied(t) <= |part| && base + Copied(t) <= |a| && a[base..base + Copied(t)] == part[..Copied(t)]
  }

  /** The `i`-th task to reserve has the room behind those before it. */
  ghost predicate Placed<T>(j: Job<T>, s: State<T>, i: nat)
    requires j.Valid() && |s.tasks| == j.Tasks() && i < |s.order| && Known(j, s.order)
  {
    PlacedAt(s.tasks[s.order[i]], Part(j, s.order[i]), |Gathered(j, s.order[..i])|, s.a)
  }

  ghost predicate Inv<T>(j: Job<T>, s: State<T>) {
    && j.Valid() && |s.a| == |j.input| && |s.tasks| == j.Tasks()
    && Distinct(s.order) && Known(j, s.order)
    && s.size == |Gathered(j, s.order)|
    && (forall k: nat :: k < |s.tasks| ==> (HasReserved(s.tasks[k]) <==> k in s.order))
    && (forall k: nat :: k < |s.tasks| && s.tasks[k].Reserving? ==> s.tasks[k].local == Part(j, k))
    && forall i: nat :: i < |s.order| ==> Placed(j, s, i)
  }

  lemma InitInv<T>(j: Job<T>, s: State<T>)
    requires Init(j, s)
    ensures Inv(j, s)
  {}

  lemma FilterKeeps<T>(j: Job<T>, s: State<T>, s': State<T>, k: nat)
    requires Inv(j, s) && Filter(j, s, s', k)
    ensures Inv(j, s')
  {
    assert k !in s.order;
    forall i: nat | i < |s'.order| ensures Placed(j, s', i) {
      assert Placed(j, s, i) && s.order[i] != k;
    }
  }

  lemma ReserveKeeps<T>(j: Job<T>, s: State<T>, s': State<T>, k: nat)
    requires Inv(j, s) && Reserve(s, s', k)
    ensures Inv(j, s')
  {
    assert k !in s.order;
    OrderGrows(j, s.order, k);
    forall i: nat | i < |s'.order| ensures Placed(j, s', i) {
      if i < |s.order| { StaysPlaced(j, s, s', k, i); } else { NewlyPlaced(j, s, s', k); }
    }
    forall m: nat | m < |s.tasks| ensures HasReserved(s'.tasks[m]) <==> m in s'.order {
      InAppended(s.order, k, m);
    }
  }

  lemma InAppended(order: seq<nat>, k: nat, m: nat)
    ensures m in order + [k] <==> m in order || m == k
  {}

  lemma StaysPlaced<T>(j: Job<T>, s: State<T>, s': State<T>, k: nat, i: nat)
    requires Inv(j, s) && Reserve(s, s', k) && i < |s.order|
    requires |s'.tasks| == j.Tasks() && Known(j, s'.order)
    ensures Placed(j, s', i)
  {
    assert Placed(j, s, i) && s.order[i] in s.order && s.order[i] != k;
    assert s'.order[..i] == s.order[..i] && s'.order[i] == s.order[i];
  }

  /** The task's room begins where the counter was. */
  lemma NewlyPlaced<T>(j: Job<T>, s: State<T>, s': State<T>, k: nat)
    requires Inv(j, s) && Reserve(s, s', k) && |s'.tasks| == j.Tasks() && Known(j, s'.order)
    ensures Placed(j, s', |s.order|)
  {
    GatheredIsCounted(j, s.order);
    assert s'.order[..|s.order|] == s.order;
    AtStart(s.tasks[k].local, s.size, s.a);
  }

  lemma AtStart<T>(part: seq<T>, base: nat, a: seq<T>)
    requires base <= |a|
    ensures PlacedAt(Copying(part, base, 0), part, base, a)
  {}

  lemma OrderGrows<T>(j: Job<T>, order: seq<nat>, k: nat)
    requires j.Valid() && Known(j, order) && Distinct(order) && k < j.Tasks() && k !in order
    ensures Known(j, order + [k]) && Distinct(order + [k])
    ensures Gathered(j, order + [k]) == Gathered(j, order) + Part(j, k)
  {
    assert (order + [k])[..|order|] == order;
  }

  /** No two tasks have room in common. */
  lemma Disjoint<T>(j: Job<T>, s: State<T>, i: nat, m: nat)
    requires Inv(j, s) && i < m < |s.order|
    ensures s.tasks[s.order[i]].base + |s.tasks[s.order[i]].local| <= s.tasks[s.order[m]].base
  {
    assert Placed(j, s, i) && Placed(j, s, m);
    var o := s.order[..m];
    GatheredPrefix(j, o, i);
    assert o[..i] == s.order[..i] && o[i] == s.order[i];
  }

  lemma CopyKeeps<T>(j: Job<T>, s: State<T>, s': State<T>, k: nat)
    requires Inv(j, s) && Copy(s, s', k)
    ensures Inv(j, s')
  {
    assert k in s.order;
    var p: nat :| p < |s.order| && s.order[p] == k;
    forall i: nat | i < |s'.order| ensures Placed(j, s', i) {
      if i == p { CopierStays(j, s, s', k, p); } else { OthersStay(j, s, s', k, p, i); }
    }
  }

  lemma CopierStays<T>(j: Job<T>, s: State<T>, s': State<T>, k: nat, p: nat)
    requires Inv(j, s) && Copy(s, s', k) && p < |s.order| && s.order[p] == k
    ensures |s'.tasks| == j.Tasks() && Placed(j, s', p)
  {
    assert Placed(j, s, p);
    OneMore(s.tasks[k], s'.tasks[k], Part(j, k), s.tasks[k].base, s.a, s'.a);
  }

  lemma OneMore<T>(t: Task<T>, t': Task<T>, part: seq<T>, base: nat, a: seq<T>, a': seq<T>)
    requires PlacedAt(t, part, base, a) && t.Copying? && t.i < |part| && base + t.i < |a|
    requires t' == t.(i := t.i + 1) && a' == a[base + t.i := part[t.i]]
    ensures PlacedAt(t', part, base, a')
  {
    assert a'[base..base + t.i + 1] == a[base..base + t.i] + [part[t.i]];
    assert part[..t.i + 1] == part[..t.i] + [part[t.i]];
  }

  lemma OthersStay<T>(j: Job<T>, s: State<T>, s': State<T>, k: nat, p: nat, i: nat)
    requires Inv(j, s) && Copy(s, s', k) && p < |s.order| && s.order[p] == k && i < |s.order| && i != p
    ensures |s'.tasks| == j.Tasks() && Placed(j, s', i)
  {
    assert Placed(j, s, p) && Placed(j, s, i);
    if i < p { Disjoint(j, s, i, p); } else { Disjoint(j, s, p, i); }
    OutsideStays(s.tasks[s.order[i]], Part(j, s.order[i]), |Gathered(j, s.order[..i])|, s.a,
                 s.tasks[k].base + s.tasks[k].i, s.tasks[k].local[s.tasks[k].i]);
  }

  lemma OutsideStays<T>(t: Task<T>, part: seq<T>, base: nat, a: seq<T>, at: nat, v: T)
    requires PlacedAt(t, part, base, a) && at < |a| && (at < base || base + |part| <= at)
    ensures PlacedAt(t, part, base, a[at := v])
  {}

  lemma FinishKeeps<T>(j: Job<T>, s: State<T>, s': State<T>, k: nat)
    requires Inv(j, s) && Finish(s, s', k)
    ensures Inv(j, s')
  {
    forall i: nat | i < |s'.order| ensures Placed(j, s', i) {
      assert Placed(j, s, i);
    }
  }

  lemma StepKeeps<T>(j: Job<T>, s: State<T>, s': State<T>, k: nat)
    requires Inv(j, s) && Step(j, s, s', k)
    ensures Inv(j, s')
  {
    if Filter(j, s, s', k) {
      FilterKeeps(j, s, s', k);
    } else if Reserve(s, s', k) {
      ReserveKeeps(j, s, s', k);
    } else if Copy(s, s', k) {
      CopyKeeps(j, s, s', k);
    } else {
      FinishKeeps(j, s, s', k);
    }
  }

  lemma {:induction false} RunInv<T>(j: Job<T>, run: seq<State<T>>, i: nat)
    requires Run(j, run) && i < |run|
    ensures Inv(j, run[i])
    decreases i
  {
    if i == 0 {
      InitInv(j, run[0]);
    } else {
      RunInv(j, run, i - 1);
      assert SomeStep(j, run[i - 1], run[i]);
      var k: nat :| Step(j, run[i - 1], run[i], k);
      StepKeeps(j, run[i - 1], run[i], k);
    }
  }

  // ---- the promises ----

  /** At every moment of every run the reserved ranges lie one behind the other, in the order of reservation, ... */
  lemma RangesTile<T>(j: Job<T>, run: seq<State<T>>, r: nat, i: nat)
    requires Run(j, run) && r < |run| && i + 1 < |run[r].order|
    ensures Inv(j, run[r])
    ensures var s := run[r];
            s.tasks[s.order[i + 1]].base == s.tasks[s.order[i]].base + |s.tasks[s.order[i]].local|
  {
    var s := run[r];
    RunInv(j, run, r);
    assert Placed(j, s, i) && Placed(j, s, i + 1);
    assert s.order[..i + 1][..i] == s.order[..i];
  }

  /** ... from the start of the array to the counter, which never leaves it. */
  lemma RangesFill<T>(j: Job<T>, run: seq<State<T>>, r: nat)
    requires Run(j, run) && r < |run|
    ensures Inv(j, run[r]) && run[r].size <= |run[r].a|
    ensures run[r].order == [] ==> run[r].size == 0
    ensures run[r].order != [] ==>
              var s, n := run[r], |run[r].order| - 1;
              && s.tasks[s.order[0]].base == 0
              && s.tasks[s.order[n]].base + |s.tasks[s.order[n]].local| == s.size
  {
    var s := run[r];
    RunInv(j, run, r);
    GatheredIsCounted(j, s.order);
    if s.order != [] {
      assert Placed(j, s, 0) && Placed(j, s, |s.order| - 1);
      assert s.order[..0] == [];
    }
  }

  /** No task is ever stuck: whatever the others do, a task that is not done can take its next step, and an element
      it copies goes inside the array. */
  lemma NeverStuck<T>(j: Job<T>, run: seq<State<T>>, r: nat, k: nat)
    requires Run(j, run) && r < |run| && k < |run[r].tasks| && !run[r].tasks[k].Done?
    ensures |run[r].tasks| == j.Tasks() && exists s' :: Step(j, run[r], s', k)
  {
    var s := run[r];
    RunInv(j, run, r);
    var t := s.tasks[k];
    var s': State<T>;
    match t {
      case Filtering =>
        s' := s.(tasks := s.tasks[k := Reserving(Part(j, k))]);
        assert Filter(j, s, s', k);
      case Reserving(l) =>
        s' := State(s.a, s.size + |l|, s.tasks[k := Copying(l, s.size, 0)], s.order + [k]);
        assert Reserve(s, s', k);
      case Copying(l, base, i) =>
        RoomInside(j, s, k);
        if i < |l| {
          s' := s.(a := s.a[base + i := l[i]], tasks := s.tasks[k := t.(i := i + 1)]);
          assert Copy(s, s', k);
        } else {
          s' := s.(tasks := s.tasks[k := Done(l, base)]);
          assert Finish(s, s', k);
        }
    }
    assert Step(j, s, s', k);
  }

  lemma RoomInside<T>(j: Job<T>, s: State<T>, k: nat)
    requires Inv(j, s) && k < |s.tasks| && s.tasks[k].Copying?
    ensures s.tasks[k].i <= |s.tasks[k].local| && s.tasks[k].base + |s.tasks[k].local| <= |s.a|
  {
    assert HasReserved(s.tasks[k]);
    var p: nat :| p < |s.order| && s.order[p] == k;
    assert Placed(j, s, p);
    GatheredPrefix(j, s.order, p);
    GatheredIsCounted(j, s.order);
  }

  /** The room of the `i`-th task to reserve holds what the filter accepts in that task's part of the input: all of
      it, and in its order. */
  ghost predicate Whole<T>(j: Job<T>, s: State<T>, i: nat)
    requires j.Valid() && |s.tasks| == j.Tasks() && i < |s.order| && Known(j, s.order)
  {
    var k := s.order[i];
    var t := s.tasks[k];
    && HasReserved(t) && t.base + |t.local| <= |s.a|
    && IsSelection(j.input[j.bounds[k]..j.bounds[k + 1]], j.keep, s.a[t.base..t.base + |t.local|])
  }

  /** An element that the filter accepts occurs as often as in the input, any other not at all. */
  ghost predicate KeptAsOften<T>(j: Job<T>, out: seq<T>, x: T) {
    multiset(out)[x] == if j.keep(x) then multiset(j.input)[x] else 0
  }

  /** When all tasks are done, each exactly once in the order of reservation, the array up to the counter holds what
      the filter accepts: every element as often as in the input, each task's whole and in order, one behind the
      other as `RangesTile` and `RangesFill` say. */
  lemma Compacted<T>(j: Job<T>, run: seq<State<T>>, r: nat)
    requires Run(j, run) && r < |run| && forall k :: 0 <= k < |run[r].tasks| ==> run[r].tasks[k].Done?
    ensures var s := run[r];
            && j.Valid() && |s.tasks| == j.Tasks() && s.size <= |s.a| && Known(j, s.order)
            && Distinct(s.order) && (forall k: nat :: k in s.order <==> k < j.Tasks())
    ensures var s := run[r];
            forall x :: KeptAsOften(j, s.a[..s.size], x)
    ensures forall i: nat :: i < |run[r].order| ==> Whole(j, run[r], i)
  {
    var s := run[r];
    CompactedParts(j, run, r);
    forall x ensures KeptAsOften(j, s.a[..s.size], x) { SurvivorsCounted(j.input, j.keep, x); }
    forall i: nat | i < |s.order| ensures Whole(j, s, i) { RoomWhole(j, s, i); }
  }

  lemma RoomWhole<T>(j: Job<T>, s: State<T>, i: nat)
    requires Inv(j, s) && i < |s.order| && s.order[i] < |s.tasks| && s.tasks[s.order[i]].Done?
    ensures Whole(j, s, i)
  {
    var k := s.order[i];
    assert Placed(j, s, i);
    CopiedWhole(s.tasks[k], Part(j, k), |Gathered(j, s.order[..i])|, s.a);
    PartSelected(j, k);
  }

  lemma PartSelected<T>(j: Job<T>, k: nat)
    requires j.Valid() && k < j.Tasks()
    ensures IsSelection(j.input[j.bounds[k]..j.bounds[k + 1]], j.keep, Part(j, k))
  {
    var at := SurvivorsSelected(j.input[j.bounds[k]..j.bounds[k + 1]], j.keep);
  }

  lemma CopiedWhole<T>(t: Task<T>, part: seq<T>, base: nat, a: seq<T>)
    requires PlacedAt(t, part, base, a) && t.Done?
    ensures t.base + |t.local| <= |a| && a[t.base..t.base + |t.local|] == part
  {
    assert part[..|part|] == part;
  }

  /** The same in terms of the parts. */
  lemma CompactedParts<T>(j: Job<T>, run: seq<State<T>>, r: nat)
    requires Run(j, run) && r < |run| && forall k :: 0 <= k < |run[r].tasks| ==> run[r].tasks[k].Done?
    ensures var s := run[r];
            && Inv(j, s) && (forall k: nat :: k in s.order <==> k < j.Tasks())
            && s.size <= |s.a| && s.a[..s.size] == Gathered(j, s.order)
            && multiset(s.a[..s.size]) == multiset(Survivors(j.input, j.keep))
  {
    var s := run[r];
    RunInv(j, run, r);
    AllReserved(j, s);
    GatheredIsCounted(j, s.order);
    AllWritten(j, s, |s.order|);
    assert s.order[..|s.order|] == s.order;
    WholeInput(j, s.order);
  }

  lemma WholeInput<T>(j: Job<T>, order: seq<nat>)
    requires j.Valid() && forall k: nat :: k < j.Tasks() ==> k in order
    ensures Counted(j, order, j.Tasks()) == multiset(Survivors(j.input, j.keep))
  {
    AllCounted(j, order, j.Tasks());
    assert j.input[..|j.input|] == j.input;
  }

  lemma AllReserved<T>(j: Job<T>, s: State<T>)
    requires Inv(j, s) && forall k :: 0 <= k < |s.tasks| ==> s.tasks[k].Done?
    ensures forall k: nat :: k in s.order <==> k < j.Tasks()
  {
    forall k: nat ensures k in s.order <==> k < j.Tasks() {
      if k < j.Tasks() { assert HasReserved(s.tasks[k]); }
    }
  }

  lemma {:induction false} AllWritten<T>(j: Job<T>, s: State<T>, i: nat)
    requires Inv(j, s) && i <= |s.order| && forall k :: 0 <= k < |s.tasks| ==> s.tasks[k].Done?
    ensures |Gathered(j, s.order[..i])| <= |s.a| && s.a[..|Gathered(j, s.order[..i])|] == Gathered(j, s.order[..i])
    decreases i
  {
    if i > 0 {
      AllWritten(j, s, i - 1);
      assert Placed(j, s, i - 1);
      assert s.order[..i][..i - 1] == s.order[..i - 1];
      AppendPart(s.a, Gathered(j, s.order[..i - 1]), Part(j, s.order[i - 1]));
    }
  }

  lemma AppendPart<T>(a: seq<T>, done: seq<T>, part: seq<T>)
    requires |done| + |part| <= |a| && a[..|done|] == done && a[|done|..|done| + |part|] == part
    ensures a[..|done| + |part|] == done + part
  {
    assert a[..|done| + |part|] == a[..|done|] + a[|done|..|done| + |part|];
  }
}
