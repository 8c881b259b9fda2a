/** The spin-locked queue as a state machine: any number of threads, one shared access a step, in any
    order. */
module SpinQueue {
  import opened Bits
  import opened RingQueue

  datatype Op<T> = Push(value: T) | Pop

  /** Where a thread is. `m_tail` and `m_head` are loaded one after the other, and the values loaded are
      kept until they are compared. */
  datatype Pc<T> =
    | Idle
    | Acquiring(op: Op<T>)
    | LoadingTail(op: Op<T>)
    | LoadingHead(op: Op<T>, tail: nat)
    | Storing(op: Op<T>)
    | Taking(op: Op<T>)
    | BumpingTail(op: Op<T>)
    | BumpingHead(op: Op<T>, taken: T)
    | Releasing(op: Op<T>, result: Result<T>)

  datatype Result<T> = Pushed | Full | Popped(value: T) | Empty

  /** A completed operation: which thread, what, and how it went. */
  datatype Event<T> = Event(thread: nat, op: Op<T>, result: Result<T>)

  /** Shared memory, the threads' positions, and the operations completed so far, in the order of their
      releases. */
  datatype State<T> = State(using: bool, head: nat, tail: nat, data: seq<T>, pcs: map<nat, Pc<T>>,
                            history: seq<Event<T>>)
  {
    function At(t: nat): Pc<T> {
      if t in pcs then pcs[t] else Idle
    }

    function Go(t: nat, pc: Pc<T>): State<T> {
      this.(pcs := pcs[t := pc])
    }

    function Size(): nat {
      |data|
    }
  }

  // ---- the steps ----

  ghost predicate Init<T>(s: State<T>, cap: nat) {
    !s.using && s.head == 0 && s.tail == 0 && |s.data| == cap + 1 && s.pcs == map[] && s.history == []
  }

  /** A thread calls `emplace` or `pop`. */
  ghost predicate Call<T(!new)>(s: State<T>, s': State<T>, t: nat) {
    s.At(t).Idle? && exists op :: s' == s.Go(t, Acquiring(op))
  }

  /** The compare-exchange from false to true; when it fails the thread tries again. */
  ghost predicate Acquire<T>(s: State<T>, s': State<T>, t: nat) {
    s.At(t).Acquiring? && s' == if s.using then s else s.(using := true).Go(t, LoadingTail(s.At(t).op))
  }

  ghost predicate LoadTail<T>(s: State<T>, s': State<T>, t: nat) {
    s.At(t).LoadingTail? && s' == s.Go(t, LoadingHead(s.At(t).op, s.tail))
  }

  /** The full or empty check. */
  ghost predicate LoadHead<T>(s: State<T>, s': State<T>, t: nat) {
    && s.At(t).LoadingHead?
    && var op, tail := s.At(t).op, s.At(t).tail;
       match op
       case Push(_) =>
         && tail < s.Size()
         && s' == s.Go(t, if Bump(tail, s.Size()) == s.head then Releasing(op, Full) else Storing(op))
       case Pop => s' == s.Go(t, if s.head == tail then Releasing(op, Empty) else Taking(op))
  }

  ghost predicate Store<T>(s: State<T>, s': State<T>, t: nat) {
    && s.At(t).Storing? && s.At(t).op.Push? && s.tail < s.Size()
    && s' == s.(data := s.data[s.tail := s.At(t).op.value]).Go(t, BumpingTail(s.At(t).op))
  }

  ghost predicate BumpTail<T>(s: State<T>, s': State<T>, t: nat) {
    && s.At(t).BumpingTail? && s.tail < s.Size()
    && s' == s.(tail := Bump(s.tail, s.Size())).Go(t, Releasing(s.At(t).op, Pushed))
  }

  ghost predicate Take<T>(s: State<T>, s': State<T>, t: nat) {
    s.At(t).Taking? && s.head < s.Size() && s' == s.Go(t, BumpingHead(s.At(t).op, s.data[s.head]))
  }

  ghost predicate BumpHead<T>(s: State<T>, s': State<T>, t: nat) {
    && s.At(t).BumpingHead? && s.head < s.Size()
    && s' == s.(head := Bump(s.head, s.Size())).Go(t, Releasing(s.At(t).op, Popped(s.At(t).taken)))
  }

  /** The compare-exchange from true to false, after which the operation is complete; should it fail,
      the thread tries again. */
  ghost predicate Release<T>(s: State<T>, s': State<T>, t: nat) {
    && s.At(t).Releasing?
    && s' == if s.using
             then s.(using := false, history := s.history + [Event(t, s.At(t).op, s.At(t).result)]).Go(t, Idle)
             else s
  }

  ghost predicate Step<T(!new)>(s: State<T>, s': State<T>, t: nat) {
    || Call(s, s', t) || Acquire(s, s', t) || LoadTail(s, s', t) || LoadHead(s, s', t) || Store(s, s', t)
    || BumpTail(s, s', t) || Take(s, s', t) || BumpHead(s, s', t) || Release(s, s', t)
  }

  ghost predicate SomeStep<T(!new)>(s: State<T>, s': State<T>) {
    exists t: nat :: Step(s, s', t)
  }

  /** A run: it starts empty, and at each step some thread moves. */
  ghost predicate Run<T(!new)>(run: seq<State<T>>, cap: nat) {
    && run != [] && Init(run[0], cap)
    && forall i :: 0 < i < |run| ==> SomeStep(run[i - 1], run[i])
  }

  // ---- what histories must be ----

  /** A FIFO queue with room for `cap`: the queue after a history, if it is a legal one. */
  ghost function Replay<T>(h: seq<Event<T>>, cap: nat): Option<seq<T>>
    decreases |h|
  {
    if h == [] then Some([])
    else
      match Replay(h[..|h| - 1], cap)
      case None => None
      case Some(q) => Apply(q, h[|h| - 1], cap)
  }

  /** One operation on a FIFO queue: a push is refused exactly when the queue is full, a pop exactly when
      it is empty; otherwise a push appends and a pop takes the oldest. */
  ghost function Apply<T>(q: seq<T>, e: Event<T>, cap: nat): Option<seq<T>> {
    match e.result
    case Pushed => if e.op.Push? && |q| < cap then Some(q + [e.op.value]) else None
    case Full => if e.op.Push? && |q| == cap then Some(q) else None
    case Popped(v) => if e.op.Pop? && q != [] && q[0] == v then Some(q[1..]) else None
    case Empty => if e.op.Pop? && q == [] then Some(q) else None
  }

  ghost function PushedValues<T>(h: seq<Event<T>>): seq<T>
    decreases |h|
  {
    if h == [] then []
    else
      var last := h[|h| - 1];
      PushedValues(h[..|h| - 1]) + (if last.result.Pushed? && last.op.Push? then [last.op.value] else [])
  }

  ghost function PoppedValues<T>(h: seq<Event<T>>): seq<T>
    decreases |h|
  {
    if h == [] then []
    else PoppedValues(h[..|h| - 1]) + (if h[|h| - 1].result.Popped? then [h[|h| - 1].result.value] else [])
  }

  /** In a legal history the values popped are the first values pushed, in the same order, and the rest
      are queued: none is lost, duplicated or reordered. */
  lemma {:induction false} FirstInFirstOut<T>(h: seq<Event<T>>, cap: nat)
    requires Replay(h, cap).Some?
    ensures PushedValues(h) == PoppedValues(h) + Replay(h, cap).value
    decreases |h|
  {
    if h != [] {
      FirstInFirstOut(h[..|h| - 1], cap);
      var q, e := Replay(h[..|h| - 1], cap).value, h[|h| - 1];
      match e.result
      case Pushed => assert PoppedValues(h[..|h| - 1]) + q + [e.op.value] == PoppedValues(h) + (q + [e.op.value]);
      case Popped(v) => assert q == [v] + q[1..];
      case Full =>
      case Empty =>
    }
  }

  // ---- what every state of every run satisfies ----

  /** Between the acquiring and the releasing compare-exchange. */
  ghost predicate InCriticalSection<T>(pc: Pc<T>) {
    !pc.Idle? && !pc.Acquiring?
  }

  /** The thread in the critical section, if any. */
  ghost predicate Owns<T(!new)>(s: State<T>, owner: Option<nat>) {
    && (s.using <==> owner.Some?)
    && forall t: nat :: InCriticalSection(s.At(t)) <==> owner == Some(t)
  }

  /** Shared memory holds the queue `q`. */
  ghost predicate Holds<T>(s: State<T>, q: seq<T>, cap: nat) {
    && |s.data| == cap + 1 && s.head < |s.data| && |q| <= cap
    && s.tail == Advance(s.head, |q|, |s.data|) && Ring(s.data, s.head, |q|) == q
  }

  /** How far the owner's operation has got, over the queue `q` that the history leaves. */
  ghost predicate Progress<T>(s: State<T>, pc: Pc<T>, q: seq<T>, cap: nat) {
    match pc
    case Idle => Holds(s, q, cap)
    case Acquiring(_) => Holds(s, q, cap)
    case LoadingTail(_) => Holds(s, q, cap)
    case LoadingHead(_, tail) => Holds(s, q, cap) && tail == s.tail
    case Storing(op) => Holds(s, q, cap) && op.Push? && |q| < cap
    case Taking(op) => Holds(s, q, cap) && op.Pop? && q != []
    case BumpingTail(op) => Holds(s, q, cap) && op.Push? && |q| < cap && s.data[s.tail] == op.value
    case BumpingHead(op, taken) => Holds(s, q, cap) && op.Pop? && q != [] && taken == q[0]
    case Releasing(op, result) =>
      match Apply(q, Event(0, op, result), cap)
      case None => false
      case Some(q') => Holds(s, q', cap)
  }

  /** The invariant, for a given owner of the lock. */
  ghost predicate InvWith<T(!new)>(s: State<T>, owner: Option<nat>, cap: nat) {
    && Owns(s, owner) && Replay(s.history, cap).Some?
    && Progress(s, if owner.Some? then s.At(owner.value) else Idle, Replay(s.history, cap).value, cap)
  }

  lemma InitInv<T(!new)>(s: State<T>, cap: nat)
    requires Init(s, cap)
    ensures InvWith(s, None, cap)
  {}

  lemma AcquireKeeps<T(!new)>(s: State<T>, s': State<T>, t: nat, owner: Option<nat>, cap: nat)
    returns (owner': Option<nat>)
    requires InvWith(s, owner, cap) && (Call(s, s', t) || Acquire(s, s', t))
    ensures InvWith(s', owner', cap)
  {
    owner' := if Acquire(s, s', t) && !s.using then Some(t) else owner;
  }

  lemma LoadKeeps<T(!new)>(s: State<T>, s': State<T>, t: nat, owner: Option<nat>, cap: nat)
    requires InvWith(s, owner, cap) && (LoadTail(s, s', t) || LoadHead(s, s', t))
    ensures InvWith(s', owner, cap)
  {
    assert owner == Some(t);
    var q := Replay(s.history, cap).value;
    FullOrEmpty(s.head, |q|, |s.data|);
  }

  lemma PushKeeps<T(!new)>(s: State<T>, s': State<T>, t: nat, owner: Option<nat>, cap: nat)
    requires InvWith(s, owner, cap) && (Store(s, s', t) || BumpTail(s, s', t))
    ensures InvWith(s', owner, cap)
  {
    assert owner == Some(t);
    var q := Replay(s.history, cap).value;
    if Store(s, s', t) {
      RingWrite(s.data, s.head, |q|, |q|, s.At(t).op.value);
    } else {
      RingPush(s.data, s.head, |q|, s.data[s.tail]);
      assert s.data[s.tail := s.data[s.tail]] == s.data;
      AdvanceBump(s.head, |q|, |s.data|);
    }
  }

  lemma PopKeeps<T(!new)>(s: State<T>, s': State<T>, t: nat, owner: Option<nat>, cap: nat)
    requires InvWith(s, owner, cap) && (Take(s, s', t) || BumpHead(s, s', t))
    ensures InvWith(s', owner, cap)
  {
    assert owner == Some(t);
    var q := Replay(s.history, cap).value;
    assert Ring(s.data, s.head, |q|)[1..] == Ring(s.data, Bump(s.head, |s.data|), |q| - 1);
  }

  lemma ReleaseKeeps<T(!new)>(s: State<T>, s': State<T>, t: nat, owner: Option<nat>, cap: nat)
    requires InvWith(s, owner, cap) && Release(s, s', t)
    ensures InvWith(s', None, cap)
  {
    assert owner == Some(t);
    assert s'.history[..|s.history|] == s.history;
  }

  /** Every step of every thread keeps the invariant. */
  lemma StepKeeps<T(!new)>(s: State<T>, s': State<T>, t: nat, owner: Option<nat>, cap: nat)
    returns (owner': Option<nat>)
    requires InvWith(s, owner, cap) && Step(s, s', t)
    ensures InvWith(s', owner', cap)
  {
    owner' := owner;
    if Call(s, s', t) || Acquire(s, s', t) {
      owner' := AcquireKeeps(s, s', t, owner, cap);
    } else if LoadTail(s, s', t) || LoadHead(s, s', t) {
      LoadKeeps(s, s', t, owner, cap);
    } else if Store(s, s', t) || BumpTail(s, s', t) {
      PushKeeps(s, s', t, owner, cap);
    } else if Take(s, s', t) || BumpHead(s, s', t) {
      PopKeeps(s, s', t, owner, cap);
    } else {
      ReleaseKeeps(s, s', t, owner, cap);
      owner' := None;
    }
  }

  lemma SomeStepKeeps<T(!new)>(s: State<T>, s': State<T>, owner: Option<nat>, cap: nat)
    returns (owner': Option<nat>)
    requires InvWith(s, owner, cap) && SomeStep(s, s')
    ensures InvWith(s', owner', cap)
  {
    var t: nat :| Step(s, s', t);
    owner' := StepKeeps(s, s', t, owner, cap);
  }

  /** So it holds at every moment of every run. */
  lemma {:induction false} RunInv<T(!new)>(run: seq<State<T>>, cap: nat, i: nat) returns (owner: Option<nat>)
    requires Run(run, cap) && i < |run|
    ensures InvWith(run[i], owner, cap)
    decreases i
  {
    if i == 0 {
      InitInv(run[0], cap);
      owner := None;
    } else {
      var before := RunInv(run, cap, i - 1);
      assert SomeStep(run[i - 1], run[i]);
      owner := SomeStepKeeps(run[i - 1], run[i], before, cap);
    }
  }

  // ---- the promises ----

  /** At most one thread is between the compare-exchanges. */
  lemma MutualExclusion<T(!new)>(run: seq<State<T>>, cap: nat, i: nat, t: nat, u: nat)
    requires Run(run, cap) && i < |run|
    requires InCriticalSection(run[i].At(t)) && InCriticalSection(run[i].At(u))
    ensures t == u
  {
    var owner := RunInv(run, cap, i);
  }

  /** The releasing compare-exchange of the owner succeeds at once, whatever other threads do. */
  lemma ReleaseSucceeds<T(!new)>(run: seq<State<T>>, cap: nat, i: nat, t: nat, s': State<T>)
    requires Run(run, cap) && i < |run| && run[i].At(t).Releasing? && Release(run[i], s', t)
    ensures s'.At(t).Idle? && s'.history == run[i].history + [Event(t, run[i].At(t).op, run[i].At(t).result)]
  {
    var owner := RunInv(run, cap, i);
  }

  /** The completed operations, in the order of their releases, are a legal history of a FIFO queue with
      room for `cap`: pushes fail exactly when it is full and pops exactly when it is empty, and what was
      popped is what was pushed first. */
  lemma HistoryLegal<T(!new)>(run: seq<State<T>>, cap: nat, i: nat)
    requires Run(run, cap) && i < |run|
    ensures Replay(run[i].history, cap).Some?
    ensures PushedValues(run[i].history) == PoppedValues(run[i].history) + Replay(run[i].history, cap).value
  {
    var owner := RunInv(run, cap, i);
    FirstInFirstOut(run[i].history, cap);
  }

  /** When no operation is under way, the queue in memory is the one the history leaves. */
  lemma QuietMemory<T(!new)>(run: seq<State<T>>, cap: nat, i: nat)
    requires Run(run, cap) && i < |run| && !run[i].using
    ensures Replay(run[i].history, cap).Some? && Holds(run[i], Replay(run[i].history, cap).value, cap)
  {
    var owner := RunInv(run, cap, i);
  }

  /** Some thread can move on: the owner of the lock, or, when it is free, any thread that waits for it. */
  lemma NoDeadlock<T(!new)>(run: seq<State<T>>, cap: nat, i: nat, t: nat) returns (u: nat, s': State<T>)
    requires Run(run, cap) && i < |run| && !run[i].At(t).Idle?
    ensures Step(run[i], s', u) && s' != run[i] && !run[i].At(u).Idle?
  {
    var owner := RunInv(run, cap, i);
    u := if owner.Some? then owner.value else t;
    s' := Moved(run[i], u);
    MovedIsStep(run[i], u, owner, cap);
  }

  lemma MovedIsStep<T(!new)>(s: State<T>, u: nat, owner: Option<nat>, cap: nat)
    requires InvWith(s, owner, cap) && !s.At(u).Idle? && (owner == None || owner == Some(u))
    ensures Step(s, Moved(s, u), u) && Moved(s, u) != s
  {
    var q := Replay(s.history, cap).value;
    AdvanceIs(s.head, 0, |s.data|);
    assert Moved(s, u).At(u) != s.At(u);
  }

  /** The next state when thread `u`, in the critical section or free to enter it, moves. */
  ghost function Moved<T(!new)>(s: State<T>, u: nat): State<T> {
    match s.At(u)
    case Idle => s
    case Acquiring(op) => s.(using := true).Go(u, LoadingTail(op))
    case LoadingTail(op) => s.Go(u, LoadingHead(op, s.tail))
    case LoadingHead(Push(v), tail) =>
      if tail >= s.Size() then s
      else s.Go(u, if Bump(tail, s.Size()) == s.head then Releasing(Push(v), Full) else Storing(Push(v)))
    case LoadingHead(Pop, tail) => s.Go(u, if s.head == tail then Releasing(Pop, Empty) else Taking(Pop))
    case Storing(Push(v)) =>
      if s.tail < s.Size() then s.(data := s.data[s.tail := v]).Go(u, BumpingTail(Push(v))) else s
    case Storing(Pop) => s
    case Taking(op) => if s.head < s.Size() then s.Go(u, BumpingHead(op, s.data[s.head])) else s
    case BumpingTail(op) =>
      if s.tail < s.Size() then s.(tail := Bump(s.tail, s.Size())).Go(u, Releasing(op, Pushed)) else s
    case BumpingHead(op, taken) =>
      if s.head < s.Size() then s.(head := Bump(s.head, s.Size())).Go(u, Releasing(op, Popped(taken))) else s
    case Releasing(op, result) => s.(using := false, history := s.history + [Event(u, op, result)]).Go(u, Idle)
  }

  // ---- operations complete ----

  /** How many steps an operation takes from here at most. */
  function Remaining<T>(pc: Pc<T>): nat {
    match pc
    case Idle => 0
    case Acquiring(_) => 6
    case LoadingTail(_) => 5
    case LoadingHead(_, _) => 4
    case Storing(_) => 3
    case Taking(_) => 3
    case BumpingTail(_) => 2
    case BumpingHead(_, _) => 2
    case Releasing(_, _) => 1
  }

  ghost function Last<T(!new)>(run: seq<State<T>>): State<T>
    requires run != []
  {
    run[|run| - 1]
  }

  /** Thread `t` is inside an operation and no other holds the lock. */
  ghost predicate Free<T>(s: State<T>, t: nat) {
    !s.At(t).Idle? && (s.using ==> InCriticalSection(s.At(t)))
  }

  /** The run goes on with a step of thread `t`. */
  lemma Append<T(!new)>(run: seq<State<T>>, cap: nat, t: nat, s': State<T>)
    requires Run(run, cap) && Step(Last(run), s', t)
    ensures Run(run + [s'], cap) && Last(run + [s']) == s'
  {
    assert SomeStep(Last(run), s');
  }

  /** What one step of thread `t` leaves of its operation. */
  ghost predicate Nearer<T>(s: State<T>, s': State<T>, t: nat) {
    && Remaining(s'.At(t)) < Remaining(s.At(t))
    && if s'.At(t).Idle?
       then !s'.using && s.At(t).Releasing? && s'.history == s.history + [Event(t, s.At(t).op, s.At(t).result)]
       else Free(s', t) && s'.At(t).op == s.At(t).op && s'.history == s.history
  }

  lemma SoloStep<T(!new)>(run: seq<State<T>>, cap: nat, t: nat) returns (s': State<T>)
    requires Run(run, cap) && Free(Last(run), t)
    ensures Run(run + [s'], cap) && Last(run + [s']) == s' && Nearer(Last(run), s', t)
  {
    var s := Last(run);
    var owner := RunInv(run, cap, |run| - 1);
    s' := Moved(s, t);
    MovedIsStep(s, t, owner, cap);
    Append(run, cap, t, s');
    Progresses(s, t, owner, cap);
  }

  lemma Progresses<T(!new)>(s: State<T>, t: nat, owner: Option<nat>, cap: nat)
    requires InvWith(s, owner, cap) && Free(s, t)
    ensures Nearer(s, Moved(s, t), t)
  {}

  /** Run alone, an operation that no other keeps from the lock completes within six steps. */
  lemma {:induction false} Completes<T(!new)>(run: seq<State<T>>, cap: nat, t: nat)
    returns (run': seq<State<T>>, result: Result<T>)
    requires Run(run, cap) && Free(Last(run), t)
    ensures Run(run', cap) && |run'| <= |run| + Remaining(Last(run).At(t))
    ensures Last(run').At(t).Idle? && !Last(run').using
    ensures Last(run').history == Last(run).history + [Event(t, Last(run).At(t).op, result)]
    decreases Remaining(Last(run).At(t))
  {
    var s' := SoloStep(run, cap, t);
    if s'.At(t).Idle? {
      run', result := run + [s'], Last(run).At(t).result;
    } else {
      run', result := Completes(run + [s'], cap, t);
    }
  }

  /** Pushes in turn: the first `cap` succeed, the others find the queue full. */
  ghost function Pushes<T>(t: nat, values: seq<T>, cap: nat): (h: seq<Event<T>>)
    ensures |h| == |values|
  {
    seq(|values|, i requires 0 <= i < |values| => Event(t, Push(values[i]), if i < cap then Pushed else Full))
  }

  lemma {:induction false} ReplayPushes<T>(t: nat, values: seq<T>, cap: nat)
    ensures Replay(Pushes(t, values, cap), cap) == Some(if |values| <= cap then values else values[..cap])
    decreases |values|
  {
    if values != [] {
      var n := |values| - 1;
      ReplayPushes(t, values[..n], cap);
      assert Pushes(t, values, cap)[..n] == Pushes(t, values[..n], cap);
      assert values == values[..n] + [values[n]];
      if n >= cap { assert values[..n][..cap] == values[..cap]; }
    }
  }

  /** One more push from a quiet state. */
  lemma PushAgain<T(!new)>(run: seq<State<T>>, cap: nat, t: nat, v: T) returns (run': seq<State<T>>)
    requires Run(run, cap) && Last(run).At(t).Idle? && !Last(run).using
    ensures Run(run', cap) && Last(run').At(t).Idle? && !Last(run').using
    ensures Replay(Last(run).history, cap).Some?
    ensures var n := |Replay(Last(run).history, cap).value|;
            Last(run').history == Last(run).history + [Event(t, Push(v), if n < cap then Pushed else Full)]
  {
    var s' := Last(run).Go(t, Acquiring(Push(v)));
    assert Call(Last(run), s', t);
    Append(run, cap, t, s');
    HistoryLegal(run, cap, |run| - 1);
    var result;
    run', result := Completes(run + [s'], cap, t);
    HistoryLegal(run', cap, |run'| - 1);
    assert Last(run').history[..|Last(run).history|] == Last(run).history;
  }

  /** A new queue takes exactly `cap` values, however many are pushed: there is a run that gets there. */
  lemma {:induction false} TakesCapacity<T(!new)>(data: seq<T>, cap: nat, t: nat, values: seq<T>)
    returns (run: seq<State<T>>)
    requires |data| == cap + 1
    ensures Run(run, cap) && Last(run).At(t).Idle? && !Last(run).using
    ensures Last(run).history == Pushes(t, values, cap)
    ensures Holds(Last(run), if |values| <= cap then values else values[..cap], cap)
    decreases |values|
  {
    if values == [] {
      run := [State(false, 0, 0, data, map[], [])];
    } else {
      var n := |values| - 1;
      var before := TakesCapacity(data, cap, t, values[..n]);
      run := PushAgain(before, cap, t, values[n]);
      ReplayPushes(t, values[..n], cap);
      assert Pushes(t, values, cap) == Pushes(t, values[..n], cap) + [Pushes(t, values, cap)[n]];
    }
    ReplayPushes(t, values, cap);
    QuietMemory(run, cap, |run| - 1);
  }
}
