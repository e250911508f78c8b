/** One mutex of the priority kind, and the threads that use it. Priorities are numbers, the lower
    the more urgent; they change only because of the mutex. Every interrupt-disabled region is one
    step. */
module Mutex {
  import opened Wrappers
  import opened IpcList

  const NO_PRIORITY: nat := 0xFF

  /** A waiting thread, with the number of its arrival. */
  type Thread = Waiter<nat>

  /** The mutex and the current priorities of the threads. `hold` is a byte and wraps. `net` counts,
      for each thread, its successful takes less its releases; `clock` numbers the arrivals. */
  datatype State = State(
    value: int, hold: int, owner: Option<nat>, original: nat,
    prio: map<nat, nat>, waiters: seq<Thread>, net: map<nat, int>, clock: nat)

  function U8(n: int): (r: nat)
    ensures r < 256
  {
    n % 256
  }

  /** What threads and timers do: take, with or without waiting, release, and run out of time. */
  datatype Op = Take(thread: nat, wait: bool) | Release(thread: nat) | Expire(index: nat)

  predicate Waiting(m: State, t: nat) {
    exists i :: 0 <= i < |m.waiters| && m.waiters[i].thread == t
  }

  /** The mutex keeps priorities and counts of the threads that wait for it. */
  predicate Known(m: State) {
    && m.prio.Keys == m.net.Keys
    && (forall i :: 0 <= i < |m.waiters| ==> m.waiters[i].thread in m.prio)
    && (m.owner.Some? ==> m.owner.value in m.prio)
  }

  /** A thread that runs may take and release; a suspended one may run out of time. */
  predicate Allowed(m: State, op: Op) {
    Known(m) &&
    match op
    case Take(t, _) => t in m.prio && !Waiting(m, t)
    case Release(t) => t in m.prio && !Waiting(m, t)
    case Expire(i) => i < |m.waiters|
  }

  /** rt_mutex_take. */
  function Taken(m: State, t: nat, wait: bool): State
    requires Known(m) && t in m.prio
  {
    if m.owner == Some(t) then m.(hold := U8(m.hold + 1), net := m.net[t := m.net[t] + 1])
    else if m.value > 0 then
      m.(value := m.value - 1, owner := Some(t), original := m.prio[t], hold := U8(m.hold + 1), net := m.net[t := m.net[t] + 1])
    else if !wait then m
    else
      var p := m.prio[t];
      m.(prio := Inherited(m, p), waiters := Suspended(m.waiters, Waiter(t, p, m.clock), true), clock := m.clock + 1)
  }

  /** The owner takes over the priority `p` if that is more urgent than its own. */
  function Inherited(m: State, p: nat): map<nat, nat>
    requires Known(m)
  {
    if m.owner.Some? && p < m.prio[m.owner.value] then m.prio[m.owner.value := p] else m.prio
  }

  /** rt_mutex_release: the last one gives the owner its first priority back, and hands the mutex to
      the first waiting thread. */
  function Released(m: State, t: nat): State
    requires Known(m) && t in m.prio
  {
    if m.owner != Some(t) then m
    else
      var m1 := m.(hold := U8(m.hold - 1), net := m.net[t := m.net[t] - 1]);
      if m1.hold != 0 then m1
      else
        PassedOn(m1.(prio := m1.prio[t := m1.original]))
  }

  /** The mutex goes to the first waiting thread, or becomes free. */
  function PassedOn(m: State): State
    requires Known(m)
  {
    if m.waiters == [] then m.(value := m.value + 1, owner := None, original := NO_PRIORITY)
    else
      var w := m.waiters[0].thread;
      m.(owner := Some(w), original := m.prio[w], hold := U8(m.hold + 1), waiters := m.waiters[1..], net := m.net[w := m.net[w] + 1])
  }

  function Step(m: State, op: Op): State
    requires Allowed(m, op)
  {
    match op
    case Take(t, wait) => Taken(m, t, wait)
    case Release(t) => Released(m, t)
    case Expire(i) => m.(waiters := Without(m.waiters, i))
  }

  // ---- the invariant ----------------------------------------------------------------------------

  /** The wait list: by priority, and by arrival among equals; the threads are different, and have
      the priorities that the list is sorted by. */
  ghost predicate Queued(m: State) {
    && Sorted(m.waiters)
    && (forall i, j :: 0 <= i < j < |m.waiters| && m.waiters[i].prio == m.waiters[j].prio ==> m.waiters[i].info < m.waiters[j].info)
    && (forall i, j :: 0 <= i < j < |m.waiters| ==> m.waiters[i].thread != m.waiters[j].thread)
    && (forall i :: 0 <= i < |m.waiters| ==>
          m.waiters[i].thread in m.prio && m.waiters[i].prio == m.prio[m.waiters[i].thread] && m.waiters[i].info < m.clock)
  }

  /** What holds however deeply the owner nests. `base` are the threads' own priorities. The mutex is
      free, or it has one owner, which is at least as urgent as its own priority and as every waiting
      thread. */
  ghost predicate Sane(m: State, base: map<nat, nat>) {
    && m.prio.Keys == base.Keys && m.net.Keys == base.Keys
    && Queued(m)
    && (m.value == 1 <==> m.owner.None?) && 0 <= m.value <= 1 && 0 <= m.hold < 256
    && (m.owner.None? ==> m.waiters == [] && m.hold == 0)
    && (m.owner.Some? ==>
          && m.owner.value in base && !Waiting(m, m.owner.value)
          && m.original == base[m.owner.value]
          && m.prio[m.owner.value] <= base[m.owner.value]
          && (forall i :: 0 <= i < |m.waiters| ==> m.prio[m.owner.value] <= m.waiters[i].prio))
    && (forall t :: t in base && m.owner != Some(t) ==> m.prio[t] == base[t] && U8(m.net[t]) == 0)
    && (m.owner.Some? ==> U8(m.net[m.owner.value]) == m.hold)
  }

  /** The counts are right: the mutex is held as often as its owner has taken and not released it, and
      by nobody else. */
  ghost predicate Exact(m: State) {
    && (m.hold == 0 <==> m.owner.None?)
    && (forall t :: t in m.net && m.owner != Some(t) ==> m.net[t] == 0)
    && (m.owner.Some? && m.owner.value in m.net ==> m.net[m.owner.value] == m.hold)
  }

  ghost predicate Inv(m: State, base: map<nat, nat>) {
    Sane(m, base) && Exact(m)
  }

  /** The owner does not take the mutex when it holds it 255 times. */
  predicate NotTooDeep(m: State, op: Op) {
    op.Take? && m.owner == Some(op.thread) ==> m.hold < 255
  }

  /** One step keeps the counts right if and only if the owner does not nest too deeply. */
  lemma StepExact(m: State, base: map<nat, nat>, op: Op)
    requires Inv(m, base) && Allowed(m, op)
    ensures Exact(Step(m, op)) <==> NotTooDeep(m, op)
  {
    if op.Release? && m.waiters != [] {
      assert Waiting(m, m.waiters[0].thread);
    }
  }

  lemma TakenSane(m: State, base: map<nat, nat>, t: nat, wait: bool)
    requires Sane(m, base) && Allowed(m, Take(t, wait))
    ensures Sane(Taken(m, t, wait), base)
  {
    if m.owner != Some(t) && m.value <= 0 && wait {
      SuspendedSane(m, base, t);
    }
  }

  /** A thread that joins the list stands behind all that are as urgent, and the owner becomes at
      least as urgent as it. */
  lemma SuspendedSane(m: State, base: map<nat, nat>, t: nat)
    requires Sane(m, base) && Allowed(m, Take(t, true)) && m.owner.Some? && m.owner != Some(t)
    ensures Sane(Taken(m, t, true), base)
  {
    hide Sorted;
    var m', o, p := Taken(m, t, true), m.owner.value, m.prio[t];
    var x, k := Waiter(t, p, m.clock), Place(m.waiters, p, true);
    SuspendedSorted(m.waiters, x);
    assert m'.waiters == m.waiters[..k] + [x] + m.waiters[k..];
    forall i | 0 <= i < |m.waiters|
      ensures m.waiters[i].thread != o
      ensures k <= i ==> p < m.waiters[i].prio
    {
      assert Waiting(m, m.waiters[i].thread);
      assert k <= i ==> m'.waiters[i + 1] == m.waiters[i];
    }
    JoinedQueue(m, m', x, k);
  }

  lemma JoinedQueue(m: State, m': State, x: Thread, k: nat)
    requires Queued(m) && k <= |m.waiters| && m'.waiters == m.waiters[..k] + [x] + m.waiters[k..] && Sorted(m'.waiters)
    requires forall i :: k <= i < |m.waiters| ==> x.prio < m.waiters[i].prio
    requires x.info == m.clock && m'.clock == m.clock + 1 && !Waiting(m, x.thread)
    requires x.thread in m'.prio && x.prio == m'.prio[x.thread]
    requires forall i :: 0 <= i < |m.waiters| ==> m.waiters[i].thread in m'.prio && m'.prio[m.waiters[i].thread] == m.waiters[i].prio
    ensures Queued(m')
    ensures forall t :: Waiting(m', t) ==> Waiting(m, t) || t == x.thread
  {
    hide Sorted;
    var xs, ys := m.waiters, m'.waiters;
    JoinedAt(xs, ys, x, k);
    forall i | 0 <= i < |xs|
      ensures xs[i].thread != x.thread
    {
      assert !Waiting(m, x.thread);
    }
    forall i, j | 0 <= i < j < |ys|
      ensures ys[i].thread != ys[j].thread
      ensures ys[i].prio == ys[j].prio ==> ys[i].info < ys[j].info
    {
      JoinedPair(m, x, k, ys, i, j);
    }
    forall t | Waiting(m', t)
      ensures Waiting(m, t) || t == x.thread
    {
      var i :| 0 <= i < |ys| && ys[i].thread == t;
      if i < k { assert xs[i].thread == t; }
      if i > k { assert xs[i - 1].thread == t; }
    }
  }

  lemma JoinedAt(xs: seq<Thread>, ys: seq<Thread>, x: Thread, k: nat)
    requires k <= |xs| && ys == xs[..k] + [x] + xs[k..]
    ensures |ys| == |xs| + 1
    ensures forall i :: 0 <= i < |ys| ==> ys[i] == if i < k then xs[i] else if i == k then x else xs[i - 1]
  {
  }

  lemma JoinedPair(m: State, x: Thread, k: nat, ys: seq<Thread>, i: nat, j: nat)
    requires Queued(m) && k <= |m.waiters| && |ys| == |m.waiters| + 1 && i < j < |ys|
    requires forall l :: k <= l < |m.waiters| ==> x.prio < m.waiters[l].prio
    requires forall l :: 0 <= l < |m.waiters| ==> m.waiters[l].thread != x.thread
    requires x.info == m.clock
    requires ys == m.waiters[..k] + [x] + m.waiters[k..]
    ensures ys[i].thread != ys[j].thread
    ensures ys[i].prio == ys[j].prio ==> ys[i].info < ys[j].info
  {
    hide Sorted;
    if i == k {
      assert ys[j] == m.waiters[j - 1];
    } else if j == k {
      assert ys[i] == m.waiters[i];
    } else {
      var i', j' := if i < k then i else i - 1, if j < k then j else j - 1;
      assert i' < j' && ys[i] == m.waiters[i'] && ys[j] == m.waiters[j'];
    }
  }

  lemma ReleasedSane(m: State, base: map<nat, nat>, t: nat)
    requires Sane(m, base) && Allowed(m, Release(t))
    ensures Sane(Released(m, t), base)
  {
    if m.owner == Some(t) {
      if m.hold != 1 {
        StillHeld(m, base, t);
      } else if m.waiters == [] {
        Freed(m, base, t);
      } else {
        HandedOver(m, base, t);
      }
    }
  }

  lemma StillHeld(m: State, base: map<nat, nat>, t: nat)
    requires Sane(m, base) && Allowed(m, Release(t)) && m.owner == Some(t) && m.hold != 1
    ensures Sane(Released(m, t), base)
  {
    hide Queued;
    assert Released(m, t) == m.(hold := U8(m.hold - 1), net := m.net[t := m.net[t] - 1]);
    assert Queued(m) ==> Queued(Released(m, t)) by { SameQueue(m, Released(m, t)); }
  }

  lemma SameQueue(m: State, m': State)
    requires m'.waiters == m.waiters && m'.prio == m.prio && m'.clock == m.clock
    ensures Queued(m) ==> Queued(m')
    ensures forall t :: Waiting(m', t) <==> Waiting(m, t)
  {
  }

  lemma Freed(m: State, base: map<nat, nat>, t: nat)
    requires Sane(m, base) && Allowed(m, Release(t)) && m.owner == Some(t) && m.hold == 1 && m.waiters == []
    ensures Sane(Released(m, t), base)
  {
  }

  lemma HandedOver(m: State, base: map<nat, nat>, t: nat)
    requires Sane(m, base) && Allowed(m, Release(t)) && m.owner == Some(t) && m.hold == 1 && m.waiters != []
    ensures Sane(Released(m, t), base)
  {
    var w := m.waiters[0].thread;
    assert Waiting(m, w);
    FirstServed(m, Released(m, t), t);
    hide Queued;
  }

  /** The list without its first thread; thread `t`, which is not in it, may have got another priority. */
  lemma FirstServed(m: State, m': State, t: nat)
    requires Queued(m) && m.waiters != [] && m'.waiters == m.waiters[1..] && m'.clock == m.clock
    requires !Waiting(m, t) && t in m.prio && t in m'.prio && m'.prio == m.prio[t := m'.prio[t]]
    ensures Queued(m') && !Waiting(m', m.waiters[0].thread) && forall s :: Waiting(m', s) ==> Waiting(m, s)
  {
    assert forall i :: 0 <= i < |m'.waiters| ==> m'.waiters[i] == m.waiters[i + 1];
  }

  lemma ExpiredSane(m: State, base: map<nat, nat>, i: nat)
    requires Sane(m, base) && Allowed(m, Expire(i))
    ensures Sane(Step(m, Expire(i)), base)
  {
    hide Sorted, Queued, Without;
    var m' := Step(m, Expire(i));
    Thinned(m, i);
  }

  /** The list stays in order when a thread leaves it. */
  lemma Thinned(m: State, i: nat)
    requires Queued(m) && i < |m.waiters|
    ensures Queued(m.(waiters := Without(m.waiters, i)))
    ensures forall t :: Waiting(m.(waiters := Without(m.waiters, i)), t) ==> Waiting(m, t)
    ensures forall j :: 0 <= j < |m.waiters| - 1 ==>
      Without(m.waiters, i)[j] == m.waiters[if j < i then j else j + 1]
  {
    hide Sorted;
    WithoutSorted(m.waiters, i);
    var xs, ys := m.waiters, Without(m.waiters, i);
    forall j | 0 <= j < |ys|
      ensures ys[j] == xs[if j < i then j else j + 1]
    {
    }
    forall t | Waiting(m.(waiters := ys), t)
      ensures Waiting(m, t)
    {
      var j :| 0 <= j < |ys| && ys[j].thread == t;
      assert xs[if j < i then j else j + 1].thread == t;
    }
  }

  lemma StepSane(m: State, base: map<nat, nat>, op: Op)
    requires Sane(m, base) && Allowed(m, op)
    ensures Sane(Step(m, op), base)
  {
    match op
    case Take(t, wait) => TakenSane(m, base, t, wait);
    case Release(t) => ReleasedSane(m, base, t);
    case Expire(i) => ExpiredSane(m, base, i);
  }

  // ---- whole runs -------------------------------------------------------------------------------

  /** Every operation is one that its thread can do at that time. */
  predicate AllAllowed(m: State, ops: seq<Op>)
    decreases |ops|
  {
    ops == [] || (Allowed(m, ops[0]) && AllAllowed(Step(m, ops[0]), ops[1..]))
  }

  function Run(m: State, ops: seq<Op>): State
    requires AllAllowed(m, ops)
    decreases |ops|
  {
    if ops == [] then m else Run(Step(m, ops[0]), ops[1..])
  }

  /** A mutex as it is initialized, among threads with the priorities `base`. */
  function Initial(base: map<nat, nat>): State {
    State(1, 0, None, NO_PRIORITY, base, [], map t | t in base :: 0, 0)
  }

  lemma {:induction false} RunSane(m: State, base: map<nat, nat>, ops: seq<Op>)
    requires Sane(m, base) && AllAllowed(m, ops)
    ensures Sane(Run(m, ops), base)
    decreases |ops|
  {
    if ops != [] {
      StepSane(m, base, ops[0]);
      RunSane(Step(m, ops[0]), base, ops[1..]);
    }
  }

  /** The counts are right in every state of the run. */
  ghost predicate AlwaysExact(m: State, ops: seq<Op>)
    requires AllAllowed(m, ops)
    decreases |ops|
  {
    Exact(m) && (ops == [] || AlwaysExact(Step(m, ops[0]), ops[1..]))
  }

  /** No owner nests too deeply in the run. */
  predicate NeverTooDeep(m: State, ops: seq<Op>)
    requires AllAllowed(m, ops)
    decreases |ops|
  {
    ops == [] || (NotTooDeep(m, ops[0]) && NeverTooDeep(Step(m, ops[0]), ops[1..]))
  }

  lemma {:induction false} RunExact(m: State, base: map<nat, nat>, ops: seq<Op>)
    requires Inv(m, base) && AllAllowed(m, ops)
    ensures AlwaysExact(m, ops) <==> NeverTooDeep(m, ops)
    ensures NeverTooDeep(m, ops) ==> Inv(Run(m, ops), base)
    decreases |ops|
  {
    if ops != [] {
      var m' := Step(m, ops[0]);
      StepSane(m, base, ops[0]);
      StepExact(m, base, ops[0]);
      if NotTooDeep(m, ops[0]) {
        RunExact(m', base, ops[1..]);
      } else {
        assert !AlwaysExact(m', ops[1..]);
      }
    }
  }

  /** In every run the mutex has at most one owner, a sorted wait list and an owner as urgent as its
      waiters. Its counts are right throughout if and only if no owner takes it with 255 holds. */
  lemma Reachable(base: map<nat, nat>, ops: seq<Op>)
    requires AllAllowed(Initial(base), ops)
    ensures Sane(Run(Initial(base), ops), base)
    ensures AlwaysExact(Initial(base), ops) <==> NeverTooDeep(Initial(base), ops)
    ensures NeverTooDeep(Initial(base), ops) ==> Inv(Run(Initial(base), ops), base)
  {
    assert Inv(Initial(base), base);
    RunSane(Initial(base), base, ops);
    RunExact(Initial(base), base, ops);
  }

  /** The release that brings the count to 0 gives the owner its own priority back, and the mutex to the
      most urgent waiting thread, the earliest of the equally urgent; nobody waits for a free mutex. */
  lemma LastRelease(m: State, base: map<nat, nat>, t: nat)
    requires Sane(m, base) && Allowed(m, Release(t)) && m.owner == Some(t) && m.hold == 1
    ensures var m' := Released(m, t);
      && m'.prio[t] == base[t] && m'.net[t] == m.net[t] - 1
      && (m.waiters == [] ==> m'.owner == None && m'.value == 1)
      && (m.waiters != [] ==> m'.owner == Some(m.waiters[0].thread) && m'.waiters == m.waiters[1..])
    ensures Exact(m) ==> Released(m, t).net[t] == 0
    ensures forall i :: 0 < i < |m.waiters| ==>
      m.waiters[0].prio < m.waiters[i].prio || (m.waiters[0].prio == m.waiters[i].prio && m.waiters[0].info < m.waiters[i].info)
  {
    ReleasedSane(m, base, t);
    if m.waiters != [] {
      assert Waiting(m, m.waiters[0].thread);
    }
  }

  // ---- nesting too deeply -----------------------------------------------------------------------

  function Repeated(op: Op, n: nat): (ops: seq<Op>) {
    if n == 0 then [] else [op] + Repeated(op, n - 1)
  }

  lemma TakenAgain(m: State, t: nat)
    requires Known(m) && t in m.prio && m.owner == Some(t) && !Waiting(m, t)
    ensures Allowed(m, Take(t, false))
    ensures var m' := Step(m, Take(t, false));
      m' == m.(hold := U8(m.hold + 1), net := m.net[t := m.net[t] + 1]) && Known(m') && !Waiting(m', t)
  {
    if Waiting(Step(m, Take(t, false)), t) {
      assert Waiting(m, t);
    }
  }

  /** The owner takes the mutex `n` times more. */
  lemma {:induction false} Nested(m: State, t: nat, n: nat)
    requires Known(m) && t in m.prio && m.owner == Some(t) && !Waiting(m, t)
    ensures AllAllowed(m, Repeated(Take(t, false), n))
    ensures var m' := Run(m, Repeated(Take(t, false), n));
      m' == m.(hold := m'.hold, net := m.net[t := m.net[t] + n]) && U8(m'.hold) == U8(m.hold + n) && (n > 0 ==> m'.hold == U8(m.hold + n))
    decreases n
  {
    hide Released, PassedOn, Taken;
    var ops := Repeated(Take(t, false), n);
    if n > 0 {
      assert ops[0] == Take(t, false) && ops[1..] == Repeated(Take(t, false), n - 1);
      TakenAgain(m, t);
      hide Step, Known, Waiting, Allowed;
      var m' := Step(m, ops[0]);
      Nested(m', t, n - 1);
      assert m'.net[t := m'.net[t] + (n - 1)] == m.net[t := m.net[t] + n];
    } else {
      assert m.net == m.net[t := m.net[t]];
    }
  }

  /** A free mutex that is taken 256 times has an owner and no holds. */
  lemma TooDeep(base: map<nat, nat>, t: nat)
    requires t in base
    ensures AllAllowed(Initial(base), Repeated(Take(t, false), 256))
    ensures var m := Run(Initial(base), Repeated(Take(t, false), 256));
      m.owner == Some(t) && m.hold == 0 && t in m.net && m.net[t] == 256
  {
    var op, m0 := Take(t, false), Initial(base);
    var m1 := Step(m0, op);
    assert Repeated(op, 256) == [op] + Repeated(op, 255);
    assert Repeated(op, 256)[1..] == Repeated(op, 255);
    assert !Waiting(m0, t) && !Waiting(m1, t);
    Nested(m1, t, 255);
  }

  /** When the owner `t` takes the mutex 257 times while `u` waits, one release hands it to `u`. */
  lemma TooEarly(base: map<nat, nat>, t: nat, u: nat) returns (m: State, m': State)
    requires t in base && u in base && t != u
    ensures Allowed(Initial(base), Take(t, false)) && Allowed(Step(Initial(base), Take(t, false)), Take(u, true))
    ensures m == Step(Step(Initial(base), Take(t, false)), Take(u, true))
    ensures AllAllowed(m, Repeated(Take(t, false), 256)) && m' == Run(m, Repeated(Take(t, false), 256))
    ensures Allowed(m', Release(t)) && Step(m', Release(t)).owner == Some(u)
    ensures t in m'.net && m'.net[t] == 257 && Step(m', Release(t)).net[t] == 256
  {
    var m0 := Initial(base);
    var m1 := Step(m0, Take(t, false));
    assert !Waiting(m0, t) && !Waiting(m1, u);
    m := Step(m1, Take(u, true));
    assert m.waiters == [Waiter(u, base[u], 0)];
    assert !Waiting(m, t);
    Nested(m, t, 256);
    m' := Run(m, Repeated(Take(t, false), 256));
    assert m'.waiters == m.waiters && m'.hold == 1 && !Waiting(m', t);
  }

  // ---- the object -------------------------------------------------------------------------------

  datatype Result = Ok | TimedOut | Blocked | Failed

  class Mutex {
    var value: int
    var hold: int
    var owner: Option<nat>
    var originalPriority: nat
    var waiters: seq<Thread>
    /** The current priorities of the threads. */
    var priority: map<nat, nat>
    ghost var net: map<nat, int>
    var clock: nat

    ghost function Now(): State
      reads this
    {
      State(value, hold, owner, originalPriority, priority, waiters, net, clock)
    }

    constructor (priority: map<nat, nat>)
      ensures Now() == Initial(priority)
    {
      value, hold, owner, originalPriority := 1, 0, None, NO_PRIORITY;
      waiters, clock := [], 0;
      this.priority := priority;
      net := map t | t in priority :: 0;
    }

    /** rt_mutex_take by thread `t`, up to the point where it goes to sleep. */
    method Take(t: nat, time: int) returns (r: Result)
      requires Allowed(Now(), Op.Take(t, time != 0)) && (owner.None? ==> value > 0)
      modifies this
      ensures Now() == Step(old(Now()), Op.Take(t, time != 0))
      ensures r == if old(owner) == Some(t) || old(value) > 0 then Ok else if time == 0 then TimedOut else Blocked
    {
      r := Ok;
      if owner == Some(t) {
        hold := U8(hold + 1);
        net := net[t := net[t] + 1];
      } else if value > 0 {
        value := value - 1;
        owner := Some(t);
        originalPriority := priority[t];
        hold := U8(hold + 1);
        net := net[t := net[t] + 1];
      } else if time == 0 {
        r := TimedOut;
      } else {
        var p := priority[t];
        if p < priority[owner.value] {
          priority := priority[owner.value := p];
        }
        waiters := Enqueue(waiters, Waiter(t, p, clock), true);
        clock := clock + 1;
        r := Blocked;
      }
    }

    /** rt_mutex_release by thread `t`. */
    method Release(t: nat) returns (r: Result)
      requires Allowed(Now(), Op.Release(t))
      modifies this
      ensures Now() == Step(old(Now()), Op.Release(t))
      ensures r == if old(owner) == Some(t) then Ok else Failed
    {
      if owner != Some(t) { return Failed; }
      r := Ok;
      hold := U8(hold - 1);
      net := net[t := net[t] - 1];
      if hold == 0 {
        if originalPriority != priority[t] {
          priority := priority[t := originalPriority];
        }
        assert priority == old(priority)[t := originalPriority];
        PassOn();
      }
    }

    /** Gives the mutex to the first waiting thread, or makes it free. */
    method PassOn()
      requires Known(Now())
      modifies this
      ensures Now() == PassedOn(old(Now()))
    {
      if waiters != [] {
        var w := waiters[0].thread;
        owner := Some(w);
        originalPriority := priority[w];
        hold := U8(hold + 1);
        waiters := waiters[1..];
        net := net[w := net[w] + 1];
      } else {
        value := value + 1;
        owner := None;
        originalPriority := NO_PRIORITY;
      }
    }

    /** The timer of the `i`-th waiting thread runs out: it leaves the list. The owner keeps the
        priority that it took over. */
    method Expire(i: nat)
      requires Allowed(Now(), Op.Expire(i))
      modifies this
      ensures Now() == Step(old(Now()), Op.Expire(i))
    {
      waiters := waiters[..i] + waiters[i + 1..];
    }
  }
}
