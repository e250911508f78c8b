/** Events: a set of flags that threads send and wait for. A 32-bit event set is the set of the
    numbers of its one bits. Every interrupt-disabled region is one step. */
module Event {
  import opened Wrappers
  import opened IpcList

  type Flags = set<nat>

  /** How a thread waits: for all or for any of the flags it wants, and whether it takes the flags
      it receives out of the event. */
  datatype Wish = Wish(want: Flags, all: bool, clear: bool)

  type Thread = Waiter<Wish>

  /** The condition of a wish on the event set `s`. */
  predicate Satisfied(w: Wish, s: Flags) {
    if w.all then w.want * s == w.want else w.want * s != {}
  }

  /** rt_event_recv on an event set that satisfies the wish: the flags received, and what stays of
      the event set. */
  function Receive(w: Wish, s: Flags): (Flags, Flags) {
    (s * w.want, if w.clear then s - w.want else s)
  }

  /** A thread woken by rt_event_send, with the flags it receives. */
  datatype Wake = Wake(thread: nat, received: Flags)

  datatype Served = Served(wakes: seq<Wake>, left: seq<Thread>, flags: Flags)

  /** Running rt_event_recv's immediate path for each waiting thread, in queue order: who is served,
      who still waits, and what stays of the event set. */
  function Serve(ws: seq<Thread>, s: Flags): (r: Served)
    ensures |r.wakes| + |r.left| == |ws|
  {
    if ws == [] then Served([], [], s)
    else if Satisfied(ws[0].info, s) then
      var (got, s1) := Receive(ws[0].info, s);
      var r := Serve(ws[1..], s1);
      Served([Wake(ws[0].thread, got)] + r.wakes, r.left, r.flags)
    else
      var r := Serve(ws[1..], s);
      Served(r.wakes, [ws[0]] + r.left, r.flags)
  }

  /** No waiting thread's condition is met. */
  ghost predicate Quiet(ws: seq<Thread>, s: Flags) {
    forall i :: 0 <= i < |ws| ==> !Satisfied(ws[i].info, s)
  }

  /** Taking flags away satisfies nobody. */
  lemma LessSatisfied(w: Wish, s: Flags, t: Flags)
    requires t <= s && !Satisfied(w, s)
    ensures !Satisfied(w, t)
  {
    assert w.want * t <= w.want * s <= w.want;
  }

  /** Serving takes flags away only, serves nobody twice, and leaves nobody whose condition is met. */
  lemma {:induction false} ServeQuiet(ws: seq<Thread>, s: Flags)
    ensures Serve(ws, s).flags <= s
    ensures Quiet(Serve(ws, s).left, Serve(ws, s).flags)
    ensures forall w :: w in Serve(ws, s).left ==> w in ws
  {
    if ws != [] {
      var w := ws[0];
      var s1 := if Satisfied(w.info, s) then Receive(w.info, s).1 else s;
      ServeQuiet(ws[1..], s1);
      if !Satisfied(w.info, s) {
        LessSatisfied(w.info, s, Serve(ws[1..], s1).flags);
      }
    }
  }

  // ---- flag by flag -----------------------------------------------------------------------------

  /** What a wish waits for: every flag, or some flag, of those it wants. */
  lemma SatisfiedIff(w: Wish, s: Flags)
    ensures w.all ==> (Satisfied(w, s) <==> forall f :: f in w.want ==> f in s)
    ensures !w.all ==> (Satisfied(w, s) <==> exists f :: f in w.want && f in s)
  {
    if w.all && Satisfied(w, s) {
      forall f | f in w.want
        ensures f in s
      {
        assert f in w.want * s;
      }
    }
    if !w.all && Satisfied(w, s) {
      var f :| f in w.want * s;
    }
    if f :| f in w.want && f in s && !w.all {
      assert f in w.want * s;
    }
  }

  /** A thread got what it was waiting for: flags that it wants, all of them or at least one. */
  ghost predicate Granted(w: Wish, got: Flags) {
    && (forall f :: f in got ==> f in w.want)
    && (if w.all then forall f :: f in w.want ==> f in got else exists f :: f in got)
  }

  /** A woken thread was waiting, and got what it was waiting for out of the flags there were. */
  ghost predicate WokenRight(ws: seq<Thread>, s: Flags, k: Wake) {
    (forall f :: f in k.received ==> f in s) && exists w :: w in ws && w.thread == k.thread && Granted(w.info, k.received)
  }

  lemma ReceiveGranted(w: Wish, s: Flags)
    requires Satisfied(w, s)
    ensures Granted(w, Receive(w, s).0) && forall f :: f in Receive(w, s).0 <==> f in s && f in w.want
    ensures forall f :: f in Receive(w, s).1 <==> f in s && !(w.clear && f in w.want)
  {
    SatisfiedIff(w, s);
    if !w.all {
      var f :| f in w.want && f in s;
      assert f in Receive(w, s).0;
    }
  }

  /** Who is served by a scan has been waiting and gets what it wants; a flag goes only if a thread that
      clears takes it; and the first thread is served first when its condition is met. */
  lemma {:induction false} ServedRight(ws: seq<Thread>, s: Flags)
    ensures forall k :: k in Serve(ws, s).wakes ==> WokenRight(ws, s, k)
    ensures forall f :: f in Serve(ws, s).flags ==> f in s
    ensures forall f :: f in s && f !in Serve(ws, s).flags ==> exists w :: w in ws && w.info.clear && f in w.info.want
    ensures ws != [] && Satisfied(ws[0].info, s) ==>
      Serve(ws, s).wakes != [] && Serve(ws, s).wakes[0] == Wake(ws[0].thread, Receive(ws[0].info, s).0)
  {
    if ws != [] {
      hide Satisfied, Receive, Granted;
      var w := ws[0];
      if Satisfied(w.info, s) { ReceiveGranted(w.info, s); }
      var s1 := if Satisfied(w.info, s) then Receive(w.info, s).1 else s;
      ServedRight(ws[1..], s1);
      forall k | k in Serve(ws[1..], s1).wakes
        ensures WokenRight(ws, s, k)
      {
        assert WokenRight(ws[1..], s1, k);
        var v :| v in ws[1..] && v.thread == k.thread && Granted(v.info, k.received);
        assert v in ws;
      }
      forall f | f in s && f !in Serve(ws, s).flags
        ensures exists v :: v in ws && v.info.clear && f in v.info.want
      {
        if f in s1 {
          var v :| v in ws[1..] && v.info.clear && f in v.info.want;
          assert v in ws;
        } else {
          assert w in ws;
        }
      }
    }
  }

  // ---- whole runs -------------------------------------------------------------------------------

  /** The event object. */
  datatype State = State(set_: Flags, waiters: seq<Thread>)

  /** What threads and timers do to it. A receiver either takes flags at once, or gives up, or is
      put on the list; a thread on the list may run out of time. */
  datatype Op = Send(flags: Flags) | Recv(thread: nat, prio: nat, wish: Wish, wait: bool) | Expire(index: nat) | Reset

  function Step(e: State, op: Op, byPrio: bool): State {
    match op
    case Send(x) =>
      if x == {} then e else var r := Serve(e.waiters, e.set_ + x); State(r.flags, r.left)
    case Recv(thread, prio, w, wait) =>
      if w.want == {} then e
      else if Satisfied(w, e.set_) then State(Receive(w, e.set_).1, e.waiters)
      else if wait then State(e.set_, Suspended(e.waiters, Waiter(thread, prio, w), byPrio))
      else e
    case Expire(i) => if i < |e.waiters| then State(e.set_, Without(e.waiters, i)) else e
    case Reset => State({}, [])
  }

  ghost predicate Calm(e: State) {
    Quiet(e.waiters, e.set_)
  }

  /** Members whose condition is not met, on a smaller event set. */
  lemma QuietLess(ws: seq<Thread>, s: Flags, t: Flags)
    requires Quiet(ws, s) && t <= s
    ensures Quiet(ws, t)
  {
    forall i | 0 <= i < |ws|
      ensures !Satisfied(ws[i].info, t)
    {
      LessSatisfied(ws[i].info, s, t);
    }
  }

  /** No step leaves a waiting thread whose condition is met. */
  lemma StepCalm(e: State, op: Op, byPrio: bool)
    requires Calm(e)
    ensures Calm(Step(e, op, byPrio))
  {
    hide Satisfied;
    match op
    case Send(x) => ServeQuiet(e.waiters, e.set_ + x);
    case Recv(thread, prio, w, wait) =>
      QuietLess(e.waiters, e.set_, Receive(w, e.set_).1);
      SuspendedMembers(e.waiters, Waiter(thread, prio, w), byPrio);
    case Expire(i) =>
    case Reset =>
  }

  function Run(e: State, ops: seq<Op>, byPrio: bool): State
    decreases |ops|
  {
    if ops == [] then e else Run(Step(e, ops[0], byPrio), ops[1..], byPrio)
  }

  /** In every state that is reached from an event without waiting threads, no thread waits for
      what the event has. */
  lemma {:induction false} RunCalm(e: State, ops: seq<Op>, byPrio: bool)
    requires Calm(e)
    ensures Calm(Run(e, ops, byPrio))
    decreases |ops|
  {
    if ops != [] {
      StepCalm(e, ops[0], byPrio);
      RunCalm(Step(e, ops[0], byPrio), ops[1..], byPrio);
    }
  }

  /** A scan has served `wakes`, has left `kept` and has `rest` to look at: together they come to
      `all`. */
  ghost predicate Goes(all: Served, wakes: seq<Wake>, kept: seq<Thread>, rest: seq<Thread>, s: Flags) {
    var r := Serve(rest, s);
    all == Served(wakes + r.wakes, kept + r.left, r.flags)
  }

  lemma GoesOn(all: Served, wakes: seq<Wake>, kept: seq<Thread>, rest: seq<Thread>, s: Flags)
    requires Goes(all, wakes, kept, rest, s) && rest != []
    ensures var w := rest[0];
      if Satisfied(w.info, s) then
        var (got, s1) := Receive(w.info, s);
        Goes(all, wakes + [Wake(w.thread, got)], kept, rest[1..], s1)
      else Goes(all, wakes, kept + [w], rest[1..], s)
  {
    hide Satisfied;
    var w := rest[0];
    var s1 := if Satisfied(w.info, s) then Receive(w.info, s).1 else s;
    var r := Serve(rest[1..], s1);
    assert wakes + ([Wake(w.thread, Receive(w.info, s).0)] + r.wakes) == wakes + [Wake(w.thread, Receive(w.info, s).0)] + r.wakes;
    assert kept + ([w] + r.left) == kept + [w] + r.left;
  }

  lemma GoesBegin(ws: seq<Thread>, s: Flags, wakes: seq<Wake>, kept: seq<Thread>)
    requires wakes == [] && kept == []
    ensures Goes(Serve(ws, s), wakes, kept, ws, s)
  {
    var r := Serve(ws, s);
    assert wakes + r.wakes == r.wakes;
    assert kept + r.left == r.left;
  }

  lemma GoesEnd(all: Served, wakes: seq<Wake>, kept: seq<Thread>, s: Flags)
    requires Goes(all, wakes, kept, [], s)
    ensures all == Served(wakes, kept, s)
  {
  }

  datatype Result = Received(flags: Flags) | Failed | TimedOut | Blocked

  class Event {
    const byPrio: bool
    var set_: Flags
    var waiters: seq<Thread>

    ghost function Now(): State
      reads this
    {
      State(set_, waiters)
    }

    constructor (byPrio: bool)
      ensures this.byPrio == byPrio && Now() == State({}, []) && Calm(Now())
    {
      this.byPrio := byPrio;
      set_, waiters := {}, [];
    }

    /** rt_event_send: one scan of the list, in which every thread that is served takes its flags
        before the next one is looked at. It is the same as running the immediate path of
        rt_event_recv for each waiting thread in turn. */
    method Send(x: Flags) returns (ok: bool, wakes: seq<Wake>)
      modifies this
      ensures ok == (x != {}) && Now() == Step(old(Now()), Op.Send(x), byPrio)
      ensures ok ==> Served(wakes, waiters, set_) == Serve(old(waiters), old(set_) + x)
      ensures !ok ==> wakes == []
      ensures forall k :: k in wakes ==> WokenRight(old(waiters), old(set_) + x, k)
      ensures ok ==> forall w :: w in waiters ==>
        if w.info.all then exists f :: f in w.info.want && f !in set_ else forall f :: f in w.info.want ==> f !in set_
      ensures forall f :: f in set_ ==> f in old(set_) || f in x
      ensures forall f :: (f in old(set_) || f in x) && f !in set_ ==> exists w :: w in old(waiters) && w.info.clear && f in w.info.want
    {
      hide Satisfied, Serve, Goes, WokenRight;
      wakes := [];
      if x == {} { return false, []; }
      ServedRight(waiters, set_ + x);
      ServeQuiet(waiters, set_ + x);
      set_ := set_ + x;
      ghost var all := Serve(waiters, set_);
      var n := 0;
      assert waiters[..n] == [] && waiters[n..] == waiters;
      GoesBegin(waiters, set_, wakes, waiters[..n]);
      while n < |waiters|
        invariant n <= |waiters| && Goes(all, wakes, waiters[..n], waiters[n..], set_)
        decreases |waiters| - n
      {
        GoesOn(all, wakes, waiters[..n], waiters[n..], set_);
        var thread := waiters[n];
        assert waiters[n..][0] == thread && waiters[n..][1..] == waiters[n + 1..];
        var status, received := Check(thread.info);
        if status {
          if thread.info.clear {
            set_ := set_ - received;
          }
          wakes := wakes + [Wake(thread.thread, received)];
          RemoveAt(waiters, n);
          waiters := Without(waiters, n);
        } else {
          assert waiters[..n] + [thread] == waiters[..n + 1];
          n := n + 1;
        }
      }
      assert waiters[n..] == [] && waiters[..n] == waiters;
      GoesEnd(all, wakes, waiters, set_);
      StillWaiting();
      ok := true;
    }

    lemma StillWaiting()
      requires Quiet(waiters, set_)
      ensures forall w :: w in waiters ==>
        if w.info.all then exists f :: f in w.info.want && f !in set_ else forall f :: f in w.info.want ==> f !in set_
    {
      hide Satisfied;
      forall w | w in waiters
        ensures if w.info.all then exists f :: f in w.info.want && f !in set_ else forall f :: f in w.info.want ==> f !in set_
      {
        SatisfiedIff(w.info, set_);
      }
    }

    /** The condition of a waiting thread, and what it receives. */
    method Check(w: Wish) returns (status: bool, received: Flags)
      ensures status == Satisfied(w, set_)
      ensures status ==> received == Receive(w, set_).0 && set_ - received == set_ - w.want
    {
      received := w.want;
      if w.all {
        status := w.want * set_ == w.want;
      } else {
        status := w.want * set_ != {};
        if status { received := w.want * set_; }
      }
    }

    /** rt_event_recv, up to the point where the thread goes to sleep: it receives when every flag, or
        some flag, that it wants is set, and takes those that are set. Flags that it does not want stay;
        those that it wants go when it clears and receives. */
    method Recv(thread: nat, prio: nat, w: Wish, timeout: int) returns (r: Result)
      modifies this
      ensures Now() == Step(old(Now()), Op.Recv(thread, prio, w, timeout != 0), byPrio)
      ensures w.want == {} ==> r == Failed
      ensures w.want != {} && w.all ==> (r.Received? <==> forall f :: f in w.want ==> f in old(set_))
      ensures w.want != {} && !w.all ==> (r.Received? <==> exists f :: f in w.want && f in old(set_))
      ensures r.Received? ==> forall f :: f in r.flags <==> f in w.want && f in old(set_)
      ensures w.want != {} && !r.Received? ==> r == if timeout == 0 then TimedOut else Blocked
      ensures forall f :: f in set_ <==> f in old(set_) && !(r.Received? && w.clear && f in w.want)
    {
      if w.want == {} { return Failed; }
      SatisfiedIff(w, set_);
      var status := if w.all then set_ * w.want == w.want else set_ * w.want != {};
      assert set_ * w.want == w.want * set_;
      if status {
        r := Received(set_ * w.want);
        if w.clear { set_ := set_ - w.want; }
      } else if timeout == 0 {
        r := TimedOut;
      } else {
        waiters := Enqueue(waiters, Waiter(thread, prio, w), byPrio);
        r := Blocked;
      }
    }
  }
}
