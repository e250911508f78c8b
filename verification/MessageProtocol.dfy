/** What a message queue does, seen from outside: messages wait in a sequence, and a thread that is
    copying a message in or out holds a slot of its own meanwhile. Each interrupt-disabled region is
    one step, and so is each byte of a copy; the steps of different threads mix in any order. */
module MessageProtocol {
  import opened Bytes
  import opened IpcList

  /** `stamp` counts the messages that were linked into the queue before. */
  datatype Message = Message(payload: seq<Byte>, urgent: bool, stamp: nat)

  /** What a thread does with the slot it holds. A sender first clears the link of the slot, except
      for an urgent message, and then copies its message in; a receiver copies `want` bytes out. */
  datatype Held =
    | Filling(payload: seq<Byte>, urgent: bool, cleared: bool, done: nat)
    | Emptying(message: Message, want: nat, done: nat)

  type Thread = Waiter<()>

  /** `messages` waits to be received, first one first, and `free` slots are unused. `linked` are the
      messages that have been put into the queue, in order of time; `taken` those that have been
      taken out by a receiver, `dropped` those that a reset threw away. `finished` are the messages
      whose receivers have returned, with the number of bytes they asked for. `woken` are the
      receivers that have been woken and have not run yet. */
  datatype State = State(
    slots: nat, size: nat, byPrio: bool,
    messages: seq<Message>, free: nat, held: map<nat, Held>,
    waiters: seq<Thread>, woken: multiset<nat>,
    linked: seq<Message>, taken: seq<Message>, dropped: multiset<Message>, finished: seq<Finish>)

  datatype Finish = Finish(message: Message, want: nat)

  /** What threads and timers do. `SendBegin` and `SendEnd` are the two regions of a send, and
      `RecvBegin` and `RecvEnd` those of a receive; `RecvBegin` is repeated after each wake-up.
      `Copy` is the next thing a thread does between its two regions. */
  datatype Op =
    | SendBegin(thread: nat, payload: seq<Byte>, urgent: bool)
    | SendEnd(thread: nat)
    | RecvBegin(thread: nat, prio: nat, length: nat, wait: bool)
    | RecvEnd(thread: nat)
    | Copy(thread: nat)
    | Expire(index: nat)
    | Reset

  predicate Complete(h: Held) {
    match h
    case Filling(payload, _, cleared, done) => cleared && done == |payload|
    case Emptying(_, want, done) => done == want
  }

  /** A thread does one send or receive at a time, and ends it when everything is copied. */
  predicate Enabled(s: State, op: Op) {
    match op
    case SendBegin(t, _, _) => t !in s.held
    case RecvBegin(t, _, _, _) => t !in s.held
    case SendEnd(t) => t in s.held && s.held[t].Filling? && Complete(s.held[t])
    case RecvEnd(t) => t in s.held && s.held[t].Emptying? && Complete(s.held[t])
    case Copy(t) => t in s.held && !Complete(s.held[t])
    case Expire(i) => i < |s.waiters|
    case Reset => true
  }

  function Copied(h: Held): Held
    requires !Complete(h)
  {
    match h
    case Filling(payload, urgent, cleared, done) => Filling(payload, urgent, true, if cleared then done + 1 else done)
    case Emptying(message, want, done) => Emptying(message, want, done + 1)
  }

  /** A message that does not fit into a slot, or finds none, changes nothing. */
  function Begun(s: State, t: nat, payload: seq<Byte>, urgent: bool): State {
    if |payload| > s.size || s.free == 0 then s
    else s.(free := s.free - 1, held := s.held[t := Filling(payload, urgent, urgent, 0)])
  }

  function LinkedIn(s: State, t: nat): State
    requires Enabled(s, SendEnd(t))
  {
    var h := s.held[t];
    var m := Message(h.payload, h.urgent, |s.linked|);
    s.(held := s.held - {t}, linked := s.linked + [m],
       messages := if h.urgent then [m] + s.messages else s.messages + [m],
       waiters := if s.waiters == [] then [] else s.waiters[1..],
       woken := s.woken + if s.waiters == [] then multiset{} else multiset{s.waiters[0].thread})
  }

  function Received(s: State, t: nat, prio: nat, length: nat, wait: bool): State {
    var w := s.woken - multiset{t};
    if s.messages == [] then
      s.(woken := w, waiters := if wait then Suspended(s.waiters, Waiter(t, prio, ()), s.byPrio) else s.waiters)
    else
      s.(woken := w, messages := s.messages[1..], taken := s.taken + [s.messages[0]],
         held := s.held[t := Emptying(s.messages[0], if length > s.size then s.size else length, 0)])
  }

  function Returned(s: State, t: nat): State
    requires Enabled(s, RecvEnd(t))
  {
    var h := s.held[t];
    s.(held := s.held - {t}, free := s.free + 1, finished := s.finished + [Finish(h.message, h.want)])
  }

  function Emptied(s: State): State {
    s.(messages := [], free := s.free + |s.messages|, waiters := [], dropped := s.dropped + multiset(s.messages))
  }

  /** What is not enabled does not happen. */
  function Step(s: State, op: Op): State {
    if !Enabled(s, op) then s else
    match op
    case SendBegin(t, payload, urgent) => Begun(s, t, payload, urgent)
    case SendEnd(t) => LinkedIn(s, t)
    case RecvBegin(t, prio, length, wait) => Received(s, t, prio, length, wait)
    case RecvEnd(t) => Returned(s, t)
    case Copy(t) => s.(held := s.held[t := Copied(s.held[t])])
    case Expire(i) => s.(waiters := Without(s.waiters, i))
    case Reset => Emptied(s)
  }

  /** Urgent messages stand in front, the latest one first; behind them the others, the earliest one
      first. */
  ghost predicate Before(a: Message, b: Message) {
    if a.urgent then b.urgent ==> b.stamp < a.stamp
    else !b.urgent && a.stamp < b.stamp
  }

  ghost predicate Ordered(ms: seq<Message>) {
    forall i, j :: 0 <= i < j < |ms| ==> Before(ms[i], ms[j])
  }

  /** No slot is lost; no message waits while a receiver sleeps, except for receivers that have been
      woken and have not run yet; messages wait in order; and each message that was put in has been
      taken out once, or was dropped once, or still waits. */
  ghost predicate Inv(s: State) {
    && |s.messages| + s.free + |s.held| == s.slots
    && (s.waiters != [] ==> |s.messages| <= |s.woken|)
    && Ordered(s.messages)
    && Stamped(s.linked, s.messages)
    && Accounted(s.linked, s.taken, s.messages, s.dropped)
    && AllTaken(s.held, s.finished, s.taken)
  }

  ghost predicate Stamped(linked: seq<Message>, messages: seq<Message>) {
    && (forall k :: 0 <= k < |linked| ==> linked[k].stamp == k)
    && (forall k :: 0 <= k < |messages| ==> messages[k].stamp < |linked|)
  }

  ghost predicate Accounted(linked: seq<Message>, taken: seq<Message>, messages: seq<Message>, dropped: multiset<Message>) {
    multiset(linked) == multiset(taken) + multiset(messages) + dropped
  }

  ghost predicate AllTaken(held: map<nat, Held>, finished: seq<Finish>, taken: seq<Message>) {
    && (forall k :: 0 <= k < |finished| ==> finished[k].message in taken)
    && (forall t :: t in held && held[t].Emptying? ==> held[t].message in taken)
  }

  lemma FrontLinked(linked: seq<Message>, taken: seq<Message>, messages: seq<Message>, dropped: multiset<Message>, m: Message)
    requires Ordered(messages) && Stamped(linked, messages) && Accounted(linked, taken, messages, dropped)
    requires m.urgent && m.stamp == |linked|
    ensures Ordered([m] + messages) && Stamped(linked + [m], [m] + messages)
    ensures Accounted(linked + [m], taken, [m] + messages, dropped)
  {
    assert multiset([m] + messages) == multiset{m} + multiset(messages);
    assert multiset(linked + [m]) == multiset(linked) + multiset{m};
  }

  lemma BackLinked(linked: seq<Message>, taken: seq<Message>, messages: seq<Message>, dropped: multiset<Message>, m: Message)
    requires Ordered(messages) && Stamped(linked, messages) && Accounted(linked, taken, messages, dropped)
    requires !m.urgent && m.stamp == |linked|
    ensures Ordered(messages + [m]) && Stamped(linked + [m], messages + [m])
    ensures Accounted(linked + [m], taken, messages + [m], dropped)
  {
    assert multiset(linked + [m]) == multiset(linked) + multiset{m};
  }

  lemma FirstTaken(linked: seq<Message>, taken: seq<Message>, messages: seq<Message>, dropped: multiset<Message>)
    requires Ordered(messages) && Stamped(linked, messages) && Accounted(linked, taken, messages, dropped)
    requires messages != []
    ensures Ordered(messages[1..]) && Stamped(linked, messages[1..])
    ensures Accounted(linked, taken + [messages[0]], messages[1..], dropped)
  {
    assert messages == [messages[0]] + messages[1..];
    assert multiset(messages) == multiset{messages[0]} + multiset(messages[1..]);
    assert multiset(taken + [messages[0]]) == multiset(taken) + multiset{messages[0]};
  }

  lemma AlsoTaken(held: map<nat, Held>, finished: seq<Finish>, taken: seq<Message>, t: nat, h: Held)
    requires AllTaken(held, finished, taken) && h.Emptying?
    ensures AllTaken(held[t := h], finished, taken + [h.message])
  {
    assert (taken + [h.message])[|taken|] == h.message;
  }

  lemma LinkedInInv(s: State, t: nat)
    requires Inv(s) && Enabled(s, SendEnd(t))
    ensures Inv(LinkedIn(s, t))
  {
    hide Ordered, Stamped, Accounted;
    var h := s.held[t];
    var m := Message(h.payload, h.urgent, |s.linked|);
    HeldLess(s.held, t);
    if h.urgent {
      FrontLinked(s.linked, s.taken, s.messages, s.dropped, m);
    } else {
      BackLinked(s.linked, s.taken, s.messages, s.dropped, m);
    }
  }

  lemma HeldLess(held: map<nat, Held>, t: nat)
    requires t in held
    ensures |held| == |held - {t}| + 1
  {
    assert held == (held - {t})[t := held[t]];
  }

  lemma ReceivedInv(s: State, t: nat, prio: nat, length: nat, wait: bool)
    requires Inv(s) && t !in s.held
    ensures Inv(Received(s, t, prio, length, wait))
  {
    hide Suspended, Ordered, Stamped, Accounted, AllTaken;
    assert |s.woken - multiset{t}| >= |s.woken| - 1;
    if s.messages != [] {
      FirstTaken(s.linked, s.taken, s.messages, s.dropped);
      AlsoTaken(s.held, s.finished, s.taken, t,
        Emptying(s.messages[0], if length > s.size then s.size else length, 0));
    }
  }

  lemma ReturnedInv(s: State, t: nat)
    requires Inv(s) && Enabled(s, RecvEnd(t))
    ensures Inv(Returned(s, t))
  {
    hide Ordered, Stamped, Accounted;
    HeldLess(s.held, t);
  }

  lemma StepInv(s: State, op: Op)
    requires Inv(s)
    ensures Inv(Step(s, op))
  {
    hide LinkedIn, Received, Returned;
    if Enabled(s, op) {
      match op
      case SendBegin(t, payload, urgent) =>
      case SendEnd(t) => LinkedInInv(s, t);
      case RecvBegin(t, prio, length, wait) => ReceivedInv(s, t, prio, length, wait);
      case RecvEnd(t) => ReturnedInv(s, t);
      case Copy(t) => assert |s.held[t := Copied(s.held[t])]| == |s.held|;
      case Expire(i) =>
      case Reset =>
    }
  }

  function Run(s: State, ops: seq<Op>): State {
    if ops == [] then s else Step(Run(s, ops[..|ops| - 1]), ops[|ops| - 1])
  }

  lemma {:induction false} RunInv(s: State, ops: seq<Op>)
    requires Inv(s)
    ensures Inv(Run(s, ops))
  {
    if ops != [] {
      RunInv(s, ops[..|ops| - 1]);
      StepInv(Run(s, ops[..|ops| - 1]), ops[|ops| - 1]);
    }
  }

  function Initial(slots: nat, size: nat, byPrio: bool): State {
    State(slots, size, byPrio, [], slots, map[], [], multiset{}, [], [], multiset{}, [])
  }

  /** What holds after any interleaving. */
  lemma Reachable(slots: nat, size: nat, byPrio: bool, ops: seq<Op>)
    ensures var s := Run(Initial(slots, size, byPrio), ops);
      && Inv(s) && (s.woken == multiset{} && s.waiters != [] ==> s.messages == [])
  {
    RunInv(Initial(slots, size, byPrio), ops);
  }

  /** Nothing is urgent and there are no resets. */
  ghost predicate Plain(op: Op) {
    (op.SendBegin? ==> !op.urgent) && op != Reset
  }

  ghost predicate Fifo(s: State) {
    s.linked == s.taken + s.messages && forall t :: t in s.held && s.held[t].Filling? ==> !s.held[t].urgent
  }

  /** Without urgent messages and resets the messages are taken in the order in which they were put
      in. */
  lemma {:induction false} InOrder(slots: nat, size: nat, byPrio: bool, ops: seq<Op>)
    requires forall op :: op in ops ==> Plain(op)
    ensures Fifo(Run(Initial(slots, size, byPrio), ops))
  {
    if ops != [] {
      var s, op := Run(Initial(slots, size, byPrio), ops[..|ops| - 1]), ops[|ops| - 1];
      InOrder(slots, size, byPrio, ops[..|ops| - 1]);
      assert Plain(op);
      FifoStep(s, op);
    }
  }

  lemma FifoStep(s: State, op: Op)
    requires Fifo(s) && Plain(op)
    ensures Fifo(Step(s, op))
  {
    hide LinkedIn, Received, Suspended;
    if op.SendEnd? && Enabled(s, op) {
      FifoLinked(s, op.thread);
    }
    if op.RecvBegin? && Enabled(s, op) {
      FifoReceived(s, op.thread, op.prio, op.length, op.wait);
    }
  }

  lemma FifoLinked(s: State, t: nat)
    requires Fifo(s) && Enabled(s, SendEnd(t))
    ensures Fifo(LinkedIn(s, t))
  {
    var m := Message(s.held[t].payload, false, |s.linked|);
    assert s.taken + (s.messages + [m]) == s.taken + s.messages + [m];
  }

  lemma FifoReceived(s: State, t: nat, prio: nat, length: nat, wait: bool)
    requires Fifo(s) && t !in s.held
    ensures Fifo(Received(s, t, prio, length, wait))
  {
    hide Suspended;
    if s.messages != [] {
      assert s.messages == [s.messages[0]] + s.messages[1..];
      assert s.taken + s.messages == s.taken + [s.messages[0]] + s.messages[1..];
    }
  }

  // ---- a send and a receive from beginning to end ---------------------------------------------------------

  /** How often thread `t` has a turn to copy. */
  function Turns(t: nat, ops: seq<Op>): nat {
    if ops == [] then 0 else Turns(t, ops[..|ops| - 1]) + if ops[|ops| - 1] == Copy(t) then 1 else 0
  }

  /** The slot that a thread holds is touched by nobody else. */
  lemma OwnSlot(s: State, op: Op, t: nat)
    requires t in s.held && op != SendEnd(t) && op != RecvEnd(t)
    ensures t in Step(s, op).held
    ensures Step(s, op).held[t] == if op == Copy(t) && !Complete(s.held[t]) then Copied(s.held[t]) else s.held[t]
  {
    hide Suspended;
  }

  /** What a sender has done after `n` turns: cleared the link, unless the message is urgent, and copied. */
  function FillingAfter(payload: seq<Byte>, urgent: bool, n: nat): (h: Held)
    ensures Complete(h) <==> n >= |payload| + if urgent then 0 else 1
  {
    var copied := if urgent then n else if n == 0 then 0 else n - 1;
    Filling(payload, urgent, urgent || n > 0, if copied < |payload| then copied else |payload|)
  }

  function EmptyingAfter(message: Message, want: nat, n: nat): (h: Held)
    ensures Complete(h) <==> n >= want
  {
    Emptying(message, want, if n < want then n else want)
  }

  lemma {:induction false} FillsUp(s: State, t: nat, payload: seq<Byte>, urgent: bool, ops: seq<Op>)
    requires t in s.held && s.held[t] == Filling(payload, urgent, urgent, 0) && SendEnd(t) !in ops
    ensures t in Run(s, ops).held && Run(s, ops).held[t] == FillingAfter(payload, urgent, Turns(t, ops))
  {
    hide Step;
    if ops != [] {
      var front, op := ops[..|ops| - 1], ops[|ops| - 1];
      FillsUp(s, t, payload, urgent, front);
      if op == RecvEnd(t) { WrongEnd(Run(s, front), t); } else { OwnSlot(Run(s, front), op, t); }
    }
  }

  lemma WrongEnd(s: State, t: nat)
    requires t in s.held
    ensures s.held[t].Filling? ==> Step(s, RecvEnd(t)) == s
    ensures s.held[t].Emptying? ==> Step(s, SendEnd(t)) == s
  {
  }

  lemma {:induction false} DrainsOut(s: State, t: nat, message: Message, want: nat, ops: seq<Op>)
    requires t in s.held && s.held[t] == Emptying(message, want, 0) && RecvEnd(t) !in ops
    ensures t in Run(s, ops).held && Run(s, ops).held[t] == EmptyingAfter(message, want, Turns(t, ops))
  {
    hide Step;
    if ops != [] {
      var front, op := ops[..|ops| - 1], ops[|ops| - 1];
      DrainsOut(s, t, message, want, front);
      if op == SendEnd(t) { WrongEnd(Run(s, front), t); } else { OwnSlot(Run(s, front), op, t); }
    }
  }

  /** A send that finds a slot puts exactly its payload into the queue, behind the others or, when it is
      urgent, in front of them, as soon as it has had one turn for each byte and one for the link,
      whatever the other threads do meanwhile. */
  lemma SendWorks(s: State, t: nat, payload: seq<Byte>, urgent: bool, ops: seq<Op>)
    requires t !in s.held && |payload| <= s.size && s.free > 0 && SendEnd(t) !in ops
    ensures var s1 := Run(Step(s, SendBegin(t, payload, urgent)), ops);
      var s2 := Step(s1, SendEnd(t));
      if Turns(t, ops) >= |payload| + (if urgent then 0 else 1) then
        var m := Message(payload, urgent, |s1.linked|);
        && s2.messages == (if urgent then [m] + s1.messages else s1.messages + [m])
        && s2.linked == s1.linked + [m] && s2.held == s1.held - {t} && s2.free == s1.free
      else s2 == s1
  {
    hide Run, Turns;
    FillsUp(Step(s, SendBegin(t, payload, urgent)), t, payload, urgent, ops);
  }

  /** A receive that finds a message returns with the first bytes of just that message, as many as asked
      for but no more than a message can have, as soon as it has had a turn for each. */
  lemma RecvWorks(s: State, t: nat, prio: nat, length: nat, wait: bool, ops: seq<Op>)
    requires t !in s.held && s.messages != [] && RecvEnd(t) !in ops
    ensures var s1 := Run(Step(s, RecvBegin(t, prio, length, wait)), ops);
      var s2 := Step(s1, RecvEnd(t));
      var want := if length < s.size then length else s.size;
      if Turns(t, ops) >= want then
        && s2.finished == s1.finished + [Finish(s.messages[0], want)]
        && s2.held == s1.held - {t} && s2.messages == s1.messages && s2.free == s1.free + 1
      else s2 == s1
  {
    hide Run, Turns;
    var want := if length < s.size then length else s.size;
    DrainsOut(Step(s, RecvBegin(t, prio, length, wait)), t, s.messages[0], want, ops);
  }

  /** Only thread `t` has turns: nothing but its own slot changes. */
  lemma {:induction false} Alone(s: State, t: nat, ops: seq<Op>)
    requires t in s.held && forall op :: op in ops ==> op == Copy(t)
    ensures Turns(t, ops) == |ops| && SendEnd(t) !in ops && RecvEnd(t) !in ops
    ensures t in Run(s, ops).held && Run(s, ops) == s.(held := s.held[t := Run(s, ops).held[t]])
  {
    if ops != [] {
      assert ops[|ops| - 1] in ops;
      var front := ops[..|ops| - 1];
      forall op | op in front
        ensures op == Copy(t)
      {
        assert op in ops;
      }
      Alone(s, t, front);
    } else {
      assert s.held[t := s.held[t]] == s.held;
    }
  }

  lemma NoOps(s: State)
    ensures Run(s, []) == s
  {
  }

  lemma OneOpMore(s: State, ops: seq<Op>, op: Op)
    ensures Run(s, ops + [op]) == Step(Run(s, ops), op)
  {
    assert (ops + [op])[..|ops|] == ops;
  }
}
