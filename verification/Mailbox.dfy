/** A mailbox: a bounded queue of words that threads send to and receive from, waiting while it is
    full or empty. Every interrupt-disabled region is one step. A woken thread is only made ready:
    before it runs again, other threads may take what it was woken for. */
module Mailbox {
  import opened IpcList
  import opened Ring

  /** A waiting thread. */
  type Thread = Waiter<()>

  /** `mails` is what the mailbox holds, oldest first. `receivers` and `senders` are asleep;
      `wokenReceivers` and `wokenSenders` have been woken and have not run yet. `sent` and `got` are
      the mails that have gone in and come out since the last reset. */
  datatype State = State(
    size: nat, byPrio: bool, mails: seq<int>,
    receivers: seq<Thread>, senders: seq<Thread>,
    wokenReceivers: multiset<nat>, wokenSenders: multiset<nat>,
    sent: seq<int>, got: seq<int>)

  /** What threads and timers do. `TryRecv` and `TrySend` are one pass of the receiving or sending
      loop, be it the first one or one after a wake-up; without `wait` the thread gives up instead
      of going to sleep, because it never waits or its time is over. */
  datatype Op =
    | TryRecv(thread: nat, prio: nat, wait: bool)
    | TrySend(thread: nat, prio: nat, mail: int, wait: bool)
    | ExpireReceiver(index: nat)
    | ExpireSender(index: nat)
    | Reset

  /** A receiving pass on an empty mailbox, and on one with mail. */
  function RecvBlocked(m: State, t: nat, prio: nat, wait: bool): State {
    m.(wokenReceivers := m.wokenReceivers - multiset{t},
       receivers := if wait then Suspended(m.receivers, Waiter(t, prio, ()), m.byPrio) else m.receivers)
  }

  function RecvDone(m: State, t: nat): State
    requires m.mails != []
  {
    m.(wokenReceivers := m.wokenReceivers - multiset{t}, mails := m.mails[1..], got := m.got + [m.mails[0]],
       senders := Rest(m.senders), wokenSenders := m.wokenSenders + First(m.senders))
  }

  /** A sending pass on a full mailbox, and on one with room. */
  function SendBlocked(m: State, t: nat, prio: nat, wait: bool): State {
    m.(wokenSenders := m.wokenSenders - multiset{t},
       senders := if wait then Suspended(m.senders, Waiter(t, prio, ()), m.byPrio) else m.senders)
  }

  function SendDone(m: State, t: nat, mail: int): State {
    m.(wokenSenders := m.wokenSenders - multiset{t}, mails := m.mails + [mail], sent := m.sent + [mail],
       receivers := Rest(m.receivers), wokenReceivers := m.wokenReceivers + First(m.receivers))
  }

  /** The first sleeping thread is woken. */
  function First(xs: seq<Thread>): (f: multiset<nat>)
    ensures |f| == if xs == [] then 0 else 1
  {
    if xs == [] then multiset{} else multiset{xs[0].thread}
  }

  function Rest(xs: seq<Thread>): seq<Thread> {
    if xs == [] then [] else xs[1..]
  }

  function Recv(m: State, t: nat, prio: nat, wait: bool): State {
    if m.mails == [] then RecvBlocked(m, t, prio, wait) else RecvDone(m, t)
  }

  function Send(m: State, t: nat, prio: nat, mail: int, wait: bool): State {
    if |m.mails| >= m.size then SendBlocked(m, t, prio, wait) else SendDone(m, t, mail)
  }

  function Step(m: State, op: Op): State {
    match op
    case TryRecv(t, prio, wait) => Recv(m, t, prio, wait)
    case TrySend(t, prio, mail, wait) => Send(m, t, prio, mail, wait)
    case ExpireReceiver(i) => if i < |m.receivers| then m.(receivers := Without(m.receivers, i)) else m
    case ExpireSender(i) => if i < |m.senders| then m.(senders := Without(m.senders, i)) else m
    case Reset => m.(mails := [], receivers := [], senders := [], sent := [], got := [])
  }

  /** No mail lies in the mailbox while a receiver sleeps, except for receivers that have been woken
      and have not run yet; and the same for free slots and senders. Mails come out in the order in
      which they went in, each one once. */
  ghost predicate Inv(m: State) {
    && |m.mails| <= m.size
    && (m.receivers != [] ==> |m.mails| <= |m.wokenReceivers|)
    && (m.senders != [] ==> m.size - |m.mails| <= |m.wokenSenders|)
    && m.sent == m.got + m.mails
  }

  lemma RecvInv(m: State, t: nat, prio: nat, wait: bool)
    requires Inv(m)
    ensures Inv(Recv(m, t, prio, wait))
  {
    assert |m.wokenReceivers - multiset{t}| >= |m.wokenReceivers| - 1;
    if m.mails != [] {
      assert m.mails == [m.mails[0]] + m.mails[1..];
    }
  }

  lemma SendInv(m: State, t: nat, prio: nat, mail: int, wait: bool)
    requires Inv(m)
    ensures Inv(Send(m, t, prio, mail, wait))
  {
    assert |m.wokenSenders - multiset{t}| >= |m.wokenSenders| - 1;
    assert m.got + (m.mails + [mail]) == m.got + m.mails + [mail];
  }

  lemma StepInv(m: State, op: Op)
    requires Inv(m)
    ensures Inv(Step(m, op))
  {
    match op
    case TryRecv(t, prio, wait) => RecvInv(m, t, prio, wait);
    case TrySend(t, prio, mail, wait) => SendInv(m, t, prio, mail, wait);
    case ExpireReceiver(_) =>
    case ExpireSender(_) =>
    case Reset =>
  }

  function Run(m: State, ops: seq<Op>): State
    decreases |ops|
  {
    if ops == [] then m else Run(Step(m, ops[0]), ops[1..])
  }

  lemma {:induction false} RunInv(m: State, ops: seq<Op>)
    requires Inv(m)
    ensures Inv(Run(m, ops))
    decreases |ops|
  {
    if ops != [] {
      StepInv(m, ops[0]);
      RunInv(Step(m, ops[0]), ops[1..]);
    }
  }

  function Initial(size: nat, byPrio: bool): State {
    State(size, byPrio, [], [], [], multiset{}, multiset{}, [], [])
  }

  /** In any interleaving: once every woken thread has run, a sleeping receiver means an empty
      mailbox, and a sleeping sender a full one. */
  lemma NoneStranded(size: nat, byPrio: bool, ops: seq<Op>)
    ensures var m := Run(Initial(size, byPrio), ops);
      && Inv(m)
      && (m.wokenReceivers == multiset{} && m.receivers != [] ==> m.mails == [])
      && (m.wokenSenders == multiset{} && m.senders != [] ==> |m.mails| >= m.size)
  {
    RunInv(Initial(size, byPrio), ops);
  }

  // ---- the object -------------------------------------------------------------------------------

  datatype Result = Done | Full | TimedOut | Blocked

  class Mailbox {
    const pool: array<int>
    const byPrio: bool
    var entry: nat
    var inOffset: nat
    var outOffset: nat
    var receivers: seq<Thread>
    var senders: seq<Thread>
    ghost var wokenReceivers: multiset<nat>
    ghost var wokenSenders: multiset<nat>
    ghost var sent: seq<int>
    ghost var got: seq<int>

    ghost predicate Valid()
      reads `entry, `inOffset, `outOffset
    {
      && 0 < pool.Length && entry <= pool.Length && inOffset < pool.Length && outOffset < pool.Length
      && inOffset == Wrap(outOffset + entry, pool.Length)
    }

    /** The mails in the pool, oldest first. */
    ghost function Mails(): seq<int>
      requires Valid()
      reads `entry, `inOffset, `outOffset, pool
    {
      Queue(pool[..], outOffset, entry)
    }

    ghost function Now(): State
      requires Valid()
      reads this, pool
    {
      State(pool.Length, byPrio, Mails(), receivers, senders, wokenReceivers, wokenSenders, sent, got)
    }

    constructor (pool: array<int>, byPrio: bool)
      requires 0 < pool.Length < 0x1_0000
      ensures Valid() && Now() == Initial(pool.Length, byPrio)
    {
      this.pool, this.byPrio := pool, byPrio;
      entry, inOffset, outOffset := 0, 0, 0;
      receivers, senders := [], [];
      wokenReceivers, wokenSenders, sent, got := multiset{}, multiset{}, [], [];
    }

    /** One pass of the loop of rt_mb_send_wait by thread `t`: without `wait`, a full mailbox makes
        it give up. */
    method TrySend(t: nat, prio: nat, mail: int, wait: bool) returns (r: Result)
      requires Valid()
      modifies this, pool
      ensures Valid() && Now() == Step(old(Now()), Op.TrySend(t, prio, mail, wait))
      ensures r == if old(|Mails()|) < pool.Length then Done else if wait then Blocked else Full
      ensures Mails() == if r == Done then old(Mails()) + [mail] else old(Mails())
      ensures r == Done && old(receivers) != [] ==>
        receivers == old(receivers)[1..] && wokenReceivers == old(wokenReceivers) + multiset{old(receivers)[0].thread}
      ensures r != Done || old(receivers) == [] ==> receivers == old(receivers) && wokenReceivers == old(wokenReceivers)
      ensures r != Blocked ==> senders == old(senders)
      ensures r == Blocked ==> senders == Suspended(old(senders), Waiter(t, prio, ()), byPrio)
    {
      hide Mailbox.Valid, Mailbox.Mails, Suspended;
      InBounds();
      if entry == pool.Length {
        SenderBlocked(t, prio, wait);
        r := if wait then Blocked else Full;
      } else {
        SenderDone(t, mail);
        r := Done;
      }
    }

    method SenderBlocked(t: nat, prio: nat, wait: bool)
      requires Valid()
      modifies this`senders, this`wokenSenders
      ensures Valid() && Now() == SendBlocked(old(Now()), t, prio, wait)
    {
      hide Suspended, Mailbox.Mails, Wrap;
      SleepSender(t, prio, wait);
    }

    method SleepSender(t: nat, prio: nat, wait: bool)
      modifies this`senders, this`wokenSenders
      ensures senders == if wait then Suspended(old(senders), Waiter(t, prio, ()), byPrio) else old(senders)
      ensures wokenSenders == old(wokenSenders) - multiset{t}
    {
      wokenSenders := wokenSenders - multiset{t};
      if wait {
        senders := Enqueue(senders, Waiter(t, prio, ()), byPrio);
      }
    }

    method SenderDone(t: nat, mail: int)
      requires Valid() && entry < pool.Length
      modifies this`entry, this`inOffset, this`receivers, this`wokenSenders, this`wokenReceivers, this`sent, pool
      ensures Valid() && Now() == SendDone(old(Now()), t, mail)
    {
      hide Mailbox.Mails, First, Rest, Wrap;
      PutIn(mail);
      wokenSenders := wokenSenders - multiset{t};
      sent := sent + [mail];
      WakeReceiver();
    }

    method WakeReceiver()
      modifies this`receivers, this`wokenReceivers
      ensures receivers == Rest(old(receivers)) && wokenReceivers == old(wokenReceivers) + First(old(receivers))
    {
      if receivers != [] {
        wokenReceivers := wokenReceivers + multiset{receivers[0].thread};
        receivers := receivers[1..];
      }
    }

    lemma InBounds()
      requires Valid()
      ensures entry <= pool.Length && |Mails()| == entry
    {
    }

    /** Stores a mail and moves the input offset on. */
    method PutIn(mail: int)
      requires Valid() && entry < pool.Length
      modifies this`entry, this`inOffset, pool
      ensures Valid() && Mails() == old(Mails()) + [mail] && entry == old(entry) + 1
    {
      ghost var b := pool[..];
      pool[inOffset] := mail;
      QueueBack(b, pool[..], outOffset, entry, [mail]);
      inOffset := inOffset + 1;
      if inOffset >= pool.Length { inOffset := 0; }
      entry := entry + 1;
    }

    /** One pass of the loop of rt_mb_recv by thread `t`: without `wait`, an empty mailbox makes it
        give up. */
    method TryRecv(t: nat, prio: nat, wait: bool) returns (r: Result, value: int)
      requires Valid()
      modifies this
      ensures Valid() && Now() == Step(old(Now()), Op.TryRecv(t, prio, wait))
      ensures r == if old(Mails()) != [] then Done else if wait then Blocked else TimedOut
      ensures old(Mails()) == if r == Done then [value] + Mails() else Mails()
      ensures r == Done && old(senders) != [] ==>
        senders == old(senders)[1..] && wokenSenders == old(wokenSenders) + multiset{old(senders)[0].thread}
      ensures r != Done || old(senders) == [] ==> senders == old(senders) && wokenSenders == old(wokenSenders)
      ensures r != Blocked ==> receivers == old(receivers)
      ensures r == Blocked ==> receivers == Suspended(old(receivers), Waiter(t, prio, ()), byPrio)
    {
      hide Mailbox.Valid, Mailbox.Mails, Suspended;
      InBounds();
      value := 0;
      if entry == 0 {
        ReceiverBlocked(t, prio, wait);
        r := if wait then Blocked else TimedOut;
      } else {
        value := ReceiverDone(t);
        r := Done;
      }
    }

    method ReceiverBlocked(t: nat, prio: nat, wait: bool)
      requires Valid()
      modifies this`receivers, this`wokenReceivers
      ensures Valid() && Now() == RecvBlocked(old(Now()), t, prio, wait)
    {
      hide Suspended, Mailbox.Mails, Wrap;
      SleepReceiver(t, prio, wait);
    }

    method SleepReceiver(t: nat, prio: nat, wait: bool)
      modifies this`receivers, this`wokenReceivers
      ensures receivers == if wait then Suspended(old(receivers), Waiter(t, prio, ()), byPrio) else old(receivers)
      ensures wokenReceivers == old(wokenReceivers) - multiset{t}
    {
      wokenReceivers := wokenReceivers - multiset{t};
      if wait {
        receivers := Enqueue(receivers, Waiter(t, prio, ()), byPrio);
      }
    }

    method ReceiverDone(t: nat) returns (value: int)
      requires Valid() && entry > 0 && Mails() != []
      modifies this`entry, this`outOffset, this`senders, this`wokenSenders, this`wokenReceivers, this`got
      ensures Valid() && Now() == RecvDone(old(Now()), t) && value == old(Mails())[0]
    {
      hide Mailbox.Mails, First, Rest, Wrap;
      value := TakeOut();
      wokenReceivers := wokenReceivers - multiset{t};
      got := got + [value];
      WakeSender();
    }

    method WakeSender()
      modifies this`senders, this`wokenSenders
      ensures senders == Rest(old(senders)) && wokenSenders == old(wokenSenders) + First(old(senders))
    {
      if senders != [] {
        wokenSenders := wokenSenders + multiset{senders[0].thread};
        senders := senders[1..];
      }
    }

    /** Takes the oldest mail out and moves the output offset on. */
    method TakeOut() returns (value: int)
      requires Valid() && entry > 0
      modifies this`entry, this`outOffset
      ensures Valid() && entry == old(entry) - 1
      ensures old(Mails()) == [value] + Mails() && value == old(Mails())[0] && Mails() == old(Mails())[1..]
    {
      QueueFront(pool[..], outOffset, entry, 1);
      SliceOne(pool[..], outOffset);
      value := pool[outOffset];
      outOffset := outOffset + 1;
      if outOffset >= pool.Length { outOffset := 0; }
      entry := entry - 1;
    }

    /** rt_mb_control with the reset command. */
    method Reset()
      requires Valid()
      modifies this
      ensures Valid() && Now() == Step(old(Now()), Op.Reset)
    {
      receivers, senders := [], [];
      entry, inOffset, outOffset := 0, 0, 0;
      sent, got := [], [];
    }
 
    /** A sleeping thread's time is over. */
    method Expire(i: nat, receiver: bool)
      requires Valid() && i < if receiver then |receivers| else |senders|
      modifies this`receivers, this`senders
      ensures Valid() && Now() == Step(old(Now()), if receiver then ExpireReceiver(i) else ExpireSender(i))
      ensures Mails() == old(Mails())
    {
      hide Mailbox.Mails;
      if receiver {
        receivers := Without(receivers, i);
      } else {
        senders := Without(senders, i);
      }
    }

    /** One step of a thread or a timer, and what it answers: the mails that went in and came out. */
    method Perform(op: Op) returns (accepted: seq<int>, received: seq<int>)
      requires Valid()
      modifies this, pool
      ensures Valid() && Now() == Step(old(Now()), op)
      ensures op == Op.Reset ==> Mails() == []
      ensures op != Op.Reset ==> old(Mails()) + accepted == received + Mails()
      ensures op.TrySend? && old(|Mails()|) < pool.Length ==> accepted == [op.mail]
      ensures op.TryRecv? && old(Mails()) != [] ==> |received| == 1
    {
      hide Mailbox.Valid, Mailbox.Mails, Suspended, First, Rest, SendDone, SendBlocked, RecvDone, RecvBlocked;
      accepted, received := [], [];
      match op
      case TryRecv(t, prio, wait) =>
        var r, value := TryRecv(t, prio, wait);
        if r == Done { received := [value]; }
      case TrySend(t, prio, mail, wait) =>
        var r := TrySend(t, prio, mail, wait);
        if r == Done { accepted := [mail]; }
      case ExpireReceiver(i) => if i < |receivers| { Expire(i, true); }
      case ExpireSender(i) => if i < |senders| { Expire(i, false); }
      case Reset => Reset();
    }

    /** Any run of passes, timers and resets: the mailbox follows the model, and the mails whose senders
        were answered Done are those that the receivers got, in order, followed by those that are still
        there. After a reset the account starts anew. */
    method RunAll(ops: seq<Op>) returns (accepted: seq<int>, received: seq<int>)
      requires Valid()
      modifies this, pool
      ensures Valid() && Now() == Run(old(Now()), ops)
      ensures old(Mails()) == [] ==> accepted == received + Mails()
      ensures Op.Reset !in ops ==> old(Mails()) + accepted == received + Mails()
    {
      hide Mailbox.Valid, Mailbox.Mails, Step;
      accepted, received := [], [];
      ghost var base := Mails();
      assert ops[0..] == ops && base + [] == [] + base;
      for i := 0 to |ops|
        invariant Valid() && Run(old(Now()), ops) == Run(Now(), ops[i..])
        invariant base + accepted == received + Mails()
        invariant old(Mails()) == [] ==> base == []
        invariant Op.Reset !in ops ==> base == old(Mails())
      {
        assert ops[i..][0] == ops[i] && ops[i..][1..] == ops[i + 1..] && ops[i] in ops;
        ghost var was := Mails();
        var a, r := Perform(ops[i]);
        if ops[i] == Op.Reset {
          accepted, received, base := [], [], [];
        } else {
          OneStepMore(base, accepted, received, was, a, r, Mails());
          accepted, received := accepted + a, received + r;
        }
      }
    }
  }

  lemma OneStepMore(base: seq<int>, accepted: seq<int>, received: seq<int>, was: seq<int>, a: seq<int>, r: seq<int>, now: seq<int>)
    requires base + accepted == received + was && was + a == r + now
    ensures base + (accepted + a) == received + r + now
  {
    assert base + (accepted + a) == base + accepted + a;
    assert received + was + a == received + (was + a);
    assert received + (r + now) == received + r + now;
  }
}
