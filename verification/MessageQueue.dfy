/** The message queue object: two lists that run through the nodes of one pool, and the threads that
    work on it, region by region and byte by byte. */
module MessageQueue {
  import opened Bytes
  import DoubleLinks
  import opened IpcList
  import opened MessageProtocol
  import opened MessageNodes

  datatype Result = Done | TooLong | Full | TimedOut | Blocked

  class Mq {
    const size: nat
    const byPrio: bool
    var head: int
    var tail: int
    var free: int
    var entry: nat
    var next: map<int, int>
    var data: map<int, seq<Byte>>
    var waiters: seq<Thread>
    var locals: map<nat, Local>
    ghost var place: map<int, Place>
    ghost var queue: seq<int>
    ghost var frees: seq<int>
    /** What the queue is, seen from outside. */
    ghost var s: State

    ghost predicate Lists()
      reads `head, `tail, `free, `next, `queue, `frees
    {
      Linked(next, head, queue) && tail == Last(queue) && Linked(next, free, frees)
    }

    ghost predicate Valid()
      reads this
    {
      && Lists()
      && Placed(place, queue, frees, locals)
      && Store(next, data, place, size)
      && Carries(data, queue, s.messages)
      && Holders(next, data, size, locals, s.held)
      && s.free == |frees| && entry == |queue|
      && s.size == size && s.byPrio == byPrio && s.waiters == waiters
    }

    /** rt_mq_init: `pool` is the address of the memory `bytes` given for the nodes. */
    constructor (pool: nat, bytes: seq<Byte>, msgSize: nat, byPrio: bool)
      requires pool != NULL && AlignUp(msgSize) < 0x1_0000 && SlotsFor(|bytes|, AlignUp(msgSize)) < 0x1_0000
      ensures Valid() && size == AlignUp(msgSize) && s == Initial(SlotsFor(|bytes|, size), size, byPrio)
      ensures Apart(place, size, pool, pool + |bytes|)
    {
      size := AlignUp(msgSize);
      this.byPrio := byPrio;
      head, tail, free, entry := NULL, NULL, NULL, 0;
      next, data, waiters, locals := map[], map[], [], map[];
      place, queue, frees := map[], [], [];
      s := Initial(SlotsFor(|bytes|, AlignUp(msgSize)), AlignUp(msgSize), byPrio);
      new;
      hide *;
      NothingYet(size, pool);
      AddNodes(pool, bytes);
      Complete0(SlotsFor(|bytes|, size));
    }

    /** The loop over the nodes. */
    method AddNodes(pool: nat, bytes: seq<Byte>)
      requires Lists() && queue == [] && frees == [] && locals == map[] && pool != NULL
      requires Placed(place, [], frees, map[]) && Store(next, data, place, size) && Apart(place, size, pool, pool)
      modifies this`free, this`next, this`data, this`frees, this`place
      ensures Lists() && |frees| == SlotsFor(|bytes|, size)
      ensures Placed(place, [], frees, map[]) && Store(next, data, place, size)
      ensures Apart(place, size, pool, pool + |bytes|)
    {
      hide Placed, Store, Apart, Mq.Lists;
      var most := SlotsFor(|bytes|, size);
      for i := 0 to most
        invariant Lists() && |frees| == i
        invariant Placed(place, [], frees, map[]) && Store(next, data, place, size)
        invariant Apart(place, size, pool, NodeAt(pool, size, i))
      {
        NodeInside(pool, size, i, |bytes|);
        var offset := i * (size + 4);
        AddNode(pool + offset, bytes[offset + 4..offset + 4 + size], pool, NodeAt(pool, size, i));
      }
      NodeInside(pool, size, most, |bytes|);
      ApartWider(place, size, pool, NodeAt(pool, size, most), pool + |bytes|);
    }

    lemma Complete0(n: nat)
      requires Lists() && queue == [] && |frees| == n && locals == map[]
      requires Placed(place, [], frees, map[]) && Store(next, data, place, size)
      requires s == Initial(n, size, byPrio) && entry == 0 && waiters == []
      ensures Valid()
    {
    }

    /** A new node goes into the free list. */
    method AddNode(x: int, b: seq<Byte>, ghost lo: nat, ghost hi: nat)
      requires Lists() && queue == [] && locals == map[] && x == hi >= lo > 0 && |b| == size
      requires Placed(place, [], frees, map[]) && Store(next, data, place, size) && Apart(place, size, lo, hi)
      modifies this`free, this`next, this`data, this`frees, this`place
      ensures Lists() && |frees| == old(|frees|) + 1
      ensures Placed(place, [], frees, map[]) && Store(next, data, place, size)
      ensures Apart(place, size, lo, hi + size + 4)
    {
      hide Linked;
      assert x !in place && x !in frees;
      LinkedPush(next, free, frees, x);
      LinkedKept(next, head, queue, x, free);
      next, data := next[x := free], data[x := b];
      free := x;
      frees := [x] + frees;
      place := place[x := InFree];
    }

    /** The first region of rt_mq_send and rt_mq_urgent, and the test before it. */
    method SendBegin(t: nat, payload: seq<Byte>, urgent: bool) returns (r: Result)
      requires Valid() && t !in locals
      modifies this
      ensures Valid() && s == Step(old(s), Op.SendBegin(t, payload, urgent))
      ensures r == if |payload| > size then TooLong else if old(|frees|) == 0 then Full else Done
      ensures r != Done ==> s == old(s) && locals == old(locals)
      ensures r == Done ==> s.messages == old(s).messages && s.linked == old(s).linked && s.free == old(s).free - 1
      ensures r == Done ==> s.held == old(s).held[t := Filling(payload, urgent, urgent, 0)]
      ensures r == Done ==> locals == old(locals)[t := Sending(old(frees)[0], payload, urgent, urgent, 0)]
    {
      hide Placed, Store, Carries, Holder, Linked;
      LinkedEnds(next, free, frees);
      if |payload| > size {
        return TooLong;
      }
      var msg := free;
      if msg == NULL {
        return Full;
      }
      TakeFree(t, msg, payload, urgent);
      s := Begun(s, t, payload, urgent);
      r := Done;
    }

    /** The first free node goes to a sender. */
    method TakeFree(t: nat, msg: int, payload: seq<Byte>, urgent: bool)
      requires Valid() && t !in locals && frees != [] && msg == free && |payload| <= size
      modifies this`free, this`locals, this`place, this`frees
      ensures Lists() && Placed(place, queue, frees, locals) && Store(next, data, place, size)
      ensures |frees| == old(|frees|) - 1 && locals == old(locals)[t := Sending(old(frees)[0], payload, urgent, urgent, 0)]
      ensures Holders(next, data, size, locals, s.held[t := Filling(payload, urgent, urgent, 0)])
    {
      hide Placed, Store, Carries, Holder, Holders, Linked;
      LinkedPop(next, free, frees);
      free := next[msg];
      var f := Sending(msg, payload, urgent, urgent, 0);
      ghost var h := Filling(payload, urgent, urgent, 0);
      FreeHolder(next, data, place, size, queue, frees, locals, payload, urgent);
      FreeToThread(place, queue, frees, locals, t, f);
      HoldersMore(next, data, size, locals, s.held, t, f, h);
      StorePlace(next, data, place, size, msg, With(t));
      locals := locals[t := f];
      place := place[msg := With(t)];
      frees := frees[1..];
    }

    /** What a thread does next between its two regions. */
    method Copy(t: nat)
      requires Valid() && t in locals && t in s.held && !Complete(s.held[t])
      modifies this
      ensures Valid() && s == Step(old(s), Op.Copy(t))
    {
      hide Placed, Store, Carries, Holder, Linked;
      SameHolder(place, queue, frees, locals, t, locals[t]);
      match locals[t]
      case Sending(x, payload, urgent, cleared, done) =>
        if cleared {
          CopyIn(t, x, payload, urgent, done);
        } else {
          ClearLink(t, x, payload, urgent, done);
        }
      case Receiving(x, want, out) =>
        CopyOut(t, x, want, out);
    }

    /** A byte of the message is copied into the node. */
    method CopyIn(t: nat, x: int, payload: seq<Byte>, urgent: bool, done: nat)
      requires Valid() && t in locals && t in s.held && !Complete(s.held[t])
      requires locals[t] == Sending(x, payload, urgent, true, done)
      modifies this`data, this`locals, this`s
      ensures Valid() && s == Step(old(s), Op.Copy(t))
    {
      hide Linked, Carries, Placed, Store, Holders, Holder;
      OwnHolder(t);
      FillsOne(next, data, size, locals[t], s.held[t]);
      var f, h := Sending(x, payload, urgent, true, done + 1), Filling(payload, urgent, true, done + 1);
      var b := data[x][done := payload[done]];
      SameHolder(place, queue, frees, locals, t, f);
      CarriesKept(data, queue, s.messages, x, b);
      OwnNode(place, queue, frees, locals, next, next, data, data[x := b], t);
      HoldersGoOn(next, next, data, data[x := b], size, locals, s.held, t, f, h);
      StoreData(next, data, place, size, x, b);
      data, locals := data[x := b], locals[t := f];
      s := s.(held := s.held[t := h]);
    }

    lemma OwnHolder(t: nat)
      requires Valid() && t in locals
      ensures t in s.held && Holder(next, data, size, locals[t], s.held[t])
    {
    }

    /** The link of the node is cleared. */
    method ClearLink(t: nat, x: int, payload: seq<Byte>, urgent: bool, done: nat)
      requires Valid() && t in locals && t in s.held && !Complete(s.held[t])
      requires locals[t] == Sending(x, payload, urgent, false, done)
      modifies this`next, this`locals, this`s
      ensures Valid() && s == Step(old(s), Op.Copy(t))
    {
      hide Linked, Carries, Placed, Store, Holders, Holder;
      OwnHolder(t);
      ClearsLink(next, data, size, locals[t], s.held[t]);
      var f, h := Sending(x, payload, urgent, true, done), Filling(payload, urgent, true, done);
      SameHolder(place, queue, frees, locals, t, f);
      LinkedKept(next, head, queue, x, NULL);
      LinkedKept(next, free, frees, x, NULL);
      OwnNode(place, queue, frees, locals, next, next[x := NULL], data, data, t);
      HoldersGoOn(next, next[x := NULL], data, data, size, locals, s.held, t, f, h);
      StoreNext(next, data, place, size, x, NULL);
      next, locals := next[x := NULL], locals[t := f];
      s := s.(held := s.held[t := h]);
    }

    /** A byte of the message is copied out of the node. */
    method CopyOut(t: nat, x: int, want: nat, out: seq<Byte>)
      requires Valid() && t in locals && t in s.held && !Complete(s.held[t])
      requires locals[t] == Receiving(x, want, out)
      modifies this`locals, this`s
      ensures Valid() && s == Step(old(s), Op.Copy(t))
    {
      hide Linked, Carries, Placed, Store, Holders, Holder;
      OwnHolder(t);
      TakesOne(next, data, size, locals[t], s.held[t]);
      var f, h := Receiving(x, want, out + [data[x][|out|]]), Emptying(s.held[t].message, want, |out| + 1);
      SameHolder(place, queue, frees, locals, t, f);
      HoldersMore(next, data, size, locals, s.held, t, f, h);
      locals := locals[t := f];
      s := s.(held := s.held[t := h]);
    }

    /** The second region of rt_mq_send and rt_mq_urgent. */
    method SendEnd(t: nat)
      requires Valid() && Enabled(s, Op.SendEnd(t))
      modifies this
      ensures Valid() && s == Step(old(s), Op.SendEnd(t))
      ensures var h := old(s).held[t];
        var m := Message(h.payload, h.urgent, |old(s).linked|);
        s.messages == if h.urgent then [m] + old(s).messages else old(s).messages + [m]
      ensures old(waiters) != [] ==> waiters == old(waiters)[1..] && s.woken == old(s).woken + multiset{old(waiters)[0].thread}
      ensures old(waiters) == [] ==> waiters == [] && s.woken == old(s).woken
    {
      hide Placed, Store, Carries, Holders, Mq.Lists, Suspended;
      LinkIn(t, |s.linked|);
      s := LinkedIn(s, t);
      entry := entry + 1;
      if waiters != [] {
        waiters := waiters[1..];
      }
    }

    /** The node of a sender goes into the queue. */
    method LinkIn(t: nat, ghost stamp: nat)
      requires Valid() && Enabled(s, Op.SendEnd(t))
      modifies this`head, this`tail, this`next, this`queue, this`locals, this`place
      ensures Lists() && Placed(place, queue, frees, locals) && Store(next, data, place, size)
      ensures Holders(next, data, size, locals, s.held - {t}) && |queue| == old(|queue|) + 1
      ensures var h := s.held[t];
        var m := Message(h.payload, h.urgent, stamp);
        Carries(data, queue, if h.urgent then [m] + s.messages else s.messages + [m])
    {
      hide Placed, Store, Carries, Linked, Holders, CarriesAt;
      LeavesFull(t, stamp);
      var x, urgent := locals[t].node, locals[t].urgent;
      ghost var m := Message(locals[t].payload, urgent, stamp);
      ThreadToQueue(place, queue, frees, locals, t, urgent);
      HoldersLess(next, data, size, locals, s.held, t);
      CarriesMore(data, queue, s.messages, x, m);
      StorePlace(next, data, place, size, x, InQueue);
      OwnNode(place, queue, frees, locals, next, next[x := head], data, data, t);
      BackNode(place, queue, frees, locals, next, x, data, t);
      StoreNext(next, data, place[x := InQueue], size, x, head);
      StoreNext(next, data, place[x := InQueue], size, Last(queue), x);
      ghost var next0 := next;
      if urgent {
        LinkFront(x);
      } else {
        LinkBack(x);
      }
      HoldersKept(next0, next, data, data, size, locals - {t}, s.held - {t});
      locals := locals - {t};
      place := place[x := InQueue];
    }

    lemma LeavesFull(t: nat, stamp: nat)
      requires Valid() && Enabled(s, Op.SendEnd(t))
      ensures t in locals && locals[t].Sending?
      ensures CarriesAt(data, locals[t].node, Message(locals[t].payload, locals[t].urgent, stamp))
      ensures locals[t].payload == s.held[t].payload && locals[t].urgent == s.held[t].urgent
      ensures var x := locals[t].node;
        && x in next && x in place && x != NULL && x !in queue && x !in frees && (!locals[t].urgent ==> next[x] == NULL)
    {
    }

    /** Links a node in front of the queue. */
    method LinkFront(x: int)
      requires Lists() && x != NULL && x !in queue && x !in frees
      modifies this`head, this`tail, this`next, this`queue
      ensures Lists() && queue == [x] + old(queue) && next == old(next)[x := old(head)]
    {
      hide Linked;
      LinkedPush(next, head, queue, x);
      LinkedKept(next, free, frees, x, head);
      LinkedEnds(next, head, queue);
      next := next[x := head];
      head := x;
      if tail == NULL {
        tail := x;
      }
      queue := [x] + queue;
    }

    /** Links a node behind the queue. */
    method LinkBack(x: int)
      requires Lists() && x != NULL && x !in queue && x !in frees && x in next && next[x] == NULL
      requires forall y :: y in queue ==> y !in frees
      modifies this`head, this`tail, this`next, this`queue
      ensures Lists() && queue == old(queue) + [x]
      ensures next == if old(queue) == [] then old(next) else old(next)[Last(old(queue)) := x]
    {
      hide Linked;
      LinkedEnds(next, head, queue);
      LinkedAppend(next, head, queue, x);
      assert queue == [] ==> queue + [x] == [x];
      if tail != NULL {
        LinkedKept(next, free, frees, tail, x);
        next := next[tail := x];
      }
      tail := x;
      if head == NULL {
        head := x;
      }
      queue := queue + [x];
    }

    /** One pass of the loop of rt_mq_recv and, when there is a message, its first region: without
        `wait`, an empty queue makes the thread give up. */
    method RecvBegin(t: nat, prio: nat, length: nat, wait: bool) returns (r: Result)
      requires Valid() && t !in locals
      modifies this
      ensures Valid() && s == Step(old(s), Op.RecvBegin(t, prio, length, wait))
      ensures r == if old(s).messages != [] then Done else if wait then Blocked else TimedOut
      ensures r != Done ==> s.messages == [] == old(s).messages && locals == old(locals) && s.held == old(s).held
      ensures r == Done ==> s.messages == old(s).messages[1..] && s.free == old(s).free
      ensures r == Done ==> locals == old(locals)[t := Receiving(old(queue)[0], if length < size then length else size, [])]
      ensures r == Done ==>
        s.held == old(s).held[t := Emptying(old(s).messages[0], if length < size then length else size, 0)]
      ensures waiters == if r == Blocked then Suspended(old(waiters), Waiter(t, prio, ()), byPrio) else old(waiters)
    {
      hide Mq.Valid, Suspended;
      Sane();
      if entry == 0 {
        Waits(t, prio, length, wait);
        return if wait then Blocked else TimedOut;
      }
      Takes(t, prio, length, wait);
      r := Done;
    }

    /** The queue holds something: its first message goes to the thread. */
    method Takes(t: nat, prio: nat, length: nat, wait: bool)
      requires Valid() && t !in locals && s.messages != []
      modifies this
      ensures Valid() && s == Received(old(s), t, prio, length, wait) && waiters == old(waiters)
      ensures locals == old(locals)[t := Receiving(old(queue)[0], if length < size then length else size, [])]
    {
      hide Placed, Store, Carries, Mq.Lists, Holder, Suspended;
      NodesMessages();
      TakeOut(t, if length > size then size else length);
      entry := entry - 1;
      s := Received(s, t, prio, length, wait);
    }

    /** The queue is empty: the thread goes to sleep, or gives up. */
    method Waits(t: nat, prio: nat, length: nat, wait: bool)
      requires Valid() && t !in locals && s.messages == []
      modifies this`waiters, this`s
      ensures Valid() && s == Received(old(s), t, prio, length, wait)
      ensures waiters == if wait then Suspended(old(waiters), Waiter(t, prio, ()), byPrio) else old(waiters)
    {
      hide Placed, Store, Carries, Mq.Lists, Holder, Holders, Suspended;
      s := Received(s, t, prio, length, wait);
      if wait {
        waiters := Enqueue(waiters, Waiter(t, prio, ()), byPrio);
      }
    }

    /** The first node of the queue goes to a receiver. */
    method TakeOut(t: nat, want: nat)
      requires Valid() && t !in locals && queue != [] && want <= size
      modifies this`head, this`tail, this`queue, this`locals, this`place
      ensures Lists() && Placed(place, queue, frees, locals) && Store(next, data, place, size)
      ensures |queue| == old(|queue|) - 1 && locals == old(locals)[t := Receiving(old(queue)[0], want, [])]
      ensures s.messages != [] && Carries(data, queue, s.messages[1..])
      ensures Holders(next, data, size, locals, s.held[t := Emptying(s.messages[0], want, 0)])
    {
      hide Placed, Store, Carries, Linked, Holder, Holders;
      ghost var q := queue;
      QueueHolder(next, data, place, size, queue, frees, locals, s.messages, want);
      CarriesLess(data, queue, s.messages);
      var x := Unlink();
      var f := Receiving(x, want, []);
      ghost var h := Emptying(s.messages[0], want, 0);
      StorePlace(next, data, place, size, x, With(t));
      QueueToThread(place, q, frees, locals, t, f);
      HoldersMore(next, data, size, locals, s.held, t, f, h);
      locals := locals[t := f];
      place := place[x := With(t)];
    }

    lemma NodesMessages()
      requires Valid()
      ensures |queue| == |s.messages|
    {
    }

    /** Takes the first node off the queue. */
    method Unlink() returns (x: int)
      requires Lists() && queue != []
      modifies this`head, this`tail, this`queue
      ensures Lists() && queue == old(queue)[1..] && x == old(queue)[0] && DoubleLinks.Distinct(old(queue))
    {
      LinkedPop(next, head, queue);
      x := head;
      head := next[x];
      if tail == x {
        tail := NULL;
      }
      queue := queue[1..];
    }

    /** The second region of rt_mq_recv, and the bytes that the caller has got. */
    method RecvEnd(t: nat) returns (out: seq<Byte>)
      requires Valid() && Enabled(s, Op.RecvEnd(t))
      modifies this
      ensures Valid() && s == Step(old(s), Op.RecvEnd(t))
      ensures |out| == old(s).held[t].want && SamePrefix(out, old(s).held[t].message.payload)
    {
      hide Placed, Store, Carries, Linked, Holders;
      LeavesEmpty(t);
      var x := locals[t].node;
      out := locals[t].out;
      ThreadToFree(place, queue, frees, locals, t);
      HoldersLess(next, data, size, locals, s.held, t);
      OwnNode(place, queue, frees, locals, next, next[x := free], data, data, t);
      HoldersKept(next, next[x := free], data, data, size, locals - {t}, s.held - {t});
      StorePlace(next, data, place, size, x, InFree);
      StoreNext(next, data, place[x := InFree], size, x, free);
      PutBack(x);
      locals := locals - {t};
      place := place[x := InFree];
      s := Returned(s, t);
    }

    lemma LeavesEmpty(t: nat)
      requires Valid() && Enabled(s, Op.RecvEnd(t))
      ensures t in locals && locals[t].Receiving? && locals[t].node in place && locals[t].node != NULL
      ensures |locals[t].out| == s.held[t].want && SamePrefix(locals[t].out, s.held[t].message.payload)
    {
    }

    /** Puts a node into the free list. */
    method PutBack(x: int)
      requires Lists() && x != NULL && x !in queue && x !in frees
      modifies this`free, this`next, this`frees
      ensures Lists() && frees == [x] + old(frees) && next == old(next)[x := old(free)]
    {
      hide Linked;
      LinkedPush(next, free, frees, x);
      LinkedKept(next, head, queue, x, free);
      next := next[x := free];
      free := x;
      frees := [x] + frees;
    }

    /** A waiting receiver's time is over. */
    method Expire(i: nat)
      requires Valid() && i < |waiters|
      modifies this`waiters, this`s
      ensures Valid() && s == Step(old(s), Op.Expire(i))
    {
      hide Placed, Store, Carries, Linked, Holders;
      waiters := Without(waiters, i);
      s := s.(waiters := waiters);
    }

    /** rt_mq_control with the reset command. */
    method Reset()
      requires Valid()
      modifies this
      ensures Valid() && s == Step(old(s), Op.Reset)
    {
      hide Placed, Store, Linked, Holders;
      waiters := [];
      ghost var n := |frees| + |queue|;
      LinkedEnds(next, head, queue);
      while head != NULL
        invariant Lists() && (head == NULL <==> queue == [])
        invariant Placed(place, queue, frees, locals)
        invariant Store(next, data, place, size)
        invariant Holders(next, data, size, locals, s.held)
        invariant |frees| + |queue| == n
        invariant waiters == [] && s == old(s)
        decreases |queue|
      {
        ReleaseOne();
        LinkedEnds(next, head, queue);
      }
      entry := 0;
      s := Emptied(s);
    }

    /** One turn of the loop: the first message of the queue is released. */
    method ReleaseOne()
      requires Lists() && queue != [] && Placed(place, queue, frees, locals) && Store(next, data, place, size)
      requires Holders(next, data, size, locals, s.held)
      modifies this`head, this`tail, this`free, this`next, this`queue, this`frees, this`place
      ensures Lists() && Placed(place, queue, frees, locals) && Store(next, data, place, size)
      ensures Holders(next, data, size, locals, s.held)
      ensures |queue| == |old(queue)| - 1 && |frees| == |old(frees)| + 1
    {
      hide Placed, Store, Linked, Holders;
      ghost var q := queue;
      var x := Unlink();
      QueueToFree(place, q, frees, locals);
      FirstOfQueue(next, data, place, size, q, frees, locals);
      NotTheirs(place, q, frees, locals, next, x, free, data);
      HoldersKept(next, next[x := free], data, data, size, locals, s.held);
      StorePlace(next, data, place, size, x, InFree);
      StoreNext(next, data, place[x := InFree], size, x, free);
      PutBack(x);
      place := place[x := InFree];
    }

    // ---- calls that are not interrupted ---------------------------------------------------------------

    /** A whole rt_mq_send or rt_mq_urgent: the message goes behind the others, or in front of them. */
    method Send(t: nat, payload: seq<Byte>, urgent: bool) returns (r: Result)
      requires Valid() && t !in locals
      modifies this
      ensures Valid() && r == if |payload| > size then TooLong else if old(|frees|) == 0 then Full else Done
      ensures r != Done ==> s == old(s)
      ensures r == Done ==> var m := Message(payload, urgent, |old(s).linked|);
        s.messages == (if urgent then [m] + old(s).messages else old(s).messages + [m]) && s.free == old(s).free - 1
      ensures s.held == old(s).held
    {
      hide Mq.Valid, Step, Run, Complete, Suspended;
      Sane();
      r := SendBegin(t, payload, urgent);
      if r != Done { return; }
      ghost var s1, ops: seq<Op> := s, [];
      NoOps(s1);
      while true
        invariant Valid() && s == Run(s1, ops) && forall op :: op in ops ==> op == Op.Copy(t)
        decreases |payload| + 1 - |ops|
      {
        Alone(s1, t, ops);
        FillsUp(s1, t, payload, urgent, ops);
        Same(Op.SendEnd(t));
        Same(Op.Copy(t));
        if IsComplete(locals[t]) { break; }
        Copy(t);
        OneOpMore(s1, ops, Op.Copy(t));
        ops := ops + [Op.Copy(t)];
      }
      SendWorks(old(s), t, payload, urgent, ops);
      SendEnd(t);
      assert s1.held - {t} == old(s).held;
    }

    /** A whole rt_mq_recv: the first message goes to the caller, as many of its bytes as asked for. */
    method Recv(t: nat, prio: nat, length: nat, wait: bool) returns (r: Result, out: seq<Byte>)
      requires Valid() && t !in locals
      modifies this
      ensures Valid() && r == if old(s).messages != [] then Done else if wait then Blocked else TimedOut
      ensures r != Done ==> out == [] && s.messages == []
      ensures r == Done ==> s.messages == old(s).messages[1..] && s.free == old(s).free + 1
      ensures r == Done ==> |out| == (if length < size then length else size) && SamePrefix(out, old(s).messages[0].payload)
      ensures s.held == old(s).held
    {
      hide Mq.Valid, Step, Run, Complete, Suspended, SamePrefix;
      Sane();
      out := [];
      r := RecvBegin(t, prio, length, wait);
      if r != Done { return; }
      ghost var want := if length < size then length else size;
      ghost var s1, ops: seq<Op> := s, [];
      NoOps(s1);
      while true
        invariant Valid() && s == Run(s1, ops) && forall op :: op in ops ==> op == Op.Copy(t)
        decreases want + 1 - |ops|
      {
        Alone(s1, t, ops);
        DrainsOut(s1, t, old(s).messages[0], want, ops);
        Same(Op.RecvEnd(t));
        Same(Op.Copy(t));
        if IsComplete(locals[t]) { break; }
        Copy(t);
        OneOpMore(s1, ops, Op.Copy(t));
        ops := ops + [Op.Copy(t)];
      }
      RecvWorks(old(s), t, prio, length, wait, ops);
      out := RecvEnd(t);
      assert s1.held - {t} == old(s).held;
    }

    lemma Sane()
      requires Valid()
      ensures locals.Keys == s.held.Keys && s.size == size && s.free == |frees|
      ensures |s.messages| == |queue| == entry && s.waiters == waiters && s.byPrio == byPrio
    {
    }

    predicate IsComplete(f: Local) {
      match f
      case Sending(_, payload, _, cleared, done) => cleared && done == |payload|
      case Receiving(_, want, out) => |out| == want
    }

    /** Whether the step is one that can happen now. */
    predicate CanDo(op: Op)
      reads this
    {
      match op
      case SendBegin(t, _, _) => t !in locals
      case RecvBegin(t, _, _, _) => t !in locals
      case SendEnd(t) => t in locals && locals[t].Sending? && IsComplete(locals[t])
      case RecvEnd(t) => t in locals && locals[t].Receiving? && IsComplete(locals[t])
      case Copy(t) => t in locals && !IsComplete(locals[t])
      case Expire(i) => i < |waiters|
      case Reset => true
    }

    lemma Same(op: Op)
      requires Valid()
      ensures CanDo(op) == Enabled(s, op) && locals.Keys == s.held.Keys && |waiters| == |s.waiters|
    {
      match op
      case SendBegin(_, _, _) =>
      case RecvBegin(_, _, _, _) =>
      case SendEnd(t) => if t in locals { OwnHolder(t); }
      case RecvEnd(t) => if t in locals { OwnHolder(t); }
      case Copy(t) => if t in locals { OwnHolder(t); }
      case Expire(_) =>
      case Reset =>
    }

    /** One step of a thread or a timer, if it can happen: `outs` holds the bytes that a receiver
        returns with. */
    method Perform(op: Op) returns (outs: seq<seq<Byte>>)
      requires Valid()
      modifies this
      ensures Valid() && s == Step(old(s), op)
      ensures Logged(old(s).finished, s.finished, outs)
    {
      hide Mq.Valid, Logged, Suspended, SamePrefix;
      outs := [];
      LoggedNone(s.finished);
      Same(op);
      if !CanDo(op) { return; }
      match op
      case SendBegin(t, payload, urgent) => var _ := SendBegin(t, payload, urgent);
      case SendEnd(t) => SendEnd(t);
      case RecvBegin(t, prio, length, wait) => var _ := RecvBegin(t, prio, length, wait);
      case RecvEnd(t) =>
        ghost var f := Finish(s.held[t].message, s.held[t].want);
        var out := RecvEnd(t);
        outs := [out];
        LoggedOne(old(s).finished, f, out);
      case Copy(t) => Copy(t);
      case Expire(i) => Expire(i);
      case Reset => Reset();
    }

    /** All messages together, whatever the threads do in between: the queue follows the protocol, and
        every receiver gets the bytes of the message that it took. */
    method RunAll(ops: seq<Op>) returns (outs: seq<seq<Byte>>)
      requires Valid()
      modifies this
      ensures Valid() && s == Run(old(s), ops)
      ensures Logged(old(s).finished, s.finished, outs)
    {
      hide Mq.Valid, Step, Logged;
      outs := [];
      LoggedNone(s.finished);
      for i := 0 to |ops|
        invariant Valid() && s == Run(old(s), ops[..i])
        invariant Logged(old(s).finished, s.finished, outs)
      {
        assert ops[..i + 1][..i] == ops[..i];
        ghost var before := s.finished;
        var more := Perform(ops[i]);
        LoggedMore(old(s).finished, before, s.finished, outs, more);
        outs := outs + more;
      }
      assert ops[..|ops|] == ops;
    }
  }
}
