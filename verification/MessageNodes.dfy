/** The nodes of a message queue: each one is in the free list, in the queue, or privately held by a
    thread that is copying a message in or out. */
module MessageNodes {
  import opened Bytes
  import DoubleLinks
  import opened IpcList
  import opened MessageProtocol

  const NULL: int := 0

  /** Where a node is. */
  datatype Place = InQueue | InFree | With(thread: nat)

  /** The local variables of a thread inside a send or a receive: the node it holds, and how far the
      copy has come. */
  datatype Local =
    | Sending(node: int, payload: seq<Byte>, urgent: bool, cleared: bool, done: nat)
    | Receiving(node: int, want: nat, out: seq<Byte>)

  /** The `i`-th node links to the next one, the last one to nothing. */
  ghost predicate LinkAt(next: map<int, int>, xs: seq<int>, i: nat)
    requires i < |xs|
  {
    xs[i] in next && next[xs[i]] == if i + 1 < |xs| then xs[i + 1] else NULL
  }

  /** From `head` on, the links lead through `xs`. */
  ghost predicate Linked(next: map<int, int>, head: int, xs: seq<int>) {
    && head == (if xs == [] then NULL else xs[0])
    && DoubleLinks.Distinct(xs) && NULL !in xs
    && forall i :: 0 <= i < |xs| ==> LinkAt(next, xs, i)
  }

  /** Links of other nodes do not matter. */
  lemma LinkedKept(next: map<int, int>, head: int, xs: seq<int>, x: int, y: int)
    requires Linked(next, head, xs) && x !in xs
    ensures Linked(next[x := y], head, xs)
  {
    var next' := next[x := y];
    forall i | 0 <= i < |xs|
      ensures LinkAt(next', xs, i)
    {
      assert LinkAt(next, xs, i) && xs[i] in xs;
    }
  }

  /** A node is put before the first one. */
  lemma LinkedPush(next: map<int, int>, head: int, xs: seq<int>, x: int)
    requires Linked(next, head, xs) && x !in xs && x != NULL
    ensures Linked(next[x := head], x, [x] + xs)
  {
    var ys, next' := [x] + xs, next[x := head];
    forall i | 0 <= i < |ys|
      ensures LinkAt(next', ys, i)
    {
      if i > 0 { assert LinkAt(next, xs, i - 1) && xs[i - 1] in xs; }
    }
  }

  /** The first node is taken off. */
  lemma LinkedPop(next: map<int, int>, head: int, xs: seq<int>)
    requires Linked(next, head, xs) && xs != []
    ensures head == xs[0] != NULL && head in next && Linked(next, next[head], xs[1..]) && head !in xs[1..]
    ensures DoubleLinks.Distinct(xs)
  {
    assert LinkAt(next, xs, 0) && xs[0] in xs;
    forall i | 0 <= i < |xs| - 1
      ensures LinkAt(next, xs[1..], i)
    {
      assert LinkAt(next, xs, i + 1);
    }
  }

  /** A node without successor is put behind the last one. */
  lemma LinkedAppend(next: map<int, int>, head: int, xs: seq<int>, x: int)
    requires Linked(next, head, xs) && x !in xs && x != NULL && x in next && next[x] == NULL
    ensures xs == [] ==> Linked(next, x, [x])
    ensures xs != [] ==> Linked(next[xs[|xs| - 1] := x], head, xs + [x])
  {
    if xs != [] {
      var ys, n := xs + [x], next[xs[|xs| - 1] := x];
      forall i | 0 <= i < |ys|
        ensures LinkAt(n, ys, i)
      {
        if i < |xs| { assert LinkAt(next, xs, i); }
      }
    }
  }

  // ---- where the nodes are ------------------------------------------------------------------------

  /** Every node is in exactly one place. */
  ghost predicate Placed(place: map<int, Place>, queue: seq<int>, free: seq<int>, locals: map<nat, Local>) {
    && (forall x :: x in queue <==> x in place && place[x] == InQueue)
    && (forall x :: x in free <==> x in place && place[x] == InFree)
    && (forall t :: t in locals ==> locals[t].node in place && place[locals[t].node] == With(t))
    && (forall x :: x in place && place[x].With? ==> place[x].thread in locals && locals[place[x].thread].node == x)
  }

  lemma Tail(xs: seq<int>)
    requires DoubleLinks.Distinct(xs) && xs != []
    ensures forall x :: x in xs[1..] <==> x in xs && x != xs[0]
  {
    assert xs == [xs[0]] + xs[1..];
    forall x | x in xs[1..]
      ensures x != xs[0]
    {
      var i :| 0 <= i < |xs| - 1 && xs[1..][i] == x;
      assert xs[i + 1] == x;
    }
  }

  lemma QueueToThread(place: map<int, Place>, queue: seq<int>, free: seq<int>, locals: map<nat, Local>, t: nat, f: Local)
    requires Placed(place, queue, free, locals) && queue != [] && DoubleLinks.Distinct(queue) && t !in locals && f.node == queue[0]
    ensures Placed(place[queue[0] := With(t)], queue[1..], free, locals[t := f])
  {
    Tail(queue);
  }

  lemma FreeToThread(place: map<int, Place>, queue: seq<int>, free: seq<int>, locals: map<nat, Local>, t: nat, f: Local)
    requires Placed(place, queue, free, locals) && free != [] && DoubleLinks.Distinct(free) && t !in locals && f.node == free[0]
    ensures Placed(place[free[0] := With(t)], queue, free[1..], locals[t := f])
  {
    Tail(free);
  }

  lemma ThreadToFree(place: map<int, Place>, queue: seq<int>, free: seq<int>, locals: map<nat, Local>, t: nat)
    requires Placed(place, queue, free, locals) && t in locals
    ensures locals[t].node !in free && locals[t].node !in queue
    ensures Placed(place[locals[t].node := InFree], queue, [locals[t].node] + free, locals - {t})
  {
  }

  lemma ThreadToQueue(place: map<int, Place>, queue: seq<int>, free: seq<int>, locals: map<nat, Local>, t: nat, urgent: bool)
    requires Placed(place, queue, free, locals) && t in locals
    ensures locals[t].node !in free && locals[t].node !in queue
    ensures Placed(place[locals[t].node := InQueue],
                   if urgent then [locals[t].node] + queue else queue + [locals[t].node], free, locals - {t})
  {
  }

  lemma QueueToFree(place: map<int, Place>, queue: seq<int>, free: seq<int>, locals: map<nat, Local>)
    requires Placed(place, queue, free, locals) && queue != [] && DoubleLinks.Distinct(queue)
    ensures queue[0] !in free
    ensures Placed(place[queue[0] := InFree], queue[1..], [queue[0]] + free, locals)
  {
    Tail(queue);
  }

  lemma SameHolder(place: map<int, Place>, queue: seq<int>, free: seq<int>, locals: map<nat, Local>, t: nat, f: Local)
    requires Placed(place, queue, free, locals) && t in locals && f.node == locals[t].node
    ensures Placed(place, queue, free, locals[t := f])
    ensures f.node !in free && f.node !in queue
  {
  }

  // ---- what the nodes hold ------------------------------------------------------------------------

  ghost predicate Store(next: map<int, int>, data: map<int, seq<Byte>>, place: map<int, Place>, size: nat) {
    NULL !in place && forall x :: x in place ==> x in next && x in data && |data[x]| == size
  }

  ghost predicate CarriesAt(data: map<int, seq<Byte>>, x: int, m: Message) {
    x in data && m.payload <= data[x]
  }

  /** The nodes of the queue hold the messages. */
  ghost predicate Carries(data: map<int, seq<Byte>>, queue: seq<int>, messages: seq<Message>) {
    |queue| == |messages| && forall i :: 0 <= i < |queue| ==> CarriesAt(data, queue[i], messages[i])
  }

  /** What a thread has copied so far agrees with its node. */
  ghost predicate Holder(next: map<int, int>, data: map<int, seq<Byte>>, size: nat, f: Local, h: Held) {
    && f.node in next && f.node in data && |data[f.node]| == size
    && match f
       case Sending(x, payload, urgent, cleared, done) =>
         && h == Filling(payload, urgent, cleared, done)
         && done <= |payload| <= size && data[x][..done] == payload[..done]
         && (if cleared then !urgent ==> next[x] == NULL else done == 0)
       case Receiving(x, want, out) =>
         && h.Emptying? && h.want == want && h.done == |out|
         && |out| <= want <= size && out == data[x][..|out|] && h.message.payload <= data[x]
  }

  ghost predicate Holders(next: map<int, int>, data: map<int, seq<Byte>>, size: nat,
                          locals: map<nat, Local>, held: map<nat, Held>) {
    && locals.Keys == held.Keys
    && forall t :: t in locals ==> Holder(next, data, size, locals[t], held[t])
  }

  /** The nodes that threads hold are as before. */
  ghost predicate Untouched(next: map<int, int>, next': map<int, int>, data: map<int, seq<Byte>>,
                            data': map<int, seq<Byte>>, locals: map<nat, Local>) {
    forall t :: t in locals ==> SameNode(next, next', data, data', locals[t].node)
  }

  ghost predicate SameNode(next: map<int, int>, next': map<int, int>, data: map<int, seq<Byte>>,
                           data': map<int, seq<Byte>>, x: int) {
    && (x in next ==> x in next' && next'[x] == next[x])
    && (x in data ==> x in data' && data'[x] == data[x])
  }

  lemma HoldersKept(next: map<int, int>, next': map<int, int>, data: map<int, seq<Byte>>, data': map<int, seq<Byte>>,
                    size: nat, locals: map<nat, Local>, held: map<nat, Held>)
    requires Holders(next, data, size, locals, held) && Untouched(next, next', data, data', locals)
    ensures Holders(next', data', size, locals, held)
  {
    forall t | t in locals
      ensures Holder(next', data', size, locals[t], held[t])
    {
      assert SameNode(next, next', data, data', locals[t].node);
    }
  }

  lemma HoldersLess(next: map<int, int>, data: map<int, seq<Byte>>, size: nat,
                    locals: map<nat, Local>, held: map<nat, Held>, t: nat)
    requires Holders(next, data, size, locals, held) && t in locals
    ensures Holders(next, data, size, locals - {t}, held - {t}) && Holder(next, data, size, locals[t], held[t])
  {
  }

  lemma HoldersMore(next: map<int, int>, data: map<int, seq<Byte>>, size: nat,
                    locals: map<nat, Local>, held: map<nat, Held>, t: nat, f: Local, h: Held)
    requires Holders(next, data, size, locals, held) && Holder(next, data, size, f, h)
    ensures Holders(next, data, size, locals[t := f], held[t := h])
  {
  }

  /** A thread goes on with its own node. */
  lemma HoldersGoOn(next: map<int, int>, next': map<int, int>, data: map<int, seq<Byte>>, data': map<int, seq<Byte>>,
                    size: nat, locals: map<nat, Local>, held: map<nat, Held>, t: nat, f: Local, h: Held)
    requires Holders(next, data, size, locals, held) && t in locals
    requires Untouched(next, next', data, data', locals - {t}) && Holder(next', data', size, f, h)
    ensures Holders(next', data', size, locals[t := f], held[t := h])
  {
    HoldersLess(next, data, size, locals, held, t);
    HoldersKept(next, next', data, data', size, locals - {t}, held - {t});
    HoldersMore(next', data', size, locals - {t}, held - {t}, t, f, h);
    assert (locals - {t})[t := f] == locals[t := f];
    assert (held - {t})[t := h] == held[t := h];
  }

  /** Each thread has a node of its own. */
  lemma OwnNode(place: map<int, Place>, queue: seq<int>, free: seq<int>, locals: map<nat, Local>,
                next: map<int, int>, next': map<int, int>, data: map<int, seq<Byte>>, data': map<int, seq<Byte>>, t: nat)
    requires Placed(place, queue, free, locals) && t in locals
    requires forall x :: x in place && x != locals[t].node ==> SameNode(next, next', data, data', x)
    ensures Untouched(next, next', data, data', locals - {t})
  {
  }

  /** Changes of nodes in the queue or in the free list do not touch the threads. */
  lemma NotTheirs(place: map<int, Place>, queue: seq<int>, free: seq<int>, locals: map<nat, Local>,
                  next: map<int, int>, x: int, y: int, data: map<int, seq<Byte>>)
    requires Placed(place, queue, free, locals) && (x in queue || x in free)
    ensures Untouched(next, next[x := y], data, data, locals)
  {
  }

  lemma CarriesKept(data: map<int, seq<Byte>>, queue: seq<int>, messages: seq<Message>, x: int, y: seq<Byte>)
    requires Carries(data, queue, messages) && x !in queue
    ensures Carries(data[x := y], queue, messages)
  {
    var data' := data[x := y];
    forall i | 0 <= i < |queue|
      ensures CarriesAt(data', queue[i], messages[i])
    {
      assert CarriesAt(data, queue[i], messages[i]) && queue[i] in queue;
    }
  }

  lemma CarriesMore(data: map<int, seq<Byte>>, queue: seq<int>, messages: seq<Message>, x: int, m: Message)
    requires Carries(data, queue, messages) && CarriesAt(data, x, m)
    ensures Carries(data, [x] + queue, [m] + messages) && Carries(data, queue + [x], messages + [m])
  {
    var q, ms := [x] + queue, [m] + messages;
    forall i | 0 <= i < |q|
      ensures CarriesAt(data, q[i], ms[i])
    {
      if i > 0 { assert CarriesAt(data, queue[i - 1], messages[i - 1]); }
    }
  }

  lemma CarriesLess(data: map<int, seq<Byte>>, queue: seq<int>, messages: seq<Message>)
    requires Carries(data, queue, messages) && queue != []
    ensures messages != [] && CarriesAt(data, queue[0], messages[0]) && Carries(data, queue[1..], messages[1..])
  {
    forall i | 0 <= i < |queue| - 1
      ensures CarriesAt(data, queue[1..][i], messages[1..][i])
    {
      assert CarriesAt(data, queue[i + 1], messages[i + 1]);
    }
  }

  function Last(xs: seq<int>): int {
    if xs == [] then NULL else xs[|xs| - 1]
  }

  lemma StorePlace(next: map<int, int>, data: map<int, seq<Byte>>, place: map<int, Place>, size: nat, x: int, p: Place)
    requires Store(next, data, place, size) && x in place
    ensures Store(next, data, place[x := p], size)
  {
  }

  lemma StoreNext(next: map<int, int>, data: map<int, seq<Byte>>, place: map<int, Place>, size: nat, x: int, y: int)
    requires Store(next, data, place, size)
    ensures Store(next[x := y], data, place, size)
  {
  }

  lemma LinkedEnds(next: map<int, int>, head: int, xs: seq<int>)
    requires Linked(next, head, xs)
    ensures (head == NULL <==> xs == []) && (Last(xs) == NULL <==> xs == []) && (xs != [] ==> Last(xs) in xs)
  {
    if xs != [] {
      assert xs[0] in xs && xs[|xs| - 1] in xs;
    }
  }

  /** Linking a node behind the queue does not touch the other threads. */
  lemma BackNode(place: map<int, Place>, queue: seq<int>, free: seq<int>, locals: map<nat, Local>,
                 next: map<int, int>, x: int, data: map<int, seq<Byte>>, t: nat)
    requires Placed(place, queue, free, locals)
    ensures Untouched(next, if queue == [] then next else next[Last(queue) := x], data, data, locals - {t})
    ensures forall y :: y in queue ==> y !in free
  {
    if queue != [] {
      assert Last(queue) in queue;
    }
  }

  lemma FirstOfQueue(next: map<int, int>, data: map<int, seq<Byte>>, place: map<int, Place>, size: nat,
                     queue: seq<int>, free: seq<int>, locals: map<nat, Local>)
    requires Placed(place, queue, free, locals) && Store(next, data, place, size)
    requires queue != [] && DoubleLinks.Distinct(queue)
    ensures queue[0] in queue && queue[0] in place && queue[0] != NULL && queue[0] !in queue[1..]
  {
    var x := queue[0];
    assert x in queue;
    assert x in place;
    Tail(queue);
  }

  lemma StoreData(next: map<int, int>, data: map<int, seq<Byte>>, place: map<int, Place>, size: nat, x: int, b: seq<Byte>)
    requires Store(next, data, place, size) && |b| == size
    ensures Store(next, data[x := b], place, size)
  {
  }

  lemma FillsOne(next: map<int, int>, data: map<int, seq<Byte>>, size: nat, f: Local, h: Held)
    requires Holder(next, data, size, f, h) && f.Sending? && f.cleared && !Complete(h)
    ensures f.node in next && f.node in data && |data[f.node]| == size && f.done < |f.payload| <= size
    ensures h == Filling(f.payload, f.urgent, true, f.done)
    ensures Holder(next, data[f.node := data[f.node][f.done := f.payload[f.done]]], size,
                   Sending(f.node, f.payload, f.urgent, true, f.done + 1), Filling(f.payload, f.urgent, true, f.done + 1))
  {
    assert f.payload[..f.done + 1] == f.payload[..f.done] + [f.payload[f.done]];
  }

  lemma ClearsLink(next: map<int, int>, data: map<int, seq<Byte>>, size: nat, f: Local, h: Held)
    requires Holder(next, data, size, f, h) && f.Sending? && !f.cleared
    ensures f.node in next && h == Filling(f.payload, f.urgent, false, f.done)
    ensures Holder(next[f.node := NULL], data, size,
                   Sending(f.node, f.payload, f.urgent, true, f.done), Filling(f.payload, f.urgent, true, f.done))
  {
  }

  lemma TakesOne(next: map<int, int>, data: map<int, seq<Byte>>, size: nat, f: Local, h: Held)
    requires Holder(next, data, size, f, h) && f.Receiving? && !Complete(h)
    ensures f.node in data && |data[f.node]| == size && |f.out| < f.want <= size
    ensures h.Emptying? && h.want == f.want && h.done == |f.out|
    ensures Holder(next, data, size, Receiving(f.node, f.want, f.out + [data[f.node][|f.out|]]),
                   Emptying(h.message, f.want, |f.out| + 1))
  {
    assert data[f.node][..|f.out| + 1] == data[f.node][..|f.out|] + [data[f.node][|f.out|]];
  }

  lemma FreeHolder(next: map<int, int>, data: map<int, seq<Byte>>, place: map<int, Place>, size: nat,
                   queue: seq<int>, free: seq<int>, locals: map<nat, Local>, payload: seq<Byte>, urgent: bool)
    requires Placed(place, queue, free, locals) && Store(next, data, place, size)
    requires free != [] && |payload| <= size
    ensures Holder(next, data, size, Sending(free[0], payload, urgent, urgent, 0), Filling(payload, urgent, urgent, 0))
    ensures free[0] in place
  {
    assert free[0] in free;
  }

  lemma QueueHolder(next: map<int, int>, data: map<int, seq<Byte>>, place: map<int, Place>, size: nat,
                    queue: seq<int>, free: seq<int>, locals: map<nat, Local>, messages: seq<Message>, want: nat)
    requires Placed(place, queue, free, locals) && Store(next, data, place, size) && Carries(data, queue, messages)
    requires queue != [] && want <= size
    ensures messages != [] && queue[0] in place
    ensures Holder(next, data, size, Receiving(queue[0], want, []), Emptying(messages[0], want, 0))
  {
    assert queue[0] in queue;
    CarriesLess(data, queue, messages);
  }

  /** Where the `i`-th node of the pool is; a node has a link and room for a message. */
  function NodeAt(pool: nat, size: nat, i: nat): nat {
    pool + i * (size + 4)
  }

  /** How many nodes fit into `length` bytes. */
  function SlotsFor(length: nat, size: nat): nat {
    length / (size + 4)
  }

  /** The nodes do not overlap and lie between `lo` and `hi`. */
  ghost predicate Apart(place: map<int, Place>, size: nat, lo: nat, hi: nat) {
    && (forall x :: x in place ==> lo <= x && x + 4 + size <= hi)
    && (forall x, y :: x in place && y in place && x < y ==> x + 4 + size <= y)
  }

  /** As many as fit: one more would not. */
  lemma MostSlots(length: nat, size: nat)
    ensures SlotsFor(length, size) * (size + 4) <= length < (SlotsFor(length, size) + 1) * (size + 4)
  {
    var w := size + 4;
    assert length == length / w * w + length % w;
    assert (length / w + 1) * w == length / w * w + w;
  }

  lemma NodeInside(pool: nat, size: nat, i: nat, length: nat)
    requires i <= SlotsFor(length, size)
    ensures NodeAt(pool, size, i) <= pool + length
    ensures i < SlotsFor(length, size) ==> i * (size + 4) + 4 + size <= length
    ensures NodeAt(pool, size, i + 1) == NodeAt(pool, size, i) + size + 4
  {
    var w := size + 4;
    assert length == length / w * w + length % w;
    assert i * w <= length / w * w;
    if i < length / w {
      assert (i + 1) * w <= length / w * w;
    }
    assert (i + 1) * w == i * w + w;
  }

  lemma NothingYet(size: nat, pool: nat)
    ensures Linked(map[], NULL, []) && Placed(map[], [], [], map[]) && Store(map[], map[], map[], size)
    ensures Apart(map[], size, pool, pool) && Last([]) == NULL
  {
  }

  lemma ApartWider(place: map<int, Place>, size: nat, lo: nat, hi: nat, top: nat)
    requires Apart(place, size, lo, hi) && hi <= top
    ensures Apart(place, size, lo, top)
  {
  }

  /** What a receiver returned with. */
  ghost predicate Delivered(out: seq<Byte>, f: Finish) {
    |out| == f.want && SamePrefix(out, f.message.payload)
  }

  /** The receivers that have returned since, and the bytes that each of them got. */
  ghost predicate Logged(before: seq<Finish>, after: seq<Finish>, outs: seq<seq<Byte>>) {
    && |after| == |before| + |outs| && after[..|before|] == before
    && forall k :: 0 <= k < |outs| ==> Delivered(outs[k], after[|before| + k])
  }

  lemma LoggedNone(before: seq<Finish>)
    ensures Logged(before, before, [])
  {
  }

  lemma LoggedOne(before: seq<Finish>, f: Finish, out: seq<Byte>)
    requires Delivered(out, f)
    ensures Logged(before, before + [f], [out])
  {
  }

  lemma LoggedMore(a: seq<Finish>, b: seq<Finish>, c: seq<Finish>, outs: seq<seq<Byte>>, more: seq<seq<Byte>>)
    requires Logged(a, b, outs) && Logged(b, c, more)
    ensures Logged(a, c, outs + more)
  {
    forall k | 0 <= k < |outs + more|
      ensures Delivered((outs + more)[k], c[|a| + k])
    {
      if k < |outs| {
        assert c[..|b|][|a| + k] == b[|a| + k];
      } else {
        assert Delivered(more[k - |outs|], c[|b| + (k - |outs|)]);
      }
    }
    assert c[..|a|] == c[..|b|][..|a|];
  }
}
