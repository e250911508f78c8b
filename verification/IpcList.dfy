/** The list of threads that are suspended on an IPC object: in order of arrival, or by priority
    (a lower number is more urgent) and in order of arrival among equals. */
module IpcList {

  /** A thread in a wait list, and the priority it has. */
  datatype Waiter<T> = Waiter(thread: nat, prio: nat, info: T)

  /** Where the list puts a new thread: at the end, or before the first less urgent one. */
  function Place<T>(xs: seq<Waiter<T>>, prio: nat, byPrio: bool): (k: nat)
    ensures k <= |xs|
    ensures byPrio ==> forall i :: 0 <= i < k ==> xs[i].prio <= prio
    ensures byPrio && k < |xs| ==> prio < xs[k].prio
    ensures !byPrio ==> k == |xs|
  {
    if xs == [] then 0
    else if byPrio && prio < xs[0].prio then 0
    else 1 + Place(xs[1..], prio, byPrio)
  }

  /** The list after a thread has been suspended. */
  function Suspended<T>(xs: seq<Waiter<T>>, x: Waiter<T>, byPrio: bool): (ys: seq<Waiter<T>>)
    ensures |ys| == |xs| + 1
  {
    var k := Place(xs, x.prio, byPrio);
    xs[..k] + [x] + xs[k..]
  }

  ghost predicate Sorted<T>(xs: seq<Waiter<T>>) {
    forall i, j :: 0 <= i < j < |xs| ==> xs[i].prio <= xs[j].prio
  }

  /** A list by priority stays sorted, and the new thread stands behind all that are as urgent. */
  lemma SuspendedSorted<T>(xs: seq<Waiter<T>>, x: Waiter<T>)
    requires Sorted(xs)
    ensures var ys, k := Suspended(xs, x, true), Place(xs, x.prio, true);
      && Sorted(ys) && ys[k] == x
      && (forall i :: 0 <= i < k ==> ys[i] == xs[i] && ys[i].prio <= x.prio)
      && (forall i :: k < i < |ys| ==> ys[i] == xs[i - 1] && x.prio < ys[i].prio)
  {
    var ys, k := Suspended(xs, x, true), Place(xs, x.prio, true);
    assert forall i :: 0 <= i < |ys| ==> ys[i] == if i < k then xs[i] else if i == k then x else xs[i - 1];
    hide Suspended, Place;
    AllBehind(xs, k, x.prio);
    forall i, j | 0 <= i < j < |ys|
      ensures ys[i].prio <= ys[j].prio
    {
    }
  }

  /** Where the `k`-th thread is less urgent, so are those behind it. */
  lemma AllBehind<T>(xs: seq<Waiter<T>>, k: nat, prio: nat)
    requires Sorted(xs) && k <= |xs|
    requires (forall i :: 0 <= i < k ==> xs[i].prio <= prio) && (k < |xs| ==> prio < xs[k].prio)
    ensures forall i :: k <= i < |xs| ==> prio < xs[i].prio
  {
    forall i | k <= i < |xs|
      ensures prio < xs[i].prio
    {
      assert xs[k].prio <= xs[i].prio;
    }
  }

  /** The members of the list. */
  lemma SuspendedMembers<T>(xs: seq<Waiter<T>>, x: Waiter<T>, byPrio: bool)
    ensures forall y :: y in Suspended(xs, x, byPrio) <==> y in xs || y == x
  {
    var k, ys := Place(xs, x.prio, byPrio), Suspended(xs, x, byPrio);
    assert ys[k] == x;
    forall y | y in xs
      ensures y in ys
    {
      var i :| 0 <= i < |xs| && xs[i] == y;
      assert ys[if i < k then i else i + 1] == y;
    }
  }

  /** The scan for the place of a thread in the list. */
  method FindPlace<T>(xs: seq<Waiter<T>>, prio: nat, byPrio: bool) returns (k: nat)
    ensures k == Place(xs, prio, byPrio)
  {
    k := 0;
    if !byPrio {
      NoOrder(xs, prio);
      return |xs|;
    }
    while k < |xs|
      invariant k <= |xs|
      invariant Place(xs, prio, true) == k + Place(xs[k..], prio, true)
    {
      if prio < xs[k].prio {
        return;
      }
      assert xs[k..][1..] == xs[k + 1..];
      k := k + 1;
    }
  }

  /** rt_ipc_list_suspend. */
  method Enqueue<T>(xs: seq<Waiter<T>>, x: Waiter<T>, byPrio: bool) returns (ys: seq<Waiter<T>>)
    ensures ys == Suspended(xs, x, byPrio)
  {
    var k := FindPlace(xs, x.prio, byPrio);
    ys := xs[..k] + [x] + xs[k..];
  }

  lemma NoOrder<T>(xs: seq<Waiter<T>>, prio: nat)
    ensures Place(xs, prio, false) == |xs|
  {
  }

  /** `xs` without its `i`-th member. */
  function Without<T>(xs: seq<T>, i: nat): (ys: seq<T>)
    requires i < |xs|
    ensures |ys| == |xs| - 1
    ensures forall y :: y in ys ==> y in xs
  {
    xs[..i] + xs[i + 1..]
  }

  lemma WithoutSorted<T>(xs: seq<Waiter<T>>, i: nat)
    requires Sorted(xs) && i < |xs|
    ensures Sorted(Without(xs, i))
  {
  }

  lemma RemoveAt<T>(xs: seq<T>, i: nat)
    requires i < |xs|
    ensures Without(xs, i)[..i] == xs[..i] && Without(xs, i)[i..] == xs[i + 1..]
  {
  }
}
