/** A queue in a buffer that is used round and round. */
module Ring {

  /** `p` taken round a buffer of `n` bytes, at most once. */
  function Wrap(p: nat, n: nat): (q: nat)
    requires p < 2 * n
    ensures q < n
  {
    if p < n then p else p - n
  }

  /** The `n` bytes of the buffer `b` from index `r` on, going round at its end. */
  function Queue<T>(b: seq<T>, r: nat, n: nat): (q: seq<T>)
    requires r < |b| && n <= |b|
    ensures |q| == n
  {
    seq(n, k requires 0 <= k < n => b[Wrap(r + k, |b|)])
  }

  /** `k` bytes from index `r` on, as one or two slices of the buffer. */
  function Slices<T>(b: seq<T>, r: nat, k: nat): (s: seq<T>)
    requires r < |b| && k <= |b|
    ensures |s| == k
  {
    if |b| - r > k then b[r..r + k] else b[r..] + b[..k - (|b| - r)]
  }

  lemma SliceOne<T>(b: seq<T>, r: nat)
    requires r < |b|
    ensures Slices(b, r, 1) == [b[r]]
  {
  }

  /** Reading from the front. */
  lemma QueueFront<T>(b: seq<T>, r: nat, n: nat, k: nat)
    requires r < |b| && k <= n <= |b|
    ensures Queue(b, r, n) == Slices(b, r, k) + Queue(b, Wrap(r + k, |b|), n - k)
  {
    var q := Slices(b, r, k) + Queue(b, Wrap(r + k, |b|), n - k);
    forall j | 0 <= j < n
      ensures Queue(b, r, n)[j] == q[j]
    {
      assert Queue(b, r, n)[j] == b[Wrap(r + j, |b|)];
      if j < k {
        assert q[j] == Slices(b, r, k)[j] == b[Wrap(r + j, |b|)];
      } else {
        assert Wrap(Wrap(r + k, |b|) + (j - k), |b|) == Wrap(r + j, |b|);
        assert q[j] == Queue(b, Wrap(r + k, |b|), n - k)[j - k] == b[Wrap(Wrap(r + k, |b|) + (j - k), |b|)];
      }
    }
  }

  /** `b'` is `b` with `x` written from index `w` on, going round at the end. */
  ghost predicate Written<T>(b: seq<T>, b': seq<T>, w: nat, x: seq<T>)
    requires w < |b|
  {
    && |b'| == |b| && |x| <= |b|
    && forall p :: 0 <= p < |b| ==>
         b'[p] == if w <= p < w + |x| then x[p - w] else if p + |b| < w + |x| then x[p + |b| - w] else b[p]
  }

  /** Writing behind the end. */
  lemma QueueBack<T>(b: seq<T>, b': seq<T>, r: nat, n: nat, x: seq<T>)
    requires r < |b| && n + |x| <= |b| && Written(b, b', Wrap(r + n, |b|), x)
    ensures Queue(b', r, n + |x|) == Queue(b, r, n) + x
  {
    var w := Wrap(r + n, |b|);
    forall k | 0 <= k < n + |x|
      ensures Queue(b', r, n + |x|)[k] == (Queue(b, r, n) + x)[k]
    {
      var p := Wrap(r + k, |b|);
      if k < n {
        assert !(w <= p < w + |x|) && !(p + |b| < w + |x|);
      } else {
        assert if w <= p then p == w + (k - n) else p + |b| == w + (k - n);
      }
    }
  }

  /** Writing over the oldest byte of a full buffer. */
  lemma QueueOverwritten<T>(b: seq<T>, r: nat, x: T)
    requires r < |b|
    ensures Queue(b[r := x], Wrap(r + 1, |b|), |b|) == Queue(b, r, |b|)[1..] + [x]
  {
    hide Queue;
    QueueFront(b, r, |b|, 1);
    SliceOne(b, r);
    QueueBack(b, b[r := x], Wrap(r + 1, |b|), |b| - 1, [x]);
  }

  /** Writing one byte behind the end. */
  lemma QueueMore<T>(b: seq<T>, r: nat, n: nat, x: T)
    requires r < |b| && n < |b|
    ensures Queue(b[Wrap(r + n, |b|) := x], r, n + 1) == Queue(b, r, n) + [x]
  {
    hide Queue;
    QueueBack(b, b[Wrap(r + n, |b|) := x], r, n, [x]);
  }
}
