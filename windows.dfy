/**
 * The specification of a bounded recency window: after a stream of writes,
 * the live elements are the last min(writes, n) of them, oldest first.
 * `LastN` says it declaratively; `Replay` says it the way a ring buffer
 * does it, one overwrite-oldest `Push` per write. `ReplayIsLastN` shows
 * the two agree.
 */
module Windows {

  /** The newest min(|s|, n) elements of `s`, in their original order. */
  function LastN<T>(s: seq<T>, n: nat): (r: seq<T>)
    ensures |r| == if |s| <= n then |s| else n
  {
    if |s| <= n then s else s[|s| - n..]
  }

  /** The window is the tail of the history: what it drops is exactly the oldest elements. */
  lemma LastNIsSuffix<T>(s: seq<T>, n: nat)
    ensures LastN(s, n) == s[|s| - |LastN(s, n)|..]
  {
  }

  /** One write into a window of capacity `n`: the element goes last and, once the window is full, the oldest one goes. */
  function Push<T>(w: seq<T>, x: T, n: nat): (r: seq<T>)
    requires 0 < n && |w| <= n
    ensures 0 < |r| <= n
  {
    if |w| < n then w + [x] else w[1..] + [x]
  }

  /** The window left by writing the elements of `h` one at a time, starting from an empty window. */
  function Replay<T>(h: seq<T>, n: nat): (r: seq<T>)
    requires 0 < n
    ensures |r| <= n
  {
    if h == [] then [] else Push(Replay(h[..|h| - 1], n), h[|h| - 1], n)
  }

  /** A write moves the declarative window by exactly one overwrite-oldest step. */
  lemma {:induction false} LastNPush<T>(s: seq<T>, x: T, n: nat)
    requires 0 < n
    ensures LastN(s + [x], n) == Push(LastN(s, n), x, n)
  {
    var t := s + [x];
    if |s| >= n {
      assert LastN(s, n) == s[|s| - n..];
      assert LastN(t, n) == t[|t| - n..];
      assert t[|t| - n..] == s[|s| - n..][1..] + [x];
    }
  }

  /** FIFO eviction: replaying the writes one by one leaves exactly the newest min(|h|, n) of them, in write order. */
  lemma {:induction false} ReplayIsLastN<T>(h: seq<T>, n: nat)
    requires 0 < n
    ensures Replay(h, n) == LastN(h, n)
  {
    if h != [] {
      var p := h[..|h| - 1];
      assert h == p + [h[|h| - 1]];
      ReplayIsLastN(p, n);
      LastNPush(p, h[|h| - 1], n);
    }
  }

  /** Writing e1..e(n+k) leaves e(k+1)..e(n+k); fewer than n writes are all kept. */
  lemma FifoEviction<T>(h: seq<T>, n: nat, k: nat)
    requires 0 < n
    ensures |h| == n + k ==> Replay(h, n) == h[k..]
    ensures |h| <= n ==> Replay(h, n) == h
  {
    ReplayIsLastN(h, n);
  }

  /** Truncating a window of the newest `a` to its newest `b` is the window of the newest min(a, b). */
  lemma LastNOfLastN<T>(s: seq<T>, a: nat, b: nat)
    ensures LastN(LastN(s, a), b) == LastN(s, if a <= b then a else b)
  {
  }
}
