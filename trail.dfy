/**
 * The bounded trajectory buffer of the Lorenz-attractor demo, as values.
 *
 * Every frame the render loop appends the newest point to the trajectory
 * and, when that leaves more than `Cap` points, erases the front one.
 * `Push` is that one-frame update; `LastN` is the independent description
 * of what the buffer should hold: the newest `Cap` points ever produced.
 */
module Trail {

  /** Most points the trajectory keeps (the `5000` of the eviction test). */
  const Cap: nat := 5000

  function Min(a: nat, b: nat): nat
  {
    if a <= b then a else b
  }

  /** The last `n` elements of `s` (all of `s` when it is shorter), in their order. */
  function LastN<T>(s: seq<T>, n: nat): (r: seq<T>)
    ensures |r| == Min(|s|, n)
    ensures forall k :: 0 <= k < |r| ==> r[k] == s[|s| - |r| + k]
  {
    if |s| <= n then s else s[|s| - n..]
  }

  /**
   * One frame's update of the buffer: append `p`, then, if the buffer
   * now holds more than `Cap` points, erase its front element.
   */
  function Push<T>(buf: seq<T>, p: T): (r: seq<T>)
    // the buffer grows by one until it is full, then keeps its length
    ensures |r| == if |buf| < Cap then |buf| + 1 else |buf|
    ensures |buf| <= Cap ==> |r| <= Cap
    // the point of this frame always lands last
    ensures r[|r| - 1] == p
  {
    var grown := buf + [p];
    if |grown| > Cap then grown[1..] else grown
  }

  /**
   * Eviction is first-in first-out: the appended sequence is exactly the
   * result with, when the buffer was full, the single oldest point in front
   * of it. Nothing else is dropped and the order of the rest is kept.
   */
  lemma PushEvictsOnlyOldest<T>(buf: seq<T>, p: T)
    requires |buf| <= Cap
    ensures |buf| < Cap ==> Push(buf, p) == buf + [p]
    ensures |buf| == Cap ==> buf + [p] == [buf[0]] + Push(buf, p)
    ensures |buf| == Cap ==> Push(buf, p) == buf[1..] + [p]
  {
    if |buf| == Cap {
      assert (buf + [p])[1..] == buf[1..] + [p];
    }
  }

  /**
   * The update keeps the window invariant: if the buffer holds the newest
   * `Cap` points of history `h`, after pushing `p` it holds the newest `Cap`
   * points of `h + [p]`.
   */
  lemma PushWindow<T>(h: seq<T>, p: T)
    ensures Push(LastN(h, Cap), p) == LastN(h + [p], Cap)
  {
    var w := LastN(h, Cap);
    var r := Push(w, p);
    var want := LastN(h + [p], Cap);
    assert |r| == |want|;
    forall k | 0 <= k < |r|
      ensures r[k] == want[k]
    {
      if |h| < Cap {
        assert w == h;
      } else {
        assert |w| == Cap;
        assert r == (w + [p])[1..];
        if k < |r| - 1 {
          assert r[k] == w[k + 1] == h[|h| - Cap + k + 1];
        }
      }
    }
  }
}
