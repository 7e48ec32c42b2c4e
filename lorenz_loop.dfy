/**
 * The render loop of the Lorenz-attractor demo: per frame, the new state is
 * appended to the trajectory buffer (the oldest point is evicted past
 * `Cap`), the camera is aimed at that newest point, and the adjacent pairs
 * of the buffer are walked to emit the line segments of the trail.
 */
module LorenzLoop {
  import opened Trail
  import opened Euler

  /**
   * The segment walk: the index pairs `(i, i + 1)` of the buffer that are
   * drawn as line segments, in drawing order. A buffer of fewer than two
   * points draws nothing.
   */
  method SegmentWalk<T>(points: seq<T>) returns (pairs: seq<(nat, nat)>)
    ensures |pairs| == if |points| > 1 then |points| - 1 else 0
    ensures forall k :: 0 <= k < |pairs| ==> pairs[k] == (k, k + 1)
    ensures forall k :: 0 <= k < |pairs| ==> pairs[k].1 < |points|
  {
    pairs := [];
    if |points| > 1 {
      var i := 0;
      while i < |points| - 1
        invariant 0 <= i <= |points| - 1
        invariant |pairs| == i
        invariant forall k :: 0 <= k < i ==> pairs[k] == (k, k + 1)
      {
        pairs := pairs + [(i, i + 1)];
        i := i + 1;
      }
    }
  }

  /** The state the loop keeps between frames: the trajectory and the camera target. */
  class Scene<T> {
    /** The trajectory buffer, oldest point first. */
    var points: seq<T>
    /** Where the camera looks. */
    var target: T
    /** Every point the loop has produced, oldest first. */
    ghost var History: seq<T>

    /**
     * The buffer holds the newest `Cap` points produced, in production
     * order, and the camera looks at the newest of them.
     */
    ghost predicate Valid()
      reads this
    {
      && points == LastN(History, Cap)
      && (points != [] ==> target == points[|points| - 1])
    }

    /** An empty trajectory; the camera target starts out as `origin` (the zeroed camera). */
    constructor (origin: T)
      ensures Valid()
      ensures points == [] && History == [] && target == origin
    {
      points := [];
      target := origin;
      History := [];
    }

    /**
     * The buffer update and camera aim of one frame, given the point the
     * integrator has just produced.
     */
    method Step(p: T)
      requires Valid()
      modifies this
      ensures Valid()
      ensures History == old(History) + [p]
      ensures points == Push(old(points), p)
      ensures target == p
    {
      points := points + [p];
      if |points| > Cap {
        points := points[1..];
      }
      target := p;
      History := History + [p];
      PushWindow(old(History), p);
    }

    /**
     * One whole frame: update the buffer and camera with `p`, then walk the
     * segments to draw.
     */
    method Frame(p: T) returns (pairs: seq<(nat, nat)>)
      requires Valid()
      modifies this
      ensures Valid()
      ensures History == old(History) + [p]
      ensures points == Push(old(points), p)
      ensures target == p
      ensures |pairs| == |points| - 1
      ensures forall k :: 0 <= k < |pairs| ==> pairs[k] == (k, k + 1)
    {
      Step(p);
      pairs := SegmentWalk(points);
    }
  }

  /**
   * The main loop run for `frames` frames (the window is closed after that
   * many): from state `start`, each frame computes the next state with
   * `step`, feeds it to the scene, and draws. `drawn[k]` is the number of
   * segments drawn in frame `k`.
   */
  method RenderLoop<T>(origin: T, start: T, step: T -> T, frames: nat)
    returns (scene: Scene<T>, drawn: seq<nat>)
    ensures fresh(scene) && scene.Valid()
    ensures scene.History == Orbit(step, start, frames)
    ensures scene.points == LastN(Orbit(step, start, frames), Cap)
    ensures frames > 0 ==> scene.target == Iterate(step, start, frames)
    ensures frames == 0 ==> scene.target == origin
    ensures |drawn| == frames
    ensures forall k :: 0 <= k < frames ==> drawn[k] == Min(k + 1, Cap) - 1
  {
    scene := new Scene(origin);
    drawn := [];
    var state := start;
    var n := 0;
    while n < frames
      invariant 0 <= n <= frames
      invariant scene.Valid()
      invariant state == Iterate(step, start, n)
      invariant scene.History == Orbit(step, start, n)
      invariant n == 0 ==> scene.target == origin
      invariant |drawn| == n
      invariant forall k :: 0 <= k < n ==> drawn[k] == Min(k + 1, Cap) - 1
    {
      state := step(state);
      var pairs := scene.Frame(state);
      OrbitExtend(step, start, n);
      drawn := drawn + [|pairs|];
      n := n + 1;
    }
    if frames > 0 {
      TrailAfterFrames(step, start, frames);
    }
  }

  /**
   * After `n > 0` frames from the empty buffer, the buffer holds the last
   * `Min(n, Cap)` states produced, and its newest point (the camera target)
   * is the state after `n` steps.
   */
  lemma TrailAfterFrames<T>(step: T -> T, start: T, n: nat)
    requires n > 0
    ensures |LastN(Orbit(step, start, n), Cap)| == Min(n, Cap)
    ensures LastN(Orbit(step, start, n), Cap)[Min(n, Cap) - 1] == Iterate(step, start, n)
  {
    OrbitAt(step, start, n, n - 1);
  }
}
