/**
 * The point history of the decorative mouse trail (`MouseTrail` in
 * script.js). Each animation frame appends the current mouse position and,
 * when the history is longer than `maxLength`, drops the oldest point.
 * Drawing and the per-point `life` field are not modelled.
 */
module MouseTrail {

  import opened Basics

  /** `CONFIG.mouseTrailLength`. */
  const MaxLength: nat := 20

  /** A mouse position in viewport coordinates. */
  datatype Point = Point(x: int, y: int)

  /** The queue update of one `animate` frame. */
  function Push(trail: seq<Point>, p: Point): (t: seq<Point>)
    // At most one point is dropped, and only when the bound is exceeded.
    ensures |t| == if |trail| + 1 > MaxLength then |trail| else |trail| + 1
    ensures |trail| <= MaxLength ==> |t| <= MaxLength
    // The result is the newest part of the old trail followed by the new point.
    ensures |t| > 0 && t[|t| - 1] == p
    ensures forall k :: 0 <= k < |t| - 1 ==> t[k] == trail[|trail| + 1 - |t| + k]
  {
    var pushed := trail + [p];
    if |pushed| > MaxLength then pushed[1..] else pushed
  }

  /** The trail after one frame per sampled position, starting from the empty trail. */
  function Frames(positions: seq<Point>): (t: seq<Point>)
    ensures |t| <= MaxLength
    ensures positions != [] ==> |t| > 0 && t[|t| - 1] == positions[|positions| - 1]
  {
    if positions == [] then []
    else Push(Frames(positions[..|positions| - 1]), positions[|positions| - 1])
  }

  /** One frame below the bound keeps every position. */
  lemma FrameBelowBound(init: seq<Point>, x: Point)
    requires |init| < MaxLength && Frames(init) == init
    ensures Frames(init + [x]) == init + [x]
  {
    var w := init + [x];
    assert w[..|w| - 1] == init;
    assert Frames(w) == Push(init, x);
    assert |w| <= MaxLength;
  }

  /** One frame at the bound drops the oldest position. */
  lemma FrameAtBound(init: seq<Point>, x: Point)
    requires |init| >= MaxLength && Frames(init) == init[|init| - MaxLength..]
    ensures Frames(init + [x]) == (init + [x])[|init| + 1 - MaxLength..]
  {
    var w := init + [x];
    assert w[..|w| - 1] == init && w[|w| - 1] == x;
    PushAtBound(init[|init| - MaxLength..], x);
    SuffixStep(init, x, MaxLength);
  }

  /** A full trail loses its oldest point. */
  lemma PushAtBound(t: seq<Point>, x: Point)
    requires |t| == MaxLength
    ensures Push(t, x) == t[1..] + [x]
  {
    assert (t + [x])[1..] == t[1..] + [x];
  }

  /** Dropping the oldest of the newest `m` and appending `x` gives the newest `m` of the extended sequence. */
  lemma SuffixStep(init: seq<Point>, x: Point, m: nat)
    requires 1 <= m <= |init|
    ensures init[|init| - m..][1..] + [x] == (init + [x])[|init| + 1 - m..]
  {
    assert init[|init| - m..][1..] == init[|init| + 1 - m..];
  }

  /** The trail always holds the newest `min(frames, MaxLength)` positions, oldest first. */
  lemma {:induction false} TrailKeepsNewest(positions: seq<Point>)
    ensures Frames(positions) == positions[|positions| - Min(|positions|, MaxLength)..]
  {
    if positions != [] {
      var n := |positions| - 1;
      var init := positions[..n];
      TrailKeepsNewest(init);
      assert positions == init + [positions[n]];
      if n < MaxLength {
        FrameBelowBound(init, positions[n]);
      } else {
        FrameAtBound(init, positions[n]);
      }
    }
  }
}
