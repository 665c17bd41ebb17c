/** The rising firework (`EnhancedFirework`) as a value: its fading trail, one
    flight step of `update`, and the stop test that triggers the explosion.
    `Math.hypot` is supplied by the caller. */
module Fireworks {

  /** A remembered position with its own opacity. */
  datatype Point = Point(x: real, y: real, alpha: real)

  const TrailLength: nat := 8
  const TrailFade: real := 0.1
  const FireworkGravity: real := 0.15
  const NearTarget: real := 15.0
  const MaxRise: real := 500.0

  datatype Firework = Firework(
    x: real, y: real, startY: real, targetX: real, targetY: real,
    vx: real, vy: real, hue: int, brightness: int,
    trail: seq<Point>, isSuper: bool,
    sparkleInterval: real,  // seconds between in-flight sparkle bursts
    lastSparkle: real)      // time stamp (ms) of the last burst

  // ---------------------------------------------------------------------
  // The trail

  /** Every point one tenth fainter, positions untouched. */
  function Faded(trail: seq<Point>): (r: seq<Point>)
    ensures |r| == |trail|
  {
    seq(|trail|, k requires 0 <= k < |trail| => trail[k].(alpha := trail[k].alpha - TrailFade))
  }

  /** `this.trail.forEach(point => point.alpha -= 0.1)` */
  method FadeTrail(trail: seq<Point>) returns (r: seq<Point>)
    ensures |r| == |trail|
    ensures forall k :: 0 <= k < |trail| ==>
      r[k].x == trail[k].x && r[k].y == trail[k].y && r[k].alpha == trail[k].alpha - TrailFade
    ensures r == Faded(trail)
  {
    r := trail;
    for k := 0 to |r|
      invariant |r| == |trail|
      invariant forall j :: 0 <= j < k ==> r[j] == trail[j].(alpha := trail[j].alpha - TrailFade)
      invariant forall j :: k <= j < |r| ==> r[j] == trail[j]
    {
      r := r[k := r[k].(alpha := r[k].alpha - TrailFade)];
    }
  }

  /** Push the current position at full opacity and drop the oldest point
      when the trail has grown past eight. */
  function Pushed(trail: seq<Point>, x: real, y: real): seq<Point> {
    var t := trail + [Point(x, y, 1.0)];
    if |t| > TrailLength then t[1..] else t
  }

  /** The trail after one flight step. */
  function TrailStep(trail: seq<Point>, x: real, y: real): seq<Point> {
    Faded(Pushed(trail, x, y))
  }

  /** A trail is a bounded FIFO: the newest point is the position before the
      move at opacity 0.9, the older points are the previous trail one tenth
      fainter, and the oldest is dropped only when eight were already held. */
  lemma TrailFifo(trail: seq<Point>, x: real, y: real)
    requires |trail| <= TrailLength
    ensures var r := TrailStep(trail, x, y);
      |r| <= TrailLength
      && |r| == (if |trail| < TrailLength then |trail| + 1 else TrailLength)
      && r[|r| - 1] == Point(x, y, 1.0 - TrailFade)
      && (|trail| < TrailLength ==> r[..|r| - 1] == Faded(trail))
      && (|trail| == TrailLength ==> r[..|r| - 1] == Faded(trail[1..]))
  {
    var r := TrailStep(trail, x, y);
    if |trail| < TrailLength {
      assert r[..|r| - 1] == Faded(trail);
    } else {
      assert r[..|r| - 1] == Faded(trail[1..]);
    }
  }

  /** The shape every trail in flight has: at most eight points, the point
      pushed k frames ago at opacity 1 - k/10. */
  predicate TrailShaped(trail: seq<Point>) {
    |trail| <= TrailLength
    && forall k :: 0 <= k < |trail| ==> trail[k].alpha == 1.0 - (|trail| - k) as real * TrailFade
  }

  lemma TrailStepKeepsShape(trail: seq<Point>, x: real, y: real)
    requires TrailShaped(trail)
    ensures TrailShaped(TrailStep(trail, x, y))
  {
    var t := trail + [Point(x, y, 1.0)];
    var p := Pushed(trail, x, y);
    var r := TrailStep(trail, x, y);
    assert forall k :: 0 <= k < |t| ==> t[k].alpha == 1.0 - (|t| - 1 - k) as real * TrailFade;
    if |t| > TrailLength {
      assert forall k :: 0 <= k < |p| ==> p[k] == t[k + 1];
    }
    assert forall k :: 0 <= k < |p| ==> p[k].alpha == 1.0 - (|p| - 1 - k) as real * TrailFade;
  }

  /** Hence every trail point is visible: opacity between 0.2 and 0.9. */
  lemma TrailShapedVisible(trail: seq<Point>)
    requires TrailShaped(trail)
    ensures forall k :: 0 <= k < |trail| ==> 0.2 <= trail[k].alpha <= 0.9
  {
  }

  // ---------------------------------------------------------------------
  // One flight step

  /** `currentTime - this.lastSparkle > this.sparkleInterval * 1000` */
  predicate SparkleDue(f: Firework, now: real) {
    now - f.lastSparkle > f.sparkleInterval * 1000.0
  }

  /** The trail, position and velocity after one step: the old position
      joins the trail, the position moves by the velocity, then gravity is
      added to the velocity. */
  function Moved(f: Firework): Firework {
    f.(trail := TrailStep(f.trail, f.x, f.y),
       x := f.x + f.vx,
       y := f.y + f.vy,
       vy := f.vy + FireworkGravity)
  }

  /** The firework's own state after `update(now)`: the sparkle clock is
      reset when a burst was due, then the firework moves. */
  function Advance(f: Firework, now: real): Firework {
    Moved(f.(lastSparkle := if SparkleDue(f, now) then now else f.lastSparkle))
  }

  /** The movement part of `update`: push the position on the trail, shift
      out the oldest point past eight, fade every point, move, then fall. */
  method Move(f: Firework) returns (g: Firework)
    ensures g == Moved(f)
  {
    var trail := f.trail + [Point(f.x, f.y, 1.0)];
    if |trail| > TrailLength {
      trail := trail[1..];
    }
    trail := FadeTrail(trail);
    g := f.(trail := trail);
    g := g.(x := g.x + g.vx, y := g.y + g.vy);
    g := g.(vy := g.vy + FireworkGravity);
  }

  /** `distanceToTarget < 15 || (this.startY - this.y) > 500`, evaluated after the move. */
  predicate Stops(f: Firework, hypot: (real, real) -> real) {
    hypot(f.targetX - f.x, f.targetY - f.y) < NearTarget || f.startY - f.y > MaxRise
  }

  /** The flight step keeps the launch point, target, colour and kind, and
      keeps the trail's shape. */
  lemma AdvanceKeeps(f: Firework, now: real)
    requires TrailShaped(f.trail)
    ensures var g := Advance(f, now);
      g.startY == f.startY && g.targetX == f.targetX && g.targetY == f.targetY
      && g.hue == f.hue && g.brightness == f.brightness && g.isSuper == f.isSuper
      && g.sparkleInterval == f.sparkleInterval
      && TrailShaped(g.trail)
  {
    TrailStepKeepsShape(f.trail, f.x, f.y);
  }

  /** The sparkle clock gates bursts: right after a step at `now`, no burst
      is due at `now` (the interval is never negative). */
  lemma SparkleOncePerInstant(f: Firework, now: real)
    requires f.sparkleInterval >= 0.0
    ensures !SparkleDue(Advance(f, now), now)
  {
  }
}
