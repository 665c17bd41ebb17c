/** The three particle kinds (`TextParticle`, `EnhancedParticle`,
    `SparkleParticle`) as one tagged value, their per-frame `update`, and the
    specification of the reverse-index sweep that removes the ones whose
    `update` returned false. Positions, speeds and opacities are exact reals;
    `Math.sin` is supplied by the caller. */
module Particles {
  import opened Seqs

  /** A UTF-16 code unit: what `split('')` cuts a string into. */
  newtype CodeUnit = x: int | 0 <= x < 0x10000

  const Gravity: real := 0.1
  const Friction: real := 0.96
  const WaveStep: real := 0.05
  const TextThreshold: real := 0.1

  datatype Particle =
    | Text(x: real, y: real, vx: real, vy: real, hue: int, brightness: int,
           alpha: real, decay: real, size: real,
           rotation: real, rotationSpeed: real, wobble: real, wobbleSpeed: real,
           waveOffset: real, character: CodeUnit)
      // `EnhancedParticle`, the glow particle
    | Glow(x: real, y: real, vx: real, vy: real, hue: int, brightness: int,
           alpha: real, decay: real, size: real, wobble: real, wobbleSpeed: real)
    | Sparkle(x: real, y: real, hue: int, brightness: int, size: real,
              alpha: real, decay: real)

  /** The opacity a particle must stay above to be kept: text fades out at 0.1. */
  function Threshold(p: Particle): real {
    if p.Text? then TextThreshold else 0.0
  }

  predicate Live(p: Particle) {
    p.alpha > Threshold(p)
  }

  /** Same kind and same fixed attributes: everything `update` never assigns. */
  predicate SameKind(p: Particle, q: Particle) {
    match p
    case Text(_, _, _, _, hue, brightness, _, decay, size, _, rotationSpeed, _, wobbleSpeed, _, c) =>
      q.Text? && q.hue == hue && q.brightness == brightness && q.decay == decay && q.size == size
      && q.rotationSpeed == rotationSpeed && q.wobbleSpeed == wobbleSpeed && q.character == c
    case Glow(_, _, _, _, hue, brightness, _, decay, size, _, wobbleSpeed) =>
      q.Glow? && q.hue == hue && q.brightness == brightness && q.decay == decay && q.size == size
      && q.wobbleSpeed == wobbleSpeed
    case Sparkle(x, y, hue, brightness, size, _, decay) =>
      q.Sparkle? && q.x == x && q.y == y && q.hue == hue && q.brightness == brightness
      && q.size == size && q.decay == decay
  }

  /** One `update()` call: the new particle and the value `update` returns. */
  function Update(p: Particle, sine: real -> real): (r: (Particle, bool))
    ensures SameKind(p, r.0)
    ensures r.0.alpha == p.alpha - p.decay
    ensures r.1 <==> Live(r.0)
    ensures p.decay > 0.0 ==> r.0.alpha < p.alpha
  {
    match p
    case Text(x, y, vx, vy, hue, brightness, alpha, decay, size,
              rotation, rotationSpeed, wobble, wobbleSpeed, waveOffset, c) =>
      var wave := waveOffset + WaveStep;
      var vx' := vx * Friction;
      var vy' := vy * Friction + Gravity;
      var alpha' := alpha - decay;
      (Text(x + vx' + sine(wave) * 0.5, y + vy', vx', vy', hue, brightness, alpha', decay, size,
            rotation + rotationSpeed, rotationSpeed, wobble + wobbleSpeed, wobbleSpeed, wave, c),
       alpha' > TextThreshold)
    case Glow(x, y, vx, vy, hue, brightness, alpha, decay, size, wobble, wobbleSpeed) =>
      var wobble' := wobble + wobbleSpeed;
      var vx' := vx * Friction;
      var vy' := vy * Friction + Gravity;
      var alpha' := alpha - decay;
      (Glow(x + vx' + sine(wobble') * 0.5, y + vy', vx', vy', hue, brightness, alpha', decay, size,
            wobble', wobbleSpeed),
       alpha' > 0.0)
    case Sparkle(x, y, hue, brightness, size, alpha, decay) =>
      var alpha' := alpha - decay;
      (Sparkle(x, y, hue, brightness, size, alpha', decay), alpha' > 0.0)
  }

  /** The particle after n frames, had it been kept that long. */
  function AfterUpdates(p: Particle, sine: real -> real, n: nat): Particle
    decreases n
  {
    if n == 0 then p else AfterUpdates(Update(p, sine).0, sine, n - 1)
  }

  /** Opacity falls linearly: after n frames it is down by n times the decay. */
  lemma {:induction false} AfterUpdatesAlpha(p: Particle, sine: real -> real, n: nat)
    ensures SameKind(p, AfterUpdates(p, sine, n))
    ensures AfterUpdates(p, sine, n).decay == p.decay && Threshold(AfterUpdates(p, sine, n)) == Threshold(p)
    ensures AfterUpdates(p, sine, n).alpha == p.alpha - n as real * p.decay
    decreases n
  {
    if n > 0 {
      var q := Update(p, sine).0;
      AfterUpdatesAlpha(q, sine, n - 1);
      assert q.decay == p.decay;
      assert p.alpha - p.decay - (n - 1) as real * p.decay == p.alpha - n as real * p.decay;
      SameKindTransitive(p, q, AfterUpdates(q, sine, n - 1));
    }
  }

  lemma SameKindTransitive(p: Particle, q: Particle, r: Particle)
    requires SameKind(p, q) && SameKind(q, r)
    ensures SameKind(p, r)
  {
  }

  /** Opacity never rises while the decay is positive. */
  lemma {:induction false} AlphaNonIncreasing(p: Particle, sine: real -> real, m: nat, n: nat)
    requires p.decay > 0.0 && m <= n
    ensures AfterUpdates(p, sine, n).alpha <= AfterUpdates(p, sine, m).alpha
  {
    AfterUpdatesAlpha(p, sine, m);
    AfterUpdatesAlpha(p, sine, n);
    var k := (n - m) as real;
    assert n as real * p.decay == m as real * p.decay + k * p.decay;
    assert k * p.decay >= 0.0 by { NonNegativeProduct(k, p.decay); }
  }

  lemma NonNegativeProduct(a: real, b: real)
    requires a >= 0.0 && b >= 0.0
    ensures a * b >= 0.0
  {
  }

  /** A fresh sparkle (opacity 1, decay 0.1) survives exactly nine updates:
      the tenth brings its opacity to 0. */
  lemma SparkleLifetime(p: Particle, sine: real -> real, n: nat)
    requires p.Sparkle? && p.alpha == 1.0 && p.decay == 0.1
    ensures Live(AfterUpdates(p, sine, n)) <==> n < 10
  {
    AfterUpdatesAlpha(p, sine, n);
  }

  /** A fresh text glyph with decay in [0.005, 0.01) is still shown after 89
      updates and has been removed by the 180th. */
  lemma TextLifetime(p: Particle, sine: real -> real)
    requires p.Text? && p.alpha == 1.0 && 0.005 <= p.decay < 0.01
    ensures Live(AfterUpdates(p, sine, 89))
    ensures !Live(AfterUpdates(p, sine, 180))
  {
    AfterUpdatesAlpha(p, sine, 89);
    AfterUpdatesAlpha(p, sine, 180);
  }

  // ---------------------------------------------------------------------
  // The sweep: every particle updated once, the dead ones dropped

  /** The registry after one sweep: each particle updated, kept iff its
      `update` returned true, in the original order. */
  function Survivors(ps: seq<Particle>, sine: real -> real): (r: seq<Particle>)
    ensures |r| <= |ps|
    ensures forall q | q in r :: Live(q)
  {
    if ps == [] then []
    else
      var (q, alive) := Update(ps[0], sine);
      (if alive then [q] else []) + Survivors(ps[1..], sine)
  }

  /** The sweep of ps[i..] is the update of ps[i] followed by the sweep of the rest. */
  lemma SurvivorsUnfold(ps: seq<Particle>, i: nat, sine: real -> real)
    requires i < |ps|
    ensures Survivors(ps[i..], sine)
      == (if Update(ps[i], sine).1 then [Update(ps[i], sine).0] else []) + Survivors(ps[i + 1..], sine)
  {
    assert ps[i..][1..] == ps[i + 1..];
  }

  /** Sweeping a concatenation sweeps each part: relative order is kept. */
  lemma {:induction false} SurvivorsAppend(a: seq<Particle>, b: seq<Particle>, sine: real -> real)
    ensures Survivors(a + b, sine) == Survivors(a, sine) + Survivors(b, sine)
  {
    if a == [] {
      assert a + b == b;
    } else {
      assert (a + b)[1..] == a[1..] + b;
      SurvivorsAppend(a[1..], b, sine);
    }
  }

  /** A particle is in the swept registry exactly when it is the update of
      some particle of the old registry whose `update` returned true. */
  lemma {:induction false} SurvivorsMembers(ps: seq<Particle>, sine: real -> real, q: Particle)
    ensures q in Survivors(ps, sine)
        <==> exists i :: 0 <= i < |ps| && Update(ps[i], sine) == (q, true)
  {
    if ps != [] {
      SurvivorsMembers(ps[1..], sine, q);
      if exists i :: 0 <= i < |ps| && Update(ps[i], sine) == (q, true) {
        var i :| 0 <= i < |ps| && Update(ps[i], sine) == (q, true);
        if i > 0 {
          assert Update(ps[1..][i - 1], sine) == (q, true);
        }
      }
      if q in Survivors(ps[1..], sine) {
        var i :| 0 <= i < |ps[1..]| && Update(ps[1..][i], sine) == (q, true);
        assert Update(ps[i + 1], sine) == (q, true);
      }
    }
  }

  /** When every `update` returns true nothing is removed; when none does
      the registry empties. */
  lemma {:induction false} SurvivorsExtremes(ps: seq<Particle>, sine: real -> real)
    ensures (forall i :: 0 <= i < |ps| ==> Update(ps[i], sine).1) ==> |Survivors(ps, sine)| == |ps|
    ensures (forall i :: 0 <= i < |ps| ==> !Update(ps[i], sine).1) ==> Survivors(ps, sine) == []
  {
    if ps != [] {
      SurvivorsExtremes(ps[1..], sine);
      assert forall i :: 0 <= i < |ps[1..]| ==> ps[1..][i] == ps[i + 1];
    }
  }

  /** Kept particles keep their kind and decay: the registry invariant
      "live with positive decay" survives a sweep. */
  lemma {:induction false} SurvivorsKeepDecay(ps: seq<Particle>, sine: real -> real)
    requires forall p | p in ps :: p.decay > 0.0
    ensures forall q | q in Survivors(ps, sine) :: q.decay > 0.0 && Live(q)
  {
    if ps != [] {
      SurvivorsKeepDecay(ps[1..], sine);
      assert ps[0] in ps;
      assert forall p | p in ps[1..] :: p in ps;
    }
  }
}
