/** The running show: the two global registries (`fireworks`, `particles`),
    the FPS counter and the flower count, with the operations that change
    them. `Math.random()` is the stream `rand`, consumed one index per call
    in the order the modelled operations make their calls (the stars' and
    flowers' draws are not modelled); the trigonometry is `geo`.
    Timer callbacks run at once, in the order they are scheduled. */
module Animation {
  import opened Seqs
  import opened Particles
  import opened Fireworks
  import opened Frames

  class Scene {
    const rand: nat -> real
    const geo: Geometry
    /** The characters every explosion spells. */
    const name: seq<CodeUnit>

    /** How many random numbers have been drawn so far. */
    var draws: nat
    var fireworks: seq<Firework>
    var particles: seq<Particle>
    var frameCount: nat
    var lastTime: real
    var fps: nat
    /** How many flowers exist; their DOM nodes are not modelled. */
    var flowers: nat

    ghost predicate Valid()
      reads this
    {
      RandomInUnit(rand) && TrailsShaped(fireworks) && ParticlesLive(particles)
    }

    function Fps(): FpsCounter
      reads this`frameCount, this`lastTime, this`fps
    {
      FpsCounter(frameCount, lastTime, fps)
    }

    /** The state the page starts in: empty registries, the counter at 60 fps. */
    constructor (rand: nat -> real, geo: Geometry, name: seq<CodeUnit>)
      requires RandomInUnit(rand)
      ensures Valid()
      ensures this.rand == rand && this.geo == geo && this.name == name
      ensures draws == 0 && fireworks == [] && particles == [] && flowers == 0
      ensures Fps() == FpsCounter(0, 0.0, 60)
    {
      this.rand := rand;
      this.geo := geo;
      this.name := name;
      draws := 0;
      fireworks := [];
      particles := [];
      frameCount := 0;
      lastTime := 0.0;
      fps := 60;
      flowers := 0;
    }

    /** `Math.random()` */
    method Random() returns (r: real)
      requires RandomInUnit(rand)
      modifies this`draws
      ensures draws == old(draws) + 1 && r == rand(old(draws))
      ensures 0.0 <= r < 1.0
    {
      r := rand(draws);
      draws := draws + 1;
    }

    // -------------------------------------------------------------------
    // Particle constructors

    /** `new TextParticle(x, y, hue, brightness, velocity, character)`:
        seven draws, for size, decay, rotation, spin, wobble, wobble speed
        and wave phase. */
    method NewText(x: real, y: real, hue: int, brightness: int, vx: real, vy: real, c: CodeUnit)
      returns (p: Particle)
      requires RandomInUnit(rand)
      modifies this`draws
      ensures draws == old(draws) + 7
      ensures IsNewGlyph(p, x, y, 0.0, hue, brightness) && p.character == c
      ensures p.vx == vx && p.vy == vy && 25.0 <= p.size < 45.0
    {
      var size := Random();
      var decay := Random();
      var rotation := Random();
      var spin := Random();
      var wobble := Random();
      var wobbleSpeed := Random();
      var wave := Random();
      p := Text(x, y, vx, vy, hue, brightness, 1.0, decay * 0.005 + 0.005, size * 20.0 + 25.0,
                rotation * Pi * 2.0, (spin - 0.5) * 0.05, wobble * Pi * 2.0,
                wobbleSpeed * 0.1 + 0.05, wave * Pi * 2.0, c);
    }

    /** `new SparkleParticle(x, y, hue, brightness)`: one draw, for the size. */
    method NewSparkle(x: real, y: real, hue: int, brightness: int) returns (p: Particle)
      requires RandomInUnit(rand)
      modifies this`draws
      ensures draws == old(draws) + 1
      ensures IsNewSparkle(p, x, y, 0.0, hue, brightness) && 1.0 <= p.size < 3.0
    {
      var size := Random();
      p := Sparkle(x, y, hue, brightness, size * 2.0 + 1.0, 1.0, 0.1);
    }

    // -------------------------------------------------------------------
    // What a firework appends to the particle registry

    /** Appends one new particle, keeping the registry invariant; `n` marks
        where the current batch starts. */
    method Push(p: Particle, ghost n: nat)
      requires Valid() && p.alpha == 1.0 && p.decay > 0.0 && n <= |particles|
      modifies this`particles
      ensures Valid()
      ensures particles == old(particles) + [p]
      ensures particles[..n] == old(particles)[..n]
      ensures particles[n..] == old(particles)[n..] + [p]
    {
      NewParticlesLive(particles, p);
      assert (particles + [p])[n..] == particles[n..] + [p];
      particles := particles + [p];
    }

    /** `createSparkle`: three sparkles scattered within 5 of the firework. */
    method CreateSparkle(f: Firework)
      requires Valid()
      modifies this`particles, this`draws
      ensures Valid()
      ensures |particles| == |old(particles)| + FlightSparkles
      ensures particles[..|old(particles)|] == old(particles)
      ensures SparkleBatch(particles[|old(particles)|..], f.x, f.y, 5.0, f.hue, f.brightness)
      ensures draws == old(draws) + FlightSparkles * SparkleDraws
    {
      ghost var n := |particles|;
      for i := 0 to FlightSparkles
        invariant Valid()
        invariant |particles| == n + i
        invariant draws == old(draws) + i * SparkleDraws
        invariant particles[..n] == old(particles)
        invariant SparkleBatch(particles[n..], f.x, f.y, 5.0, f.hue, f.brightness)
      {
        var dx := Random();
        var dy := Random();
        var p := NewSparkle(f.x + (dx - 0.5) * 10.0, f.y + (dy - 0.5) * 10.0, f.hue, f.brightness);
        ghost var prev := particles;
        Push(p, n);
        SparkleBatchPush(prev[n..], p, f.x, f.y, 5.0, f.hue, f.brightness);
      }
    }

    /** The glyph loop both explosions run: one glyph per character, in
        order, at (x, y), sent off at angle (i * 360) / |name| (a number of
        degrees that `Math.cos` and `Math.sin` read as radians) with a speed
        drawn from [minSpeed, minSpeed + speedRange). */
    method AppendName(x: real, y: real, hue: int, brightness: int, speedRange: real, minSpeed: real)
      requires Valid()
      modifies this`particles, this`draws
      ensures Valid()
      ensures |particles| == |old(particles)| + |name|
      ensures particles[..|old(particles)|] == old(particles)
      ensures NameBatch(particles[|old(particles)|..], name, x, y, 0.0, hue, brightness)
      ensures draws == old(draws) + GlyphDraws * |name|
    {
      ghost var n := |particles|;
      for i := 0 to |name|
        invariant Valid()
        invariant |particles| == n + i
        invariant draws == old(draws) + GlyphDraws * i
        invariant particles[..n] == old(particles)
        invariant NameBatch(particles[n..], name[..i], x, y, 0.0, hue, brightness)
      {
        var angle := (i * 360) as real / |name| as real;
        var r := Random();
        var speed := r * speedRange + minSpeed;
        var p := NewText(x, y, hue, brightness, geo.cos(angle) * speed, geo.sin(angle) * speed, name[i]);
        ghost var prev := particles;
        Push(p, n);
        NameBatchPush(prev[n..], name[..i], p, x, y, 0.0, hue, brightness);
        assert name[..i + 1] == name[..i] + [name[i]];
      }
      assert name[..|name|] == name;
    }

    /** `createNameExplosion`: the name at the firework, at speeds from
        [3, 13) (super: [3, 18)), then 30 sparkles at the firework. The
        sparkles' angle and speed are drawn but the velocity built from
        them is never used. */
    method CreateNameExplosion(f: Firework)
      requires Valid()
      modifies this`particles, this`draws
      ensures Valid()
      ensures |particles| == |old(particles)| + |name| + ExtraSparkles
      ensures particles[..|old(particles)|] == old(particles)
      ensures var b := particles[|old(particles)|..];
        NameBatch(b[..|name|], name, f.x, f.y, 0.0, f.hue, f.brightness)
        && SparkleBatch(b[|name|..], f.x, f.y, 0.0, f.hue, f.brightness)
      ensures draws == old(draws) + GlyphDraws * |name| + SparkleDraws * ExtraSparkles
    {
      ghost var n := |particles|;
      AppendName(f.x, f.y, f.hue, f.brightness, if f.isSuper then 15.0 else 10.0, 3.0);
      ghost var named := particles;
      for i := 0 to ExtraSparkles
        invariant Valid()
        invariant |particles| == |named| + i
        invariant draws == old(draws) + GlyphDraws * |name| + SparkleDraws * i
        invariant particles[..|named|] == named
        invariant SparkleBatch(particles[|named|..], f.x, f.y, 0.0, f.hue, f.brightness)
      {
        var angle := Random();
        var speed := Random();
        var p := NewSparkle(f.x, f.y, f.hue, f.brightness);
        ghost var prev := particles;
        Push(p, |named|);
        SparkleBatchPush(prev[|named|..], p, f.x, f.y, 0.0, f.hue, f.brightness);
      }
      assert particles[..n] == named[..n];
      assert particles[n..][..|name|] == named[n..];
      assert particles[n..][|name|..] == particles[|named|..];
    }

    /** One timer callback of `createSecondaryNameExplosions`: the name
        around a centre offset by up to 50 on each axis, in the hue shifted
        by 30, at speeds from [2, 10). No sparkles. */
    method SecondaryBurst(f: Firework)
      requires Valid()
      modifies this`particles, this`draws
      ensures Valid()
      ensures |particles| == |old(particles)| + |name|
      ensures particles[..|old(particles)|] == old(particles)
      ensures NameBatch(particles[|old(particles)|..], name, f.x, f.y, 50.0, SecondaryHue(f.hue), f.brightness)
      ensures draws == old(draws) + BurstDraws(|name|)
    {
      var dx := Random();
      var dy := Random();
      var cx, cy := f.x + (dx - 0.5) * 100.0, f.y + (dy - 0.5) * 100.0;
      AppendName(cx, cy, SecondaryHue(f.hue), f.brightness, 8.0, 2.0);
      NameBatchWiden(particles[|old(particles)|..], name, cx, cy, f.x, f.y, 50.0, SecondaryHue(f.hue), f.brightness);
    }

    /** `createSecondaryNameExplosions`: three bursts, one after another. */
    method CreateSecondaryNameExplosions(f: Firework)
      requires Valid()
      modifies this`particles, this`draws
      ensures Valid()
      ensures |particles| == |old(particles)| + SecondaryBursts * |name|
      ensures particles[..|old(particles)|] == old(particles)
      ensures Bursts(particles[|old(particles)|..], SecondaryBursts, f, name)
      ensures draws == old(draws) + SecondaryBursts * BurstDraws(|name|)
    {
      ghost var n := |particles|;
      for j := 0 to SecondaryBursts
        invariant Valid()
        invariant |particles| >= n
        invariant draws == old(draws) + j * BurstDraws(|name|)
        invariant particles[..n] == old(particles)
        invariant Bursts(particles[n..], j, f, name)
      {
        ghost var prev := particles;
        SecondaryBurst(f);
        assert particles[..n] == prev[..n];
        assert particles[n..] == prev[n..] + particles[|prev|..];
        BurstsPush(prev[n..], particles[|prev|..], j, f, name);
      }
      BurstsShape(particles[n..], SecondaryBursts, f, name);
    }

    /** `explode`: the name explosion, then for a super firework the
        secondary bursts (the draw for their 300-700 ms delay is made). */
    method Explode(f: Firework)
      requires Valid()
      modifies this`particles, this`draws
      ensures Valid()
      ensures |particles| == |old(particles)| + ExplosionCount(f, |name|)
      ensures particles[..|old(particles)|] == old(particles)
      ensures ExplosionBatch(particles[|old(particles)|..], f, name)
      ensures draws == old(draws) + ExplosionDraws(f, |name|)
    {
      ghost var n := |particles|;
      CreateNameExplosion(f);
      ghost var mid := particles;
      if f.isSuper {
        var delay := Random();
        CreateSecondaryNameExplosions(f);
        assert particles[..n] == mid[..n];
      }
      ghost var m := |name| + ExtraSparkles;
      ghost var b := particles[n..];
      assert b[..m] == mid[n..];
      assert b[..|name|] == mid[n..][..|name|];
      assert b[|name|..m] == mid[n..][|name|..];
      assert b[m..] == particles[|mid|..];
    }

    // -------------------------------------------------------------------
    // The firework registry

    /** The first phase of `update(now)`: when a burst is due, three
        sparkles around the firework and the sparkle clock set to `now`. */
    method SparkleIfDue(f: Firework, now: real) returns (g: Firework, ghost sparkles: seq<Particle>)
      requires Valid()
      modifies this`particles, this`draws
      ensures Valid()
      ensures g == f.(lastSparkle := if SparkleDue(f, now) then now else f.lastSparkle)
      ensures particles == old(particles) + sparkles
      ensures |sparkles| == (if SparkleDue(f, now) then FlightSparkles else 0)
      ensures SparkleBatch(sparkles, f.x, f.y, 5.0, f.hue, f.brightness)
      ensures draws == old(draws) + if SparkleDue(f, now) then FlightSparkles * SparkleDraws else 0
    {
      g, sparkles := f, [];
      if now - f.lastSparkle > f.sparkleInterval * 1000.0 {
        ghost var before := particles;
        CreateSparkle(f);
        PrefixSplit(particles, before);
        sparkles := particles[|before|..];
        g := f.(lastSparkle := now);
      }
    }

    /** The last phase of `update(now)`: the stop test, exploding the
        firework when it holds. */
    method ExplodeIfStopped(g: Firework) returns (alive: bool, ghost burst: seq<Particle>)
      requires Valid()
      modifies this`particles, this`draws
      ensures Valid()
      ensures alive <==> !Stops(g, geo.hypot)
      ensures particles == old(particles) + burst
      ensures |burst| == if alive then 0 else ExplosionCount(g, |name|)
      ensures if alive then burst == [] else ExplosionBatch(burst, g, name)
      ensures draws == old(draws) + if alive then 0 else ExplosionDraws(g, |name|)
    {
      burst := [];
      var distanceToTarget := geo.hypot(g.targetX - g.x, g.targetY - g.y);
      if distanceToTarget < NearTarget || g.startY - g.y > MaxRise {
        ghost var before := particles;
        Explode(g);
        PrefixSplit(particles, before);
        burst := particles[|before|..];
        alive := false;
      } else {
        alive := true;
      }
    }

    /** `EnhancedFirework.update(now)` on the firework `f`: returns the
        firework after the step and whether it is still flying. It appends
        three sparkles around the old position when a burst is due, then
        the explosion at the new position when the firework stops. */
    method UpdateFirework(f: Firework, now: real)
      returns (g: Firework, alive: bool, ghost sparkles: seq<Particle>, ghost burst: seq<Particle>)
      requires Valid()
      modifies this`particles, this`draws
      ensures Valid()
      ensures g == Advance(f, now)
      ensures alive <==> !Stops(g, geo.hypot)
      ensures particles == old(particles) + (sparkles + burst)
      ensures |sparkles| == (if SparkleDue(f, now) then FlightSparkles else 0)
      ensures SparkleBatch(sparkles, f.x, f.y, 5.0, f.hue, f.brightness)
      ensures if alive then burst == [] else ExplosionBatch(burst, g, name)
      ensures draws == old(draws) + StepDraws(f, now, geo.hypot, |name|)
    {
      g, sparkles := SparkleIfDue(f, now);
      g := Move(g);
      alive, burst := ExplodeIfStopped(g);
    }

    /** The firework walk has visited fs[i..]: the particles appended after
        index n and the draws made since `d` are exactly the ones the
        visited fireworks' steps make. */
    ghost predicate FireworksWalked(fs: seq<Firework>, i: nat, now: real, n: nat, d: nat,
                                    drawn: seq<Firework>, exploded: seq<Firework>)
      reads this
    {
      Walked(fs, i, now, geo.hypot, fireworks, drawn, exploded)
      && |particles| == n + SweepCount(fs[i..], now, geo.hypot, |name|)
      && SweepBatch(particles[n..], fs[i..], now, geo.hypot, name)
      && draws == d + SweepDraws(fs[i..], now, geo.hypot, |name|)
    }

    /** One visit of the firework walk: `fireworks[i].update(now)`, then the
        firework is spliced out if it returned false and drawn otherwise. */
    method VisitFirework(i: nat, now: real, ghost fs: seq<Firework>, ghost n: nat, ghost d: nat,
                         drawn: seq<Firework>, exploded: seq<Firework>)
      returns (drawnAfter: seq<Firework>, explodedAfter: seq<Firework>)
      requires Valid() && i < |fs|
      requires FireworksWalked(fs, i + 1, now, n, d, drawn, exploded)
      modifies this`fireworks, this`particles, this`draws
      ensures Valid()
      ensures FireworksWalked(fs, i, now, n, d, drawnAfter, explodedAfter)
      ensures |old(particles)| <= |particles| && particles[..|old(particles)|] == old(particles)
    {
      drawnAfter, explodedAfter := drawn, exploded;
      var registry := fireworks;
      WalkStep(fs, i, now, geo.hypot, registry, drawn, exploded);
      SweepCountUnfold(fs, i, now, geo.hypot, |name|);
      assert registry[i] in registry;
      ghost var before := particles;
      var g, alive, sparkles, burst := UpdateFirework(registry[i], now);
      SweepAppend(before, sparkles, burst, n, fs, i, now, geo.hypot, name);
      if !alive {
        ShapedRemove(registry, i);
        registry := registry[..i] + registry[i + 1..];
        explodedAfter := exploded + [g];
      } else {
        AdvanceKeeps(fs[i], now);
        ShapedReplace(registry, i, g);
        registry := registry[i := g];
        drawnAfter := drawn + [g];
      }
      fireworks := registry;
    }

    /** The firework half of `animate`: a reverse-index walk that updates
        every firework once, draws the ones still flying (in walk order)
        and splices out the ones that exploded. */
    method UpdateFireworks(now: real) returns (drawn: seq<Firework>, exploded: seq<Firework>)
      requires Valid()
      modifies this`fireworks, this`particles, this`draws
      ensures Valid()
      ensures fireworks == Flying(old(fireworks), now, geo.hypot)
      ensures drawn == Reversed(fireworks)
      ensures exploded == Reversed(Landed(old(fireworks), now, geo.hypot))
      ensures |particles| == |old(particles)| + SweepCount(old(fireworks), now, geo.hypot, |name|)
      ensures particles[..|old(particles)|] == old(particles)
      ensures SweepBatch(particles[|old(particles)|..], old(fireworks), now, geo.hypot, name)
      ensures draws == old(draws) + SweepDraws(old(fireworks), now, geo.hypot, |name|)
    {
      ghost var fs := fireworks;
      ghost var n := |particles|;
      ghost var d := draws;
      drawn := [];
      exploded := [];
      var i := |fireworks|;
      WalkBounds(fs, now, geo.hypot, fs, [], []);
      assert fs[i..] == [];
      assert particles[n..] == [];
      while i > 0
        invariant Valid()
        invariant FireworksWalked(fs, i, now, n, d, drawn, exploded)
        invariant n <= |particles| && particles[..n] == old(particles)
      {
        i := i - 1;
        ghost var before := particles;
        drawn, exploded := VisitFirework(i, now, fs, n, d, drawn, exploded);
        PrefixOfPrefix(particles, before, n);
      }
      WalkBounds(fs, now, geo.hypot, fireworks, drawn, exploded);
      assert fs[0..] == fs;
    }

    // -------------------------------------------------------------------
    // The particle registry

    /** The particle walk has visited ps[i..]: those are swept and
        ps[..i] are still in place. */
    ghost predicate ParticlesWalked(ps: seq<Particle>, i: nat, drawn: seq<Particle>)
      reads this
    {
      i <= |ps|
      && particles == ps[..i] + Survivors(ps[i..], geo.sin)
      && drawn == Reversed(Survivors(ps[i..], geo.sin))
    }

    /** One visit of the particle walk: `particles[i].update()`, then the
        particle is spliced out if it returned false and drawn otherwise. */
    method VisitParticle(i: nat, ghost ps: seq<Particle>, drawn: seq<Particle>)
      returns (drawnAfter: seq<Particle>)
      requires i < |ps| && ParticlesWalked(ps, i + 1, drawn)
      modifies this`particles
      ensures ParticlesWalked(ps, i, drawnAfter)
    {
      drawnAfter := drawn;
      var registry := particles;
      SurvivorsUnfold(ps, i, geo.sin);
      ghost var rest := Survivors(ps[i + 1..], geo.sin);
      assert registry[i] == ps[i];
      assert registry[..i] == ps[..i] && registry[i + 1..] == rest;
      var r := Update(registry[i], geo.sin);
      if !r.1 {
        registry := registry[..i] + registry[i + 1..];
        assert Survivors(ps[i..], geo.sin) == rest;
      } else {
        registry := registry[i := r.0];
        assert registry == ps[..i] + ([r.0] + rest);
        assert Survivors(ps[i..], geo.sin) == [r.0] + rest;
        ReversedAppend([r.0], rest);
        assert Reversed([r.0]) == [r.0];
        drawnAfter := drawn + [r.0];
      }
      particles := registry;
    }

    /** The particle half of `animate`: a reverse-index walk that updates
        every particle once, draws the ones whose `update` returned true
        (in walk order) and splices out the others. */
    method UpdateParticles() returns (drawn: seq<Particle>)
      requires Valid()
      modifies this`particles
      ensures Valid()
      ensures particles == Survivors(old(particles), geo.sin)
      ensures drawn == Reversed(particles)
    {
      ghost var ps := particles;
      drawn := [];
      var i := |particles|;
      assert ps[i..] == [];
      while i > 0
        invariant ParticlesWalked(ps, i, drawn)
      {
        i := i - 1;
        drawn := VisitParticle(i, ps, drawn);
      }
      assert ps[0..] == ps;
      SurvivorsKeepDecay(ps, geo.sin);
    }

    // -------------------------------------------------------------------
    // The frame

    /** The FPS counter at the top of `animate`. */
    method CountFrame(now: real)
      modifies this`frameCount, this`lastTime, this`fps
      ensures Fps() == FpsStep(old(Fps()), now)
    {
      frameCount := frameCount + 1;
      if now - lastTime >= FpsWindow {
        fps := frameCount;
        frameCount := 0;
        lastTime := now;
      }
    }

    /** The two sweeps of `animate`: the fireworks (whose steps append
        `emitted`), then all particles, those appended this frame included. */
    method SweepRegistries(now: real)
      returns (fireworksDrawn: seq<Firework>, exploded: seq<Firework>,
               particlesDrawn: seq<Particle>, ghost emitted: seq<Particle>)
      requires Valid()
      modifies this`fireworks, this`particles, this`draws
      ensures Valid()
      ensures fireworks == Flying(old(fireworks), now, geo.hypot)
      ensures fireworksDrawn == Reversed(fireworks)
      ensures exploded == Reversed(Landed(old(fireworks), now, geo.hypot))
      ensures |emitted| == SweepCount(old(fireworks), now, geo.hypot, |name|)
      ensures SweepBatch(emitted, old(fireworks), now, geo.hypot, name)
      ensures draws == old(draws) + SweepDraws(old(fireworks), now, geo.hypot, |name|)
      ensures particles == Survivors(old(particles), geo.sin) + Survivors(emitted, geo.sin)
      ensures particlesDrawn == Reversed(particles)
    {
      ghost var ps := particles;
      fireworksDrawn, exploded := UpdateFireworks(now);
      emitted := particles[|ps|..];
      PrefixSplit(particles, ps);
      SurvivorsAppend(ps, emitted, geo.sin);
      particlesDrawn := UpdateParticles();
    }

    /** One `animate(now)` frame: count it, then sweep both registries. */
    method Animate(now: real)
      returns (fireworksDrawn: seq<Firework>, exploded: seq<Firework>,
               particlesDrawn: seq<Particle>, ghost emitted: seq<Particle>)
      requires Valid()
      modifies this`fireworks, this`particles, this`draws, this`frameCount, this`lastTime, this`fps
      ensures Valid()
      ensures Fps() == FpsStep(old(Fps()), now)
      ensures fireworks == Flying(old(fireworks), now, geo.hypot)
      ensures fireworksDrawn == Reversed(fireworks)
      ensures exploded == Reversed(Landed(old(fireworks), now, geo.hypot))
      ensures |emitted| == SweepCount(old(fireworks), now, geo.hypot, |name|)
      ensures SweepBatch(emitted, old(fireworks), now, geo.hypot, name)
      ensures draws == old(draws) + SweepDraws(old(fireworks), now, geo.hypot, |name|)
      ensures particles == Survivors(old(particles), geo.sin) + Survivors(emitted, geo.sin)
      ensures particlesDrawn == Reversed(particles)
    {
      CountFrame(now);
      fireworksDrawn, exploded, particlesDrawn, emitted := SweepRegistries(now);
    }

    // -------------------------------------------------------------------
    // Launching

    /** `new EnhancedFirework(x, y, targetX, targetY, isSuper)` pushed on the
        registry: six draws (speed, hue, brightness, sparkle interval, and
        the explosion size and particle count, which nothing reads); the
        velocity points from the launch point at the target. */
    method Launch(x: real, y: real, targetX: real, targetY: real, isSuper: bool)
      requires Valid()
      modifies this`fireworks, this`draws
      ensures Valid()
      ensures draws == old(draws) + 6
      ensures |fireworks| == |old(fireworks)| + 1
      ensures fireworks[..|old(fireworks)|] == old(fireworks)
      ensures IsLaunched(fireworks[|old(fireworks)|], x, y, targetX, targetY, isSuper)
    {
      var r := Random();
      var speed := if isSuper then 12.0 + r * 8.0 else 8.0 + r * 6.0;
      var angle := geo.atan2(targetY - y, targetX - x);
      var h := Random();
      var b := Random();
      var interval := Random();
      var explosionSize := Random();
      var explosionParticles := Random();
      var hue, brightness := (h * 360.0).Floor, (b * 31.0).Floor + 60;
      FloorBelow(h, 360);
      FloorBelow(b, 31);
      var f := Firework(x, y, y, targetX, targetY, geo.cos(angle) * speed, geo.sin(angle) * speed,
                        hue, brightness, [], isSuper, interval * 0.5 + 0.3, 0.0);
      fireworks := fireworks + [f];
    }

    /** `launchRandomFirework(isSuper)`: from a random point on the bottom
        edge towards a random target in the upper 40% (30% for super) of a
        `width` by `height` canvas. */
    method LaunchRandom(width: real, height: real, isSuper: bool)
      requires Valid()
      modifies this`fireworks, this`draws
      ensures Valid()
      ensures draws == old(draws) + 9
      ensures |fireworks| == |old(fireworks)| + 1
      ensures fireworks[..|old(fireworks)|] == old(fireworks)
      ensures IsRandomLaunch(fireworks[|old(fireworks)|], width, height, isSuper)
      ensures fireworks[|old(fireworks)|].targetY == rand(old(draws) + 2) * height * (if isSuper then 0.3 else 0.4)
    {
      var rx := Random();
      var x := rx * width;
      var rt := Random();
      var targetX := x + (rt - 0.5) * (if isSuper then 300.0 else 150.0);
      var ry := Random();
      var top := height * (if isSuper then 0.3 else 0.4);
      var targetY := ry * top;
      if width >= 0.0 {
        WithinRange(rx, width);
      }
      if height >= 0.0 {
        WithinRange(ry, top);
      }
      Launch(x, height, targetX, targetY, isSuper);
    }

    /** One firing of the two-second automatic launcher: with a roll above
        0.6 a firework goes up, super when a second roll is above 0.8. */
    method AutoLaunch(width: real, height: real)
      requires Valid()
      modifies this`fireworks, this`draws
      ensures Valid()
      ensures rand(old(draws)) <= 0.6 ==> fireworks == old(fireworks) && draws == old(draws) + 1
      ensures rand(old(draws)) > 0.6 ==>
        |fireworks| == |old(fireworks)| + 1
        && fireworks[..|old(fireworks)|] == old(fireworks)
        && draws == old(draws) + 11
        && IsRandomLaunch(fireworks[|old(fireworks)|], width, height, rand(old(draws) + 1) > 0.8)
    {
      var roll := Random();
      if roll > 0.6 {
        var superRoll := Random();
        LaunchRandom(width, height, superRoll > 0.8);
      }
    }

    /** One firing of the 3.5 s flower interval. */
    method AutoFlower()
      requires Valid()
      modifies this`flowers, this`draws
      ensures Valid()
      ensures draws == old(draws) + 1
      ensures flowers == FlowerTick(old(flowers), rand(old(draws)))
    {
      var roll := Random();
      if roll > FlowerChance && flowers < FlowerCeiling {
        flowers := flowers + 1;
      }
    }
  }
}
