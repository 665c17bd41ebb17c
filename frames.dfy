/** Registry-level reference definitions: what one frame's sweeps produce,
    the FPS counter, the automatic flower ceiling, and the shape of the
    particle batches an explosion appends. The `Scene` class of module
    Animation is proved against these. */
module Frames {
  import opened Seqs
  import opened Particles
  import opened Fireworks

  /** `Math.sin`, `Math.cos`, `Math.hypot` and `Math.atan2`, supplied by the caller. */
  datatype Geometry = Geometry(
    sin: real -> real, cos: real -> real,
    hypot: (real, real) -> real, atan2: (real, real) -> real)

  const Pi: real := 3.141592653589793
  const FlightSparkles: nat := 3
  const ExtraSparkles: nat := 30
  const SecondaryBursts: nat := 3
  const HueShift: int := 30
  const FlowerCeiling: nat := 25
  const FlowerChance: real := 0.7
  const FpsWindow: real := 1000.0

  /** The UTF-16 code units of "Collins At 22 😉", as `split('')` yields them:
      the emoji is a surrogate pair, so sixteen units. */
  const NameCharacters: seq<CodeUnit> :=
    [0x43, 0x6F, 0x6C, 0x6C, 0x69, 0x6E, 0x73, 0x20,
     0x41, 0x74, 0x20, 0x32, 0x32, 0x20, 0xD83D, 0xDE09]

  /** `a % m` as JavaScript computes it: `a` less a whole multiple of `m`,
      smaller than `m` in magnitude and with the sign of `a`. */
  function JsRemainder(a: int, m: int): (r: int)
    requires m > 0
    ensures -m < r < m
    ensures a >= 0 ==> r >= 0
    ensures a < 0 ==> r <= 0
    ensures exists q: int :: a == q * m + r
  {
    if a >= 0 then
      assert a == (a / m) * m + a % m;
      a % m
    else
      assert -a == ((-a) / m) * m + (-a) % m;
      assert a == (-((-a) / m)) * m + -((-a) % m);
      -((-a) % m)
  }

  /** For a non-negative dividend JavaScript's `%` is Euclidean modulo:
      both leave a remainder in [0, m) of the same multiple, so they agree. */
  lemma JsRemainderEuclidean(a: int, m: int)
    requires m > 0 && a >= 0
    ensures JsRemainder(a, m) == a % m
  {
    var r := JsRemainder(a, m);
    var q :| a == q * m + r;
    RemainderUnique(a, m, q, r);
  }

  /** A remainder in [0, m) of some multiple of `m` is the Euclidean one. */
  lemma RemainderUnique(a: int, m: int, q: int, r: int)
    requires m > 0 && 0 <= r < m && a == q * m + r
    ensures r == a % m && q == a / m
  {
    var q', r' := a / m, a % m;
    assert a == q' * m + r';
    var k := q - q';
    assert k * m == r' - r;
    MultipleAtLeast(k, m);
    MultipleAtLeast(-k, m);
  }

  /** A positive multiple of `m` is at least `m`. */
  lemma MultipleAtLeast(k: int, m: int)
    requires m > 0
    ensures k >= 1 ==> k * m >= m
    ensures k <= -1 ==> k * m <= -m
  {
    if k >= 1 {
      assert k * m == (k - 1) * m + m;
      assert (k - 1) * m >= 0;
    }
    if k <= -1 {
      assert k * m == -((-k - 1) * m) - m;
      assert (-k - 1) * m >= 0;
    }
  }

  /** The hue of a secondary burst. */
  function SecondaryHue(hue: int): int {
    JsRemainder(hue + HueShift, 360)
  }

  /** A hue in [0, 360) shifts to a hue in [0, 360): `(hue + 30) % 360`
      wraps round the colour wheel. */
  lemma SecondaryHueWraps(hue: int)
    requires 0 <= hue < 360
    ensures 0 <= SecondaryHue(hue) < 360
    ensures SecondaryHue(hue) == (hue + HueShift) % 360
    ensures SecondaryHue(hue) == if hue < 330 then hue + 30 else hue - 330
  {
    JsRemainderEuclidean(hue + HueShift, 360);
  }

  /** A draw scales a non-negative extent to a point inside it. */
  lemma WithinRange(r: real, extent: real)
    requires 0.0 <= r < 1.0 && extent >= 0.0
    ensures 0.0 <= r * extent <= extent
  {
    NonNegativeProduct(r, extent);
    NonNegativeProduct(1.0 - r, extent);
  }

  /** `Math.floor(r * k)` of a draw is one of 0 .. k - 1. */
  lemma FloorBelow(r: real, k: nat)
    requires 0.0 <= r < 1.0 && k > 0
    ensures 0 <= (r * k as real).Floor < k
  {
    NonNegativeProduct(r, k as real);
    assert r * k as real < k as real by {
      NonNegativeProduct(1.0 - r, k as real);
      assert (1.0 - r) * k as real > 0.0;
    }
  }

  /** Every draw of the random stream lies in [0, 1), as `Math.random()` promises. */
  ghost predicate RandomInUnit(rand: nat -> real) {
    forall n: nat :: 0.0 <= rand(n) < 1.0
  }

  // ---------------------------------------------------------------------
  // Freshly made particles

  /** A glyph particle as `new TextParticle(...)` makes it, placed within
      `spread` of (x, y) on each axis. */
  predicate IsNewGlyph(p: Particle, x: real, y: real, spread: real, hue: int, brightness: int) {
    p.Text? && p.hue == hue && p.brightness == brightness
    && x - spread <= p.x <= x + spread && y - spread <= p.y <= y + spread
    && p.alpha == 1.0 && 0.005 <= p.decay < 0.01
  }

  /** A sparkle as `new SparkleParticle(...)` makes it, placed within
      `spread` of (x, y) on each axis. */
  predicate IsNewSparkle(p: Particle, x: real, y: real, spread: real, hue: int, brightness: int) {
    p.Sparkle? && p.hue == hue && p.brightness == brightness
    && x - spread <= p.x <= x + spread && y - spread <= p.y <= y + spread
    && p.alpha == 1.0 && p.decay == 0.1
  }

  /** Every registered particle is still shown and still fading. */
  predicate ParticlesLive(ps: seq<Particle>) {
    forall p | p in ps :: Live(p) && p.decay > 0.0
  }

  lemma NewParticlesLive(ps: seq<Particle>, p: Particle)
    requires ParticlesLive(ps)
    requires p.alpha == 1.0 && p.decay > 0.0
    ensures ParticlesLive(ps + [p])
  {
  }

  /** The characters the glyph particles carry, in registry order. */
  function Glyphs(ps: seq<Particle>): seq<CodeUnit> {
    if ps == [] then [] else (if ps[0].Text? then [ps[0].character] else []) + Glyphs(ps[1..])
  }

  lemma {:induction false} GlyphsAppend(a: seq<Particle>, b: seq<Particle>)
    ensures Glyphs(a + b) == Glyphs(a) + Glyphs(b)
  {
    if a == [] {
      assert a + b == b;
    } else {
      var head := if a[0].Text? then [a[0].character] else [];
      assert (a + b)[0] == a[0] && (a + b)[1..] == a[1..] + b;
      assert Glyphs(a + b) == head + Glyphs(a[1..] + b);
      GlyphsAppend(a[1..], b);
      assert Glyphs(a) == head + Glyphs(a[1..]);
    }
  }

  /** The glyphs of a registry cut in two are the glyphs of the halves. */
  lemma GlyphsOfHalves(b: seq<Particle>, i: nat)
    requires i <= |b|
    ensures Glyphs(b) == Glyphs(b[..i]) + Glyphs(b[i..])
  {
    assert b == b[..i] + b[i..];
    GlyphsAppend(b[..i], b[i..]);
  }

  /** s written n times over. */
  function Repeat(s: seq<CodeUnit>, n: nat): (r: seq<CodeUnit>)
    ensures |r| == n * |s|
  {
    if n == 0 then [] else Repeat(s, n - 1) + s
  }

  // ---------------------------------------------------------------------
  // What a firework appends

  /** Secondary bursts of a firework: three for a super firework. */
  function BurstCount(f: Firework): nat {
    if f.isSuper then SecondaryBursts else 0
  }

  /** Particles an explosion appends: one glyph per character and 30
      sparkles, plus three glyph-only bursts for a super firework. */
  function ExplosionCount(f: Firework, len: nat): nat {
    len + ExtraSparkles + (if f.isSuper then SecondaryBursts * len else 0)
  }

  /** The characters an explosion spells, in append order. */
  function ExplosionGlyphs(f: Firework, name: seq<CodeUnit>): seq<CodeUnit> {
    name + (if f.isSuper then Repeat(name, SecondaryBursts) else [])
  }

  // ---------------------------------------------------------------------
  // The batches an explosion appends

  /** Glyphs spelling `cs` in order, all made around (x, y). */
  predicate NameBatch(b: seq<Particle>, cs: seq<CodeUnit>, x: real, y: real, spread: real, hue: int, brightness: int) {
    |b| == |cs|
    && forall k | 0 <= k < |b| :: IsNewGlyph(b[k], x, y, spread, hue, brightness) && b[k].character == cs[k]
  }

  /** Sparkles, all made around (x, y). */
  predicate SparkleBatch(b: seq<Particle>, x: real, y: real, spread: real, hue: int, brightness: int) {
    forall k | 0 <= k < |b| :: IsNewSparkle(b[k], x, y, spread, hue, brightness)
  }

  /** `count` secondary bursts of the firework `f`: each the whole name
      around a centre within 50 of the firework, in the shifted hue. */
  predicate Bursts(b: seq<Particle>, count: nat, f: Firework, name: seq<CodeUnit>)
    decreases count
  {
    if count == 0 then b == []
    else
      |b| >= |name|
      && Bursts(b[..|b| - |name|], count - 1, f, name)
      && NameBatch(b[|b| - |name|..], name, f.x, f.y, 50.0, SecondaryHue(f.hue), f.brightness)
  }

  /** What `explode` appends for the firework `f`: the name at the firework,
      30 sparkles at the firework and, for a super firework only, three
      secondary bursts. */
  predicate ExplosionBatch(b: seq<Particle>, f: Firework, name: seq<CodeUnit>) {
    var m := |name| + ExtraSparkles;
    |b| >= m
    && NameBatch(b[..|name|], name, f.x, f.y, 0.0, f.hue, f.brightness)
    && SparkleBatch(b[|name|..m], f.x, f.y, 0.0, f.hue, f.brightness)
    && Bursts(b[m..], BurstCount(f), f, name)
  }

  lemma NameBatchPush(b: seq<Particle>, cs: seq<CodeUnit>, p: Particle, x: real, y: real, spread: real, hue: int, brightness: int)
    requires NameBatch(b, cs, x, y, spread, hue, brightness)
    requires IsNewGlyph(p, x, y, spread, hue, brightness)
    ensures NameBatch(b + [p], cs + [p.character], x, y, spread, hue, brightness)
  {
  }

  lemma SparkleBatchPush(b: seq<Particle>, p: Particle, x: real, y: real, spread: real, hue: int, brightness: int)
    requires SparkleBatch(b, x, y, spread, hue, brightness)
    requires IsNewSparkle(p, x, y, spread, hue, brightness)
    ensures SparkleBatch(b + [p], x, y, spread, hue, brightness)
  {
  }

  /** A batch made around a centre within `spread` of (x, y) is a batch
      around (x, y) with that spread. */
  lemma NameBatchWiden(b: seq<Particle>, cs: seq<CodeUnit>, cx: real, cy: real, x: real, y: real, spread: real, hue: int, brightness: int)
    requires NameBatch(b, cs, cx, cy, 0.0, hue, brightness)
    requires x - spread <= cx <= x + spread && y - spread <= cy <= y + spread
    ensures NameBatch(b, cs, x, y, spread, hue, brightness)
  {
  }

  lemma BurstsPush(b: seq<Particle>, burst: seq<Particle>, count: nat, f: Firework, name: seq<CodeUnit>)
    requires Bursts(b, count, f, name)
    requires NameBatch(burst, name, f.x, f.y, 50.0, SecondaryHue(f.hue), f.brightness)
    ensures Bursts(b + burst, count + 1, f, name)
  {
    assert (b + burst)[..|b + burst| - |name|] == b;
    assert (b + burst)[|b + burst| - |name|..] == burst;
  }

  /** A name batch carries exactly the name's characters, in order. */
  lemma {:induction false} NameBatchGlyphs(b: seq<Particle>, cs: seq<CodeUnit>, x: real, y: real, spread: real, hue: int, brightness: int)
    requires NameBatch(b, cs, x, y, spread, hue, brightness)
    ensures Glyphs(b) == cs
  {
    if b != [] {
      assert b[0].Text?;
      NameBatchGlyphs(b[1..], cs[1..], x, y, spread, hue, brightness);
    }
  }

  /** A sparkle batch carries no glyphs. */
  lemma {:induction false} SparkleBatchGlyphs(b: seq<Particle>, x: real, y: real, spread: real, hue: int, brightness: int)
    requires SparkleBatch(b, x, y, spread, hue, brightness)
    ensures Glyphs(b) == []
  {
    if b != [] {
      assert b[0].Sparkle?;
      SparkleBatchGlyphs(b[1..], x, y, spread, hue, brightness);
    }
  }

  /** `count` bursts hold `count` times the name's length in glyphs, and
      spell the name `count` times over. */
  lemma {:induction false} BurstsShape(b: seq<Particle>, count: nat, f: Firework, name: seq<CodeUnit>)
    requires Bursts(b, count, f, name)
    ensures |b| == count * |name|
    ensures Glyphs(b) == Repeat(name, count)
    decreases count
  {
    if count > 0 {
      var front, back := b[..|b| - |name|], b[|b| - |name|..];
      BurstsShape(front, count - 1, f, name);
      NameBatchGlyphs(back, name, f.x, f.y, 50.0, SecondaryHue(f.hue), f.brightness);
      assert count * |name| == (count - 1) * |name| + |name|;
      GlyphsOfHalves(b, |b| - |name|);
    }
  }

  /** An explosion appends exactly `ExplosionCount` particles: L + 30, plus
      3L more for a super firework. Its glyphs spell the name once, or four
      times for a super firework. */
  lemma ExplosionShape(b: seq<Particle>, f: Firework, name: seq<CodeUnit>)
    requires ExplosionBatch(b, f, name)
    ensures |b| == ExplosionCount(f, |name|)
    ensures Glyphs(b) == ExplosionGlyphs(f, name)
  {
    var m := |name| + ExtraSparkles;
    BurstsShape(b[m..], BurstCount(f), f, name);
    NameBatchGlyphs(b[..|name|], name, f.x, f.y, 0.0, f.hue, f.brightness);
    SparkleBatchGlyphs(b[|name|..m], f.x, f.y, 0.0, f.hue, f.brightness);
    SpelledOut(b, f, name);
  }

  /** The shape of an explosion from the glyphs and lengths of its parts. */
  lemma SpelledOut(b: seq<Particle>, f: Firework, name: seq<CodeUnit>)
    requires |b| >= |name| + ExtraSparkles
    requires Glyphs(b[..|name|]) == name
    requires Glyphs(b[|name|..|name| + ExtraSparkles]) == []
    requires |b[|name| + ExtraSparkles..]| == BurstCount(f) * |name|
    requires Glyphs(b[|name| + ExtraSparkles..]) == Repeat(name, BurstCount(f))
    ensures |b| == ExplosionCount(f, |name|)
    ensures Glyphs(b) == ExplosionGlyphs(f, name)
  {
    GlyphsOfParts(b, |name|, |name| + ExtraSparkles);
    if !f.isSuper {
      assert Repeat(name, 0) == [];
    }
  }

  /** The glyphs of a registry cut in three are the glyphs of the parts. */
  lemma GlyphsOfParts(b: seq<Particle>, i: nat, j: nat)
    requires i <= j <= |b|
    ensures Glyphs(b) == Glyphs(b[..i]) + Glyphs(b[i..j]) + Glyphs(b[j..])
  {
    GlyphsOfHalves(b, j);
    GlyphsOfHalves(b[..j], i);
    assert b[..j][..i] == b[..i];
    assert b[..j][i..] == b[i..j];
  }

  /** Particles one firework `update(now)` appends. */
  function StepCount(f: Firework, now: real, hypot: (real, real) -> real, len: nat): nat {
    (if SparkleDue(f, now) then FlightSparkles else 0)
    + (if Stops(Advance(f, now), hypot) then ExplosionCount(f, len) else 0)
  }

  /** Particles the firework sweep appends. */
  function SweepCount(fs: seq<Firework>, now: real, hypot: (real, real) -> real, len: nat): nat {
    if fs == [] then 0 else StepCount(fs[0], now, hypot, len) + SweepCount(fs[1..], now, hypot, len)
  }

  // ---------------------------------------------------------------------
  // Random draws

  /** Draws per glyph: its speed, then seven in `new TextParticle`. */
  const GlyphDraws: nat := 8
  /** Draws per sparkle: two (an offset pair, or an unused angle and
      speed), then the size in `new SparkleParticle`. */
  const SparkleDraws: nat := 3
  /** Draws per secondary burst: the centre offset pair, then the name. */
  function BurstDraws(len: nat): nat {
    2 + GlyphDraws * len
  }

  /** Draws `explode` makes: the name and the 30 extra sparkles and, for a
      super firework, the delay and the three secondary bursts. */
  function ExplosionDraws(f: Firework, len: nat): nat {
    GlyphDraws * len + SparkleDraws * ExtraSparkles
    + (if f.isSuper then 1 + SecondaryBursts * BurstDraws(len) else 0)
  }

  /** The page's name has sixteen code units, the last two the emoji's
      surrogate pair, so an explosion appends 46 particles (super: 94) and
      makes 218 draws (super: 609). */
  lemma PageName(f: Firework)
    ensures |NameCharacters| == 16 && NameCharacters[14..] == [0xD83D, 0xDE09]
    ensures ExplosionCount(f, |NameCharacters|) == if f.isSuper then 94 else 46
    ensures ExplosionDraws(f, |NameCharacters|) == if f.isSuper then 609 else 218
  {
  }

  /** Draws one firework `update(now)` makes. */
  function StepDraws(f: Firework, now: real, hypot: (real, real) -> real, len: nat): nat {
    (if SparkleDue(f, now) then FlightSparkles * SparkleDraws else 0)
    + (if Stops(Advance(f, now), hypot) then ExplosionDraws(f, len) else 0)
  }

  /** Draws the firework sweep makes. */
  function SweepDraws(fs: seq<Firework>, now: real, hypot: (real, real) -> real, len: nat): nat {
    if fs == [] then 0 else StepDraws(fs[0], now, hypot, len) + SweepDraws(fs[1..], now, hypot, len)
  }

  // ---------------------------------------------------------------------
  // What the firework sweep appends

  /** What one firework `update(now)` appends: three sparkles within 5 of
      the old position when a burst is due, then, when the advanced
      firework stops, its explosion. */
  predicate StepBatch(b: seq<Particle>, f: Firework, now: real, hypot: (real, real) -> real, name: seq<CodeUnit>) {
    var k := if SparkleDue(f, now) then FlightSparkles else 0;
    var g := Advance(f, now);
    |b| >= k
    && SparkleBatch(b[..k], f.x, f.y, 5.0, f.hue, f.brightness)
    && (if Stops(g, hypot) then ExplosionBatch(b[k..], g, name) else b[k..] == [])
  }

  /** What the reverse walk over `fs` appends: the batches of fs[1..]
      (visited first), then the batch of fs[0]. */
  predicate SweepBatch(b: seq<Particle>, fs: seq<Firework>, now: real, hypot: (real, real) -> real, name: seq<CodeUnit>)
    decreases |fs|
  {
    if fs == [] then b == []
    else
      var m := SweepCount(fs[1..], now, hypot, |name|);
      |b| >= m
      && SweepBatch(b[..m], fs[1..], now, hypot, name)
      && StepBatch(b[m..], fs[0], now, hypot, name)
  }

  /** The due sparkles followed by the explosion (if any) form the step batch. */
  lemma StepBatchOf(sparkles: seq<Particle>, burst: seq<Particle>, f: Firework, now: real,
                    hypot: (real, real) -> real, name: seq<CodeUnit>)
    requires |sparkles| == if SparkleDue(f, now) then FlightSparkles else 0
    requires SparkleBatch(sparkles, f.x, f.y, 5.0, f.hue, f.brightness)
    requires if Stops(Advance(f, now), hypot) then ExplosionBatch(burst, Advance(f, now), name) else burst == []
    ensures StepBatch(sparkles + burst, f, now, hypot, name)
  {
    assert (sparkles + burst)[..|sparkles|] == sparkles;
    assert (sparkles + burst)[|sparkles|..] == burst;
  }

  /** A step batch holds exactly the step's particles. */
  lemma StepBatchLength(b: seq<Particle>, f: Firework, now: real, hypot: (real, real) -> real, name: seq<CodeUnit>)
    requires StepBatch(b, f, now, hypot, name)
    ensures |b| == StepCount(f, now, hypot, |name|)
  {
    var k := if SparkleDue(f, now) then FlightSparkles else 0;
    var g := Advance(f, now);
    assert b == b[..k] + b[k..];
    if Stops(g, hypot) {
      ExplosionShape(b[k..], g, name);
      assert g.isSuper == f.isSuper;
    }
  }

  /** A sweep batch holds exactly the sweep's particles. */
  lemma {:induction false} SweepBatchLength(b: seq<Particle>, fs: seq<Firework>, now: real, hypot: (real, real) -> real, name: seq<CodeUnit>)
    requires SweepBatch(b, fs, now, hypot, name)
    ensures |b| == SweepCount(fs, now, hypot, |name|)
    decreases |fs|
  {
    if fs != [] {
      var m := SweepCount(fs[1..], now, hypot, |name|);
      SweepBatchLength(b[..m], fs[1..], now, hypot, name);
      StepBatchLength(b[m..], fs[0], now, hypot, name);
    }
  }

  /** A registry that holds n older particles and then the batch of
      fs[i + 1..] holds, once fs[i]'s due sparkles and explosion are
      appended, the n older particles and then the batch of fs[i..]. */
  lemma SweepAppend(before: seq<Particle>, sparkles: seq<Particle>, burst: seq<Particle>, n: nat,
                    fs: seq<Firework>, i: nat, now: real, hypot: (real, real) -> real, name: seq<CodeUnit>)
    requires i < |fs| && n <= |before|
    requires SweepBatch(before[n..], fs[i + 1..], now, hypot, name)
    requires |sparkles| == if SparkleDue(fs[i], now) then FlightSparkles else 0
    requires SparkleBatch(sparkles, fs[i].x, fs[i].y, 5.0, fs[i].hue, fs[i].brightness)
    requires if Stops(Advance(fs[i], now), hypot) then ExplosionBatch(burst, Advance(fs[i], now), name) else burst == []
    ensures |before + (sparkles + burst)| == n + SweepCount(fs[i..], now, hypot, |name|)
    ensures SweepBatch((before + (sparkles + burst))[n..], fs[i..], now, hypot, name)
  {
    StepBatchOf(sparkles, burst, fs[i], now, hypot, name);
    SweepAppendBatch(before, sparkles + burst, n, fs, i, now, hypot, name);
  }

  lemma SweepAppendBatch(before: seq<Particle>, c: seq<Particle>, n: nat, fs: seq<Firework>, i: nat,
                         now: real, hypot: (real, real) -> real, name: seq<CodeUnit>)
    requires i < |fs| && n <= |before|
    requires SweepBatch(before[n..], fs[i + 1..], now, hypot, name)
    requires StepBatch(c, fs[i], now, hypot, name)
    ensures |before + c| == n + SweepCount(fs[i..], now, hypot, |name|)
    ensures SweepBatch((before + c)[n..], fs[i..], now, hypot, name)
  {
    SuffixAppend(before, c, n);
    SweepBatchPush(before[n..], c, fs, i, now, hypot, name);
    SweepBatchLength(before[n..] + c, fs[i..], now, hypot, name);
  }

  /** Visiting fs[i] after fs[i + 1..] appends its step batch to theirs. */
  lemma SweepBatchPush(a: seq<Particle>, c: seq<Particle>, fs: seq<Firework>, i: nat,
                       now: real, hypot: (real, real) -> real, name: seq<CodeUnit>)
    requires i < |fs|
    requires SweepBatch(a, fs[i + 1..], now, hypot, name)
    requires StepBatch(c, fs[i], now, hypot, name)
    ensures SweepBatch(a + c, fs[i..], now, hypot, name)
  {
    SweepBatchLength(a, fs[i + 1..], now, hypot, name);
    assert fs[i..][1..] == fs[i + 1..];
    assert (a + c)[..|a|] == a;
    assert (a + c)[|a|..] == c;
  }

  // ---------------------------------------------------------------------
  // The firework sweep

  /** The fireworks after one sweep: each advanced once, kept iff it did not stop. */
  function Flying(fs: seq<Firework>, now: real, hypot: (real, real) -> real): (r: seq<Firework>)
    ensures |r| <= |fs|
    ensures forall g | g in r :: !Stops(g, hypot)
  {
    if fs == [] then []
    else
      var g := Advance(fs[0], now);
      (if Stops(g, hypot) then [] else [g]) + Flying(fs[1..], now, hypot)
  }

  /** The fireworks that stopped (and exploded) in one sweep, advanced. */
  function Landed(fs: seq<Firework>, now: real, hypot: (real, real) -> real): (r: seq<Firework>)
    ensures forall g | g in r :: Stops(g, hypot)
  {
    if fs == [] then []
    else
      var g := Advance(fs[0], now);
      (if Stops(g, hypot) then [g] else []) + Landed(fs[1..], now, hypot)
  }

  /** Every firework of `fs` advanced once, in order. */
  function Stepped(fs: seq<Firework>, now: real): (r: seq<Firework>)
    ensures |r| == |fs|
    ensures forall k | 0 <= k < |fs| :: r[k] == Advance(fs[k], now)
  {
    if fs == [] then [] else [Advance(fs[0], now)] + Stepped(fs[1..], now)
  }

  /** Each firework either keeps flying or explodes, never both and never
      neither: the advanced fireworks are split between the two, the
      non-stopping ones to `Flying` and the stopping ones to `Landed`. */
  lemma EachFireworkOnce(fs: seq<Firework>, now: real, hypot: (real, real) -> real)
    ensures |Flying(fs, now, hypot)| + |Landed(fs, now, hypot)| == |fs|
    ensures multiset(Flying(fs, now, hypot)) + multiset(Landed(fs, now, hypot)) == multiset(Stepped(fs, now))
  {
    SweepSplits(fs, now, hypot);
    assert |multiset(Stepped(fs, now))| == |fs|;
  }

  lemma {:induction false} SweepSplits(fs: seq<Firework>, now: real, hypot: (real, real) -> real)
    ensures multiset(Flying(fs, now, hypot)) + multiset(Landed(fs, now, hypot)) == multiset(Stepped(fs, now))
  {
    if fs != [] {
      SweepSplits(fs[1..], now, hypot);
      var g := Advance(fs[0], now);
      assert Stepped(fs, now) == [g] + Stepped(fs[1..], now);
      if Stops(g, hypot) {
        assert Landed(fs, now, hypot) == [g] + Landed(fs[1..], now, hypot);
      } else {
        assert Flying(fs, now, hypot) == [g] + Flying(fs[1..], now, hypot);
      }
    }
  }

  /** The k-th firework, advanced, ends up in `Flying` exactly when it does
      not stop and in `Landed` exactly when it does. */
  lemma EachFireworkPlaced(fs: seq<Firework>, k: nat, now: real, hypot: (real, real) -> real)
    requires k < |fs|
    ensures Advance(fs[k], now) in Flying(fs, now, hypot) <==> !Stops(Advance(fs[k], now), hypot)
    ensures Advance(fs[k], now) in Landed(fs, now, hypot) <==> Stops(Advance(fs[k], now), hypot)
  {
    var g := Advance(fs[k], now);
    EachFireworkOnce(fs, now, hypot);
    assert g in multiset(Stepped(fs, now)) by {
      assert Stepped(fs, now)[k] == g;
    }
  }

  /** Sweeping a concatenation sweeps each part: relative order is kept. */
  lemma {:induction false} FlyingAppend(a: seq<Firework>, b: seq<Firework>, now: real, hypot: (real, real) -> real)
    ensures Flying(a + b, now, hypot) == Flying(a, now, hypot) + Flying(b, now, hypot)
  {
    if a == [] {
      assert a + b == b;
    } else {
      assert (a + b)[1..] == a[1..] + b;
      FlyingAppend(a[1..], b, now, hypot);
    }
  }

  /** A firework as `new EnhancedFirework(x, y, targetX, targetY, isSuper)`
      makes it: at rest on the launch point with an empty trail. */
  predicate IsLaunched(f: Firework, x: real, y: real, targetX: real, targetY: real, isSuper: bool) {
    f.x == x && f.y == y && f.startY == y && f.targetX == targetX && f.targetY == targetY
    && f.isSuper == isSuper && f.trail == [] && f.lastSparkle == 0.0
    && 0 <= f.hue < 360 && 60 <= f.brightness <= 90
    && 0.3 <= f.sparkleInterval < 0.8
  }

  /** A firework as `launchRandomFirework(isSuper)` makes it on a `width` by
      `height` canvas: launched from the bottom edge, inside the width when
      the width is not negative, towards a target within 75 (super: 150)
      horizontally and in the top 40% (super: 30%) of the canvas. */
  predicate IsRandomLaunch(f: Firework, width: real, height: real, isSuper: bool) {
    var spread := if isSuper then 150.0 else 75.0;
    var top := height * (if isSuper then 0.3 else 0.4);
    f.y == f.startY == height && f.isSuper == isSuper && f.trail == [] && f.lastSparkle == 0.0
    && (width >= 0.0 ==> 0.0 <= f.x <= width)
    && f.x - spread <= f.targetX <= f.x + spread
    && (height >= 0.0 ==> 0.0 <= f.targetY <= top)
    && 0 <= f.hue < 360 && 60 <= f.brightness <= 90
    && 0.3 <= f.sparkleInterval < 0.8
  }

  predicate TrailsShaped(fs: seq<Firework>) {
    forall f | f in fs :: TrailShaped(f.trail)
  }

  lemma ShapedRemove(fs: seq<Firework>, i: nat)
    requires TrailsShaped(fs) && i < |fs|
    ensures TrailsShaped(fs[..i] + fs[i + 1..])
  {
    assert forall f | f in fs[..i] + fs[i + 1..] :: f in fs;
  }

  lemma ShapedReplace(fs: seq<Firework>, i: nat, g: Firework)
    requires TrailsShaped(fs) && i < |fs| && TrailShaped(g.trail)
    ensures TrailsShaped(fs[i := g])
  {
    assert forall f | f in fs[i := g] :: f in fs || f == g;
  }

  /** The particles appended and the draws made while sweeping fs[i..] are
      those of fs[i]'s step plus those of the rest. */
  lemma SweepCountUnfold(fs: seq<Firework>, i: nat, now: real, hypot: (real, real) -> real, len: nat)
    requires i < |fs|
    ensures SweepCount(fs[i..], now, hypot, len) == StepCount(fs[i], now, hypot, len) + SweepCount(fs[i + 1..], now, hypot, len)
    ensures SweepDraws(fs[i..], now, hypot, len) == StepDraws(fs[i], now, hypot, len) + SweepDraws(fs[i + 1..], now, hypot, len)
  {
    assert fs[i..][1..] == fs[i + 1..];
  }

  /** A reverse-index walk over `fs` has visited fs[i..]: the registry holds
      fs[..i] followed by the visited fireworks still flying, `drawn` holds
      those in visiting order, and `exploded` the ones that stopped. */
  predicate Walked(fs: seq<Firework>, i: nat, now: real, hypot: (real, real) -> real,
                   registry: seq<Firework>, drawn: seq<Firework>, exploded: seq<Firework>)
  {
    i <= |fs|
    && registry == fs[..i] + Flying(fs[i..], now, hypot)
    && drawn == Reversed(Flying(fs[i..], now, hypot))
    && exploded == Reversed(Landed(fs[i..], now, hypot))
  }

  /** One visit of the walk: the firework at index i is still the original
      fs[i]; after its step it is spliced out if it stopped and replaced by
      its stepped self otherwise. */
  lemma WalkStep(fs: seq<Firework>, i: nat, now: real, hypot: (real, real) -> real,
                 registry: seq<Firework>, drawn: seq<Firework>, exploded: seq<Firework>)
    requires i < |fs| && Walked(fs, i + 1, now, hypot, registry, drawn, exploded)
    ensures i < |registry| && registry[i] == fs[i]
    ensures var g := Advance(fs[i], now);
      (Stops(g, hypot) ==> Walked(fs, i, now, hypot, registry[..i] + registry[i + 1..], drawn, exploded + [g]))
      && (!Stops(g, hypot) ==> Walked(fs, i, now, hypot, registry[i := g], drawn + [g], exploded))
  {
    var flying := Flying(fs[i + 1..], now, hypot);
    assert fs[..i + 1] == fs[..i] + [fs[i]];
    SplitAround(fs[..i], fs[i], flying, registry);
    if Stops(Advance(fs[i], now), hypot) {
      WalkStop(fs, i, now, hypot, drawn, exploded);
    } else {
      WalkKeep(fs, i, now, hypot, drawn, exploded);
      ReplaceAround(fs[..i], fs[i], flying, registry, Advance(fs[i], now));
    }
  }

  /** A registry a + [x] + b splits around x. */
  lemma SplitAround<T>(a: seq<T>, x: T, b: seq<T>, r: seq<T>)
    requires r == a + [x] + b
    ensures |a| < |r| && r[|a|] == x && r[..|a|] == a && r[|a| + 1..] == b
  {
    assert r[..|a|] == a;
    assert r[|a| + 1..] == b;
  }

  /** Replacing x in a + [x] + b. */
  lemma ReplaceAround<T>(a: seq<T>, x: T, b: seq<T>, r: seq<T>, y: T)
    requires r == a + [x] + b
    ensures r[|a| := y] == a + ([y] + b)
  {
  }

  /** The visit of a firework that stopped: it moves to `exploded`. */
  lemma WalkStop(fs: seq<Firework>, i: nat, now: real, hypot: (real, real) -> real,
                 drawn: seq<Firework>, exploded: seq<Firework>)
    requires i < |fs| && Stops(Advance(fs[i], now), hypot)
    requires drawn == Reversed(Flying(fs[i + 1..], now, hypot))
    requires exploded == Reversed(Landed(fs[i + 1..], now, hypot))
    ensures Flying(fs[i..], now, hypot) == Flying(fs[i + 1..], now, hypot)
    ensures drawn == Reversed(Flying(fs[i..], now, hypot))
    ensures exploded + [Advance(fs[i], now)] == Reversed(Landed(fs[i..], now, hypot))
  {
    var g := Advance(fs[i], now);
    assert fs[i..][1..] == fs[i + 1..];
    assert Landed(fs[i..], now, hypot) == [g] + Landed(fs[i + 1..], now, hypot);
    ReversedAppend([g], Landed(fs[i + 1..], now, hypot));
    assert Reversed([g]) == [g];
  }

  /** The visit of a firework still flying: it is stepped in place and drawn. */
  lemma WalkKeep(fs: seq<Firework>, i: nat, now: real, hypot: (real, real) -> real,
                 drawn: seq<Firework>, exploded: seq<Firework>)
    requires i < |fs| && !Stops(Advance(fs[i], now), hypot)
    requires drawn == Reversed(Flying(fs[i + 1..], now, hypot))
    requires exploded == Reversed(Landed(fs[i + 1..], now, hypot))
    ensures Flying(fs[i..], now, hypot) == [Advance(fs[i], now)] + Flying(fs[i + 1..], now, hypot)
    ensures drawn + [Advance(fs[i], now)] == Reversed(Flying(fs[i..], now, hypot))
    ensures exploded == Reversed(Landed(fs[i..], now, hypot))
  {
    var g := Advance(fs[i], now);
    assert fs[i..][1..] == fs[i + 1..];
    assert Flying(fs[i..], now, hypot) == [g] + Flying(fs[i + 1..], now, hypot);
    assert Landed(fs[i..], now, hypot) == Landed(fs[i + 1..], now, hypot);
    ReversedAppend([g], Flying(fs[i + 1..], now, hypot));
    assert Reversed([g]) == [g];
  }

  /** The whole walk: starting with nothing visited and ending with
      everything visited, the registry is the sweep of the old one. */
  lemma WalkBounds(fs: seq<Firework>, now: real, hypot: (real, real) -> real,
                   registry: seq<Firework>, drawn: seq<Firework>, exploded: seq<Firework>)
    ensures Walked(fs, |fs|, now, hypot, fs, [], [])
    ensures Walked(fs, 0, now, hypot, registry, drawn, exploded) ==>
      registry == Flying(fs, now, hypot) && drawn == Reversed(registry)
      && exploded == Reversed(Landed(fs, now, hypot))
  {
    assert fs[|fs|..] == [] && fs[..|fs|] == fs;
    assert fs[0..] == fs && fs[..0] == [];
  }

  /** Only sparkle bursts and explosions add particles or draw: with no
      burst due and no firework stopping, the firework sweep appends nothing
      and makes no draw. */
  lemma QuietSweep(fs: seq<Firework>, now: real, hypot: (real, real) -> real, len: nat)
    requires forall k :: 0 <= k < |fs| ==> !SparkleDue(fs[k], now)
    requires Landed(fs, now, hypot) == []
    ensures SweepCount(fs, now, hypot, len) == 0
    ensures SweepDraws(fs, now, hypot, len) == 0
    ensures |Flying(fs, now, hypot)| == |fs|
    ensures forall k :: 0 <= k < |fs| ==> Flying(fs, now, hypot)[k] == Advance(fs[k], now)
  {
    QuietSteps(fs, now, hypot, len);
    QuietFlight(fs, now, hypot);
  }

  lemma {:induction false} QuietSteps(fs: seq<Firework>, now: real, hypot: (real, real) -> real, len: nat)
    requires forall k :: 0 <= k < |fs| ==> !SparkleDue(fs[k], now)
    requires Landed(fs, now, hypot) == []
    ensures SweepCount(fs, now, hypot, len) == 0
    ensures SweepDraws(fs, now, hypot, len) == 0
  {
    if fs != [] {
      var tail := fs[1..];
      assert !SparkleDue(fs[0], now);
      assert !Stops(Advance(fs[0], now), hypot);
      assert Landed(tail, now, hypot) == [];
      assert forall k :: 0 <= k < |tail| ==> tail[k] == fs[k + 1];
      QuietSteps(tail, now, hypot, len);
    }
  }

  lemma {:induction false} QuietFlight(fs: seq<Firework>, now: real, hypot: (real, real) -> real)
    requires Landed(fs, now, hypot) == []
    ensures |Flying(fs, now, hypot)| == |fs|
    ensures forall k :: 0 <= k < |fs| ==> Flying(fs, now, hypot)[k] == Advance(fs[k], now)
  {
    if fs != [] {
      var tail := fs[1..];
      var g := Advance(fs[0], now);
      assert !Stops(g, hypot);
      assert Landed(tail, now, hypot) == [];
      QuietFlight(tail, now, hypot);
      assert Flying(fs, now, hypot) == [g] + Flying(tail, now, hypot);
    }
  }

  // ---------------------------------------------------------------------
  // The FPS counter

  datatype FpsCounter = FpsCounter(frameCount: nat, lastTime: real, fps: nat)

  /** One frame of the counter at the top of `animate`. */
  function FpsStep(c: FpsCounter, now: real): FpsCounter {
    var n := c.frameCount + 1;
    if now - c.lastTime >= FpsWindow then FpsCounter(0, now, n) else c.(frameCount := n)
  }

  function FpsRun(c: FpsCounter, times: seq<real>): FpsCounter
    decreases |times|
  {
    if times == [] then c else FpsRun(FpsStep(c, times[0]), times[1..])
  }

  /** Frames within a second of the last report are only counted. */
  lemma {:induction false} QuietFrames(c: FpsCounter, times: seq<real>)
    requires forall k :: 0 <= k < |times| ==> times[k] - c.lastTime < FpsWindow
    ensures FpsRun(c, times) == c.(frameCount := c.frameCount + |times|)
    decreases |times|
  {
    if times != [] {
      assert forall k :: 0 <= k < |times[1..]| ==> times[1..][k] == times[k + 1];
      QuietFrames(FpsStep(c, times[0]), times[1..]);
    }
  }

  /** The reported rate is the number of frames since the previous report,
      this one included, and the count restarts. */
  lemma ReportCountsFrames(c: FpsCounter, times: seq<real>, now: real)
    requires forall k :: 0 <= k < |times| ==> times[k] - c.lastTime < FpsWindow
    requires now - c.lastTime >= FpsWindow
    ensures FpsRun(c, times + [now]) == FpsCounter(0, now, c.frameCount + |times| + 1)
  {
    QuietFrames(c, times);
    FpsRunAppend(c, times, now);
  }

  lemma {:induction false} FpsRunAppend(c: FpsCounter, times: seq<real>, now: real)
    ensures FpsRun(c, times + [now]) == FpsStep(FpsRun(c, times), now)
    decreases |times|
  {
    if times == [] {
      assert times + [now] == [now];
    } else {
      assert (times + [now])[1..] == times[1..] + [now];
      FpsRunAppend(FpsStep(c, times[0]), times[1..], now);
    }
  }

  // ---------------------------------------------------------------------
  // The automatic flower trigger

  /** One firing of the 3.5 s interval: a flower is added when the roll
      beats 0.7 and fewer than 25 flowers exist. */
  function FlowerTick(count: nat, roll: real): nat {
    if roll > FlowerChance && count < FlowerCeiling then count + 1 else count
  }

  function FlowersAfter(count: nat, rolls: seq<real>): nat
    decreases |rolls|
  {
    if rolls == [] then count else FlowersAfter(FlowerTick(count, rolls[0]), rolls[1..])
  }

  /** The automatic trigger alone never takes the flower count past 25, and
      adds at most one flower per firing. */
  lemma {:induction false} FlowerCeilingHolds(count: nat, rolls: seq<real>)
    requires count <= FlowerCeiling
    ensures count <= FlowersAfter(count, rolls) <= FlowerCeiling
    ensures FlowersAfter(count, rolls) <= count + |rolls|
    decreases |rolls|
  {
    if rolls != [] {
      FlowerCeilingHolds(FlowerTick(count, rolls[0]), rolls[1..]);
    }
  }
}
