# Birthday fireworks: a verified model of the particle simulation

The page (`script.js`) shows rising fireworks that burst into the letters of
a name, short-lived sparkles, and a background of stars and flowers. Almost
all of it is canvas drawing and DOM building. This project models the part
that is discrete simulation logic, and proves properties about it:

- **`darkenColor`** (module `Color`). It parses a colour string as
  `parseInt(color.replace("#", ""), 16)`. It then applies JavaScript's 32-bit
  signed `>>` and `&`, subtracts an amount from each channel and clamps each
  channel to [0,255]. It prints the result with the `0x1000000 + …`,
  `toString(16).slice(1)` trick. The model is total: any string gets a
  darkened colour, as in the source.
- **The three particle kinds** (module `Particles`): `TextParticle`,
  `EnhancedParticle` (called `Glow` here) and `SparkleParticle`. They form one
  tagged datatype with its per-frame `update`, the liveness threshold of each
  kind (0.1 for text, 0 for the others), and a reference definition of one
  sweep of the particle registry.
- **The rising firework** (module `Fireworks`): the bounded, fading
  eight-point trail, one flight step, the sparkle timer and the stop test
  `distance < 15 || startY - y > 500`.
- **Registry-level reference definitions** (module `Frames`): the shape and
  size of the particle batches an explosion appends, the firework sweep, the
  FPS counter and the automatic flower ceiling.
- **The running show** (module `Animation`, class `Scene`): the global
  registries `fireworks` and `particles`, the FPS counter and the flower
  count. Its methods follow the source statement by statement. This includes
  the reverse-index walks of `animate` that splice out entries whose `update`
  returned false, and the loops that append particles in `createSparkle`,
  `createNameExplosion` and `createSecondaryNameExplosions`. Each method is
  proved against the reference definitions.

Numbers are exact `real`s, so the source's constants appear literally
(0.1, 0.15, 0.96, 0.005). The class draws `Math.random()` from a stream
`rand: nat -> real` in [0,1). A counter `draws` records how many values have
been consumed. Within one modelled operation the draws come in the order
the source makes them. Across operations the order differs in two ways (see
"## Left out"). First, the star and flower code also calls `Math.random()`,
and those calls are not modelled. Second, a super firework's delayed bursts
make their draws at once rather than in a later timer callback. `Math.sin`, `cos`, `hypot`
and `atan2` are functions supplied in a `Geometry` value.

`NAME_CHARACTERS` is `"Collins At 22 😉".split('')` (script.js:26-27).
`split('')` splits by UTF-16 code unit, so the emoji is two units (a
surrogate pair) and the name has 16 characters (`Frames.NameCharacters`,
pinned down by `Frames.PageName`). The explosion proofs hold for any name.

Three behaviours of the code are kept as written:

- A super firework's secondary bursts append only glyphs: three copies of
  the name, 3×L particles. The 30 extra sparkles are not repeated
  (script.js:456-481).
- The 30 extra particles of a name explosion are plain sparkles. The
  velocity computed for them is never used, but its two random draws are
  made (script.js:440-452).
- The per-character burst angle `(i * 360) / L` is a number of degrees, and
  it is passed to `Math.cos`/`Math.sin`, which read it as radians
  (script.js:419-424). The model passes the degree value to
  `geo.cos`/`geo.sin`.

## Model

| member | source | states |
|---|---|---|
| `Color.Darken` | script.js:733-746 | For every input string and amount, the result is `#` followed by exactly six lower-case hex digits |
| `Color.DarkenDecodes` | script.js:734-745 | For every input string, the result's channels are the 32-bit word's `>>16`, `>>8&0xFF` and `&0xFF` fields, each less `amt` and clamped to [0,255] |
| `Color.DarkenWordChannels` | script.js:736-745 | Once the word is known, the printed result reads back as the word's three fields, each less `amt` and clamped |
| `Color.DarkenChannels` | script.js:734-745 | On a well-formed `#rrggbb` colour, each output channel is the input channel minus `amt`, clamped to [0,255] |
| `Color.DarkenNeverBrightens` | script.js:736-744 | With `amt >= 0`, no output channel exceeds the input channel |
| `Color.DarkenByZero` | script.js:736-744 | With `amt = 0`, the output encodes the same R, G and B as the input |
| `Color.DarkenByZeroText` | script.js:734-745 | With `amt = 0`, the output is the input's own six digits, in lower case |
| `Color.Clamp` | script.js:741-743 | The nested conditional gives a value in [0,255]: the channel itself inside the range, 0 below it, 255 above it |
| `Color.ToInt32` | script.js:736-738 | The operand the bit operations see is the 32-bit signed integer congruent to the parsed number modulo 2^32 |
| `Color.RemoveFirstHash` | script.js:734 | `replace("#", "")` removes exactly one character when there is a `#`, and leaves a string without `#` unchanged |
| `Color.RemovesFirstHash` | script.js:734 | The character removed is the first `#`: the result is the text before it followed by the text after it |
| `Color.ParseInt16` | script.js:734 | `parseInt(s, 16)` is NaN exactly when no hex digit follows the optional sign and `0x`/`0X` prefix. A result after a leading `-` is never positive, and one without it never negative |
| `Color.ParseDigits` | script.js:734 | A run of hex digits followed by a non-digit parses to the run's value (unless the run is `0` and an `x` follows, which makes a prefix) |
| `Color.ParseSigned` | script.js:734 | A leading `-` negates the parse of the rest (NaN stays NaN), and a leading `+` changes nothing |
| `Color.ParsePrefixed` | script.js:734 | After `0x` or `0X` (either case), hex digits parse to their value, and no digits at all give NaN |
| `Color.ParseNaN` | script.js:734 | A string starting with neither a sign nor a hex digit parses to NaN |
| `Color.Word` | script.js:734-738 | The operand of `>>` and `&` is a 32-bit signed integer congruent to the parsed number modulo 2^32, and 0 when the parse is NaN |
| `Color.DarkenWord` | script.js:736-745 | Whatever the word and amount, the clamped channels print as `#` followed by exactly six lower-case hex digits |
| `Color.HexRun` | script.js:734 | `parseInt` reads the longest prefix made of hex digits and stops at the first other character |
| `Color.ParseAllHex` | script.js:734 | `parseInt(s, 16)` of a non-empty string of hex digits is the number those digits spell |
| `Color.WellFormedWord` | script.js:734 | A well-formed colour parses to the value of its six digits, which ToInt32 leaves unchanged |
| `Color.WordChannels` | script.js:736-738 | The shifts and masks pick out exactly the three two-digit channels of a well-formed colour |
| `Color.ToHex` | script.js:745 | `toString(16)` prints a non-empty string of lower-case hex digits |
| `Color.ToHexPadded` | script.js:739-745 | Printing `16^w + v` gives a leading `1` and then v padded to w digits, so `slice(1)` leaves exactly the padded digits |
| `Color.PrintedPacked` | script.js:739-745 | For a 24-bit value, the digits after `slice(1)` are its six-digit padded form |
| `Color.FixedHexValue` | script.js:745 | Reading back the printed padded digits gives the value (print, then parse) |
| `Color.FixedHexOfValue` | script.js:734-745 | Printing the value of a string of hex digits at its width gives the digits back in lower case (parse, then print) |
| `Color.PackedChannels` | script.js:739-745 | The three channels packed by `*0x10000` and `*0x100` are read back from digit pairs 1-2, 3-4 and 5-6 |
| `Particles.Update` | script.js:541-666 | One `update()` keeps the kind and fixed attributes. It lowers alpha by exactly the decay (strictly when the decay is positive). It returns true iff the new alpha is above the kind's threshold (0.1 for text, 0 otherwise) |
| `Particles.AfterUpdatesAlpha` | script.js:541-666 | After n updates, alpha is the initial alpha minus n times the decay; kind, decay and threshold are unchanged |
| `Particles.AlphaNonIncreasing` | script.js:556-558 | With a positive decay, alpha never rises from one frame to a later one |
| `Particles.SparkleLifetime` | script.js:652-666 | A fresh sparkle (alpha 1, decay 0.1) is alive after n updates iff n < 10 |
| `Particles.TextLifetime` | script.js:521-558 | A fresh glyph (alpha 1, decay in [0.005, 0.01)) is alive after 89 updates and dead after 180 |
| `Particles.Survivors` | script.js:716-722 | One sweep keeps at most as many particles as it started with, and every kept particle is alive |
| `Particles.SurvivorsAppend` | script.js:716-722 | Sweeping a concatenation sweeps each part, so survivors keep their relative order |
| `Particles.SurvivorsMembers` | script.js:716-722 | A particle is in the swept registry iff it is the update of some old particle whose `update` returned true |
| `Particles.SurvivorsExtremes` | script.js:716-722 | When every `update` returns true nothing is removed; when none does, the registry empties |
| `Particles.SurvivorsKeepDecay` | script.js:716-722 | A sweep keeps the registry invariant: every particle is alive and has a positive decay |
| `Fireworks.FadeTrail` | script.js:372 | The `forEach` lowers every point's alpha by 0.1 and leaves positions and length unchanged |
| `Fireworks.TrailFifo` | script.js:366-372 | The trail stays at most 8 points. The newest point is the pre-move position at alpha 0.9. The older points are the previous trail, faded. The oldest is dropped only when 8 were already held |
| `Fireworks.TrailStepKeepsShape` | script.js:366-372 | A step keeps the trail invariant: at most 8 points, and the point pushed k steps ago has alpha 1 − k/10 |
| `Fireworks.TrailShapedVisible` | script.js:366-372 | Under that invariant every trail point's alpha lies in [0.2, 0.9] |
| `Fireworks.Move` | script.js:365-379 | The push, shift, fade, velocity and gravity statements produce exactly the reference flight step `Moved` |
| `Fireworks.AdvanceKeeps` | script.js:358-379 | A flight step never changes the launch height, target, colour, kind or sparkle interval, and keeps the trail's shape |
| `Fireworks.SparkleOncePerInstant` | script.js:360-363 | Right after a step at time t, no sparkle burst is due at t |
| `Frames.JsRemainder` | script.js:474 | JavaScript's `%`: the result is the dividend less a whole multiple of m, lies strictly between −m and m, and has the dividend's sign |
| `Frames.JsRemainderEuclidean` | script.js:474 | For a non-negative dividend JavaScript's `%` equals Euclidean modulo |
| `Frames.SecondaryHueWraps` | script.js:474 | For a hue in [0,360), `(hue + 30) % 360` is again in [0,360): hue + 30 below 330, hue − 330 from 330 on |
| `Frames.FloorBelow` | script.js:341-342 | For a draw r in [0,1) and k > 0, `Math.floor(r * k)` lies in 0 .. k − 1 |
| `Frames.WithinRange` | script.js:748-755 | For a draw r in [0,1) and an extent e >= 0, `r * e` lies in [0, e] |
| `Frames.NameBatchGlyphs` | script.js:419-436 | A name batch carries the name's characters in index order |
| `Frames.SparkleBatchGlyphs` | script.js:440-452 | The 30 extra particles carry no characters |
| `Frames.BurstsShape` | script.js:456-481 | The secondary bursts hold exactly 3×L glyphs, spelling the name three times |
| `Frames.ExplosionShape` | script.js:405-482 | An explosion appends exactly L + 30 particles, plus 3×L for a super firework. Its glyphs spell the name once, or four times for a super firework |
| `Frames.Flying` | script.js:707-713 | No firework that survives a sweep meets the stop test, and the sweep never grows the registry |
| `Frames.Landed` | script.js:707-713 | Every firework removed by a sweep met the stop test |
| `Frames.EachFireworkOnce` | script.js:707-713 | The survivors and the exploded fireworks together are exactly the swept fireworks, each advanced once, as a multiset, so no firework is lost or counted twice |
| `Frames.EachFireworkPlaced` | script.js:707-713 | The k-th firework, advanced, is among the survivors iff it does not meet the stop test, and among the exploded iff it does |
| `Frames.FlyingAppend` | script.js:707-713 | Sweeping a concatenation sweeps each part, so surviving fireworks keep their order |
| `Frames.WalkStep` | script.js:707-712 | Each visit of the reverse walk finds the original firework at index i. It then leaves the registry as the walked prefix plus the sweep of the rest |
| `Frames.QuietSweep` | script.js:358-391 | With no sparkle due and no firework stopping, the firework sweep appends nothing, makes no random draw and only advances each firework |
| `Frames.StepBatchLength` | script.js:358-391 | What one `update(now)` appends holds exactly the due sparkles plus, on a stop, the explosion's particles |
| `Frames.SweepBatchLength` | script.js:707-713 | What the firework sweep appends holds exactly the sum of the steps' particles |
| `Frames.SweepAppend` | script.js:708-712 | Visiting fs[i] after fs[i+1..] puts its due sparkles and then its explosion after the particles the earlier visits appended |
| `Frames.PageName` | script.js:26-27 | The page's name has 16 UTF-16 code units ending in a surrogate pair, so an explosion appends 46 particles (super: 94) and makes 218 draws (super: 609) |
| `Frames.QuietFrames` | script.js:691-697 | Frames within a second of the last report only increment the frame count |
| `Frames.ReportCountsFrames` | script.js:691-697 | The reported rate is the number of frames since the previous report, this one included, and the count restarts at zero |
| `Frames.FlowerCeilingHolds` | script.js:885-889 | The automatic trigger alone never takes the flower count past 25, and adds at most one flower per firing |
| `Animation.Scene.constructor` | script.js:15-23 | The page starts with empty registries, no draws made and the counter at 60 fps |
| `Animation.Scene.NewText` | script.js:521-537 | A new glyph makes seven draws and starts at alpha 1 with decay in [0.005, 0.01), size in [25, 45) and the given character and velocity |
| `Animation.Scene.NewSparkle` | script.js:652-660 | A new sparkle makes one draw and starts at alpha 1 with decay 0.1 and size in [1, 3) |
| `Animation.Scene.CreateSparkle` | script.js:393-403 | Appends exactly 3 sparkles within 5 of the firework and leaves the existing particles untouched. It makes 9 draws: two offsets and a size per sparkle |
| `Animation.Scene.AppendName` | script.js:419-436 | Appends exactly L glyphs carrying the characters in index order, after the existing particles. It makes 8 draws per glyph: its speed and seven in the constructor |
| `Animation.Scene.CreateNameExplosion` | script.js:417-453 | Appends exactly L glyphs followed by exactly 30 sparkles, all at the firework. Existing particles are neither removed nor reordered. It makes 8×L + 90 draws |
| `Animation.Scene.SecondaryBurst` | script.js:458-479 | One delayed burst appends the L glyphs within 50 of the firework, in hue `(hue + 30) % 360`, and no sparkles. It makes 2 + 8×L draws |
| `Animation.Scene.CreateSecondaryNameExplosions` | script.js:456-481 | Appends exactly 3×L glyphs, as three such bursts, after the existing particles. It makes 3×(2 + 8×L) draws |
| `Animation.Scene.Explode` | script.js:405-415 | Appends exactly the reference explosion batch: the name explosion, then the secondary bursts only for a super firework. It makes 8×L + 90 draws, plus the delay draw and the bursts' draws for a super firework |
| `Animation.Scene.SparkleIfDue` | script.js:360-363 | When `now - lastSparkle > interval*1000`, appends exactly 3 sparkles and sets `lastSparkle` to now; otherwise changes neither. It makes 9 draws when a burst is due and none otherwise |
| `Animation.Scene.ExplodeIfStopped` | script.js:381-390 | Returns false exactly when distance < 15 or the rise exceeds 500. In that case it explodes once; otherwise it appends nothing. It makes the explosion's draws on a stop and none otherwise |
| `Animation.Scene.UpdateFirework` | script.js:358-391 | One `update(now)` gives the reference step `Advance`. It appends the due sparkles and then, only on a stop, the explosion, and reports alive iff the stop test fails. It makes the step's draws: 9 for a due burst, plus the explosion's on a stop |
| `Animation.Scene.VisitFirework` | script.js:708-712 | One visit updates the firework at index i and splices it out or replaces it. The particles it appends (its due sparkles, then its explosion on a stop) and its draws extend the walk invariant |
| `Animation.Scene.UpdateFireworks` | script.js:707-713 | The registry becomes the reference sweep. Survivors are drawn once each, in walk order, and exploded fireworks are reported. Earlier particles are kept as a prefix. After them come, firework by firework from the last index down, each one's due sparkles and then its explosion. The draws made are the sum of the steps' draws |
| `Animation.Scene.VisitParticle` | script.js:717-721 | One visit updates the particle at index i, splices it out or replaces it, and extends the walk invariant |
| `Animation.Scene.UpdateParticles` | script.js:716-722 | The registry becomes exactly the survivors in original order, each updated once, and each survivor is drawn exactly once |
| `Animation.Scene.CountFrame` | script.js:690-697 | The counter takes exactly the reference FPS step |
| `Animation.Scene.SweepRegistries` | script.js:706-722 | Fireworks are swept first. `emitted` is exactly the sweep's batch: per firework from the last index down, its due sparkles, then its explosion. The draws are the sweep's. The particle sweep then covers the old particles and `emitted` |
| `Animation.Scene.Animate` | script.js:689-728 | One frame counts itself and sweeps both registries, with the effects above: the emitted particles and the draws of the firework sweep |
| `Animation.Scene.Launch` | script.js:327-351 | A new firework is appended at the launch point with an empty trail, hue in [0,360), brightness in [60,90] and sparkle interval in [0.3, 0.8); it makes six draws |
| `Animation.Scene.LaunchRandom` | script.js:748-758 | Appends one firework with nine draws. It starts on the bottom edge, inside the width, with an empty trail, hue in [0,360), brightness in [60,90] and sparkle interval in [0.3,0.8). Its target is within 75 (super: 150) horizontally and in the top 40% (super: 30%) |
| `Animation.Scene.AutoLaunch` | script.js:878-882 | A roll above 0.6 appends one firework with 11 draws in all, super iff a second roll is above 0.8, placed and coloured as `LaunchRandom` places it. Otherwise the registry is unchanged after one draw |
| `Animation.Scene.AutoFlower` | script.js:885-889 | The flower count follows `FlowerTick`: one more only on a roll above 0.7 with fewer than 25 flowers |

## Left out

- Canvas drawing (every `draw`, gradients, shadows, `fillRect`) is left out. Its only effect is pixels. The model records only which entities are drawn, and in what order.
- DOM flowers (`createFlower`, `bloomFlower`, `animateFlowers`, `createInitialFlowers`) and the stars (`createStars`, `drawStarParticles`) are left out. They are DOM and CSS glue; flowers are kept only as a count.
- `Animation.Scene.Animate`: the star particles are not modelled, so neither are their random draws. `drawStarParticles`, called by every frame, draws a new height for each star that wraps past the right edge (script.js:304-320). `createStars` draws when the page starts and on reset (script.js:258-299). The model's draw count covers only the fireworks and particles, so in the source the stream position after a frame is further along.
- `Animation.Scene.AutoFlower`: the random draws that `createRandomFlower` and `createFlower` make are not consumed, because flower creation is not modelled. After a flower is added, the model's draw stream is ahead of the source's.
- `requestAnimationFrame`, `setInterval` and the event listeners (click, double-click, buttons, resize, `resetScene`, `createMegaFirework`) are left out. They are timer and event plumbing; the scheduled actions are modelled as direct calls (`Animate`, `AutoLaunch`, `AutoFlower`, `LaunchRandom`).
- `Animation.Scene.Explode`: the `setTimeout` delays (300-700 ms, then 0/200/400 ms) are not modelled. The secondary bursts are appended at once, right after the primary batch, although the delay's random draw is made. In the source they land in later frames, and may interleave with other particles. Their 3×(2 + 8×L) draws are likewise made at once, before the rest of the frame's firework walk. In the source they come after it, interleaved with later frames' draws.
- Floating-point arithmetic is left out. Positions, velocities and alphas are exact reals, so IEEE-754 rounding is not modelled.
- `Particles.SparkleLifetime`: holds in exact arithmetic only. In IEEE doubles, ten subtractions of 0.1 from 1 leave about 1.4e-16 > 0, so the source keeps a sparkle for one frame more.
- `Math.random`, `Math.sin`, `Math.cos`, `Math.hypot` and `Math.atan2` are parameters, not implementations. The model only assumes that random draws lie in [0,1).
- `Math.round(2.55 * percent)` in `darkenColor` is left out. The amount is taken as a given integer.
- `Color.ParseInt16`: `parseInt`'s skipping of leading whitespace is not modelled. Neither is the loss of precision for numbers above 2^53.
- `EnhancedParticle` is never created anywhere in the page. Only its `update` is modelled, as the `Glow` kind.
- The firework's `alpha`, `size`, `distance`, `explosionSize` and `explosionParticles` fields are left out. They are only read by `draw`, or never read at all. Their random draws are still consumed in `Launch`.
- Particles and fireworks are values stored in the registries' sequences rather than objects. Each is held by exactly one registry, so there is no aliasing to lose; `update` in place is modelled as replacing the element at its index.
