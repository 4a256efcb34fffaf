# Expanding circles: a verified model of the simulation core

This project models the core of a small browser game (`src/main.ts`) and proves
properties about it. In the game, circles spawn at random positions on a canvas
and grow over time. A click removes every circle whose radius reaches the click
point, and each removal plays a sound. The core has these parts:

- **The fixed-step timer** (`createTimer`). Each frame adds `dt` to an
  accumulator. While the accumulator is strictly greater than the interval, the
  timer subtracts one interval and fires its callback. There are two timers: one
  spawns a circle every 1000 ms, the other grows every circle every 5000/60 ms.
- **The circle registry.** This is a JavaScript array of `[x, y, r]` triples and
  a cursor `circleIterator` that wraps modulo `MAX_CIRCLES = 5`. A spawn writes
  `[x, y, 0]` at the cursor. A write past the end of the array leaves holes.
  Growth adds 1 to the radius of every present circle.
- **Hit resolution** (`handleInput`). The queued clicks are handled in order.
  For each click the array is replaced by a `filter` that keeps a circle iff
  `r < sqrt(dx² + dy²)`. Each dropped circle calls `playAudio()`. The filter
  also drops holes and shifts the survivors down.
- **The audio pool.** `playAudio()` scans three channels and starts the first
  idle one. It does nothing when all three are busy.
- **`maxDt`.** This is the running maximum of the frame deltas, starting from 0.

Modules:

- `Timing` (timing.dfy) holds the timer as the class `Timer`. Its ghost fields
  `elapsed` and `ticks` record all the time fed in so far and all the firings.
  Its invariant is `ticks == FireCount(elapsed, interval)`. So the number of
  firings depends only on the total time, however that time was split across
  calls.
- `Circles` (circles.dfy) holds the registry operations as functions on
  `seq<Option<Circle>>`. A `None` entry is a hole.
- `Sound` (sound.dfy) holds the pool as the class `SoundPool`. A channel's
  `Audio` element is reduced to one idle flag.
- `Simulation` (game.dfy) holds the module-level state as the class `Game`:
  `circles`, `circleIterator`, `maxDt`, `inputBuffer`, the two timers and the
  pool. Its methods are the spawn and growth callbacks, `handleInput`, `update`
  and one frame of `loop`.
- `Options` (options.dfy) defines the optional slot type.

Modelling choices:

- Time is exact `real` milliseconds.
- Clicks have `real` coordinates, because `offsetX` and `offsetY` may be
  fractional.
- Circle centres are integers, because the spawn position is floored.
- The hit test `r < sqrt(d²)` becomes `r² < d²`. This is exact because
  `r >= 0`, and `SurvivesIffRadiusBelowDistance` proves the two forms agree.
- `Math.random()` is a parameter `random: nat -> Position`. The k-th spawn of a
  frame takes `random(k)`, and every position must lie on the canvas.
  `Spawns(random, n)` is the list of a frame's n new circles under that
  abstraction, each at its position with radius 0.
- The canvas is never resized, so it keeps the HTML default of 300 × 150.
- In the source the callbacks run inside the timer loop. They never touch the
  accumulator, so the model runs the timer first and then runs the callback as
  many times as it fired.

Two consequences of the code are worth stating plainly:

- **Timer count.** The loop guard is `accumulator > interval`
  (src/main.ts:25), so after a total time T > 0 a timer has fired
  ceil(T/I) − 1 times, not floor(T/I). A total that is an exact multiple of the
  interval fires one time fewer: after exactly 1000 ms no circle has spawned
  yet (`ExactMultipleFiresOneLess`).
- **Removal.** A pop does not clear a slot to a hole. The array is replaced by
  the result of `filter`, so survivors shift down and holes disappear. After a
  pop, the cursor may therefore no longer point at the oldest circle. This
  happens when a popped circle sat before the cursor.

## Model

| member | source | states |
|---|---|---|
| `Timing.FireCount` | src/main.ts:21-30 | After a total time T ≥ 0, a timer with interval I has fired n times. n is 0 when T = 0. Otherwise I·n < T ≤ I·(n+1), because the loop stops as soon as at most one interval is left. |
| `Timing.FireCountUnique` | src/main.ts:23-28 | Any count that meets those bounds equals FireCount. So the number of firings is fixed by the total time alone. |
| `Timing.FireCountMonotone` | src/main.ts:23-28 | Feeding more time never lowers the firing count. |
| `Timing.ExactMultipleFiresOneLess` | src/main.ts:25 | A total of exactly n+1 intervals fires only n times. An accumulator equal to the interval does not fire. |
| `Timing.Timer.constructor` | src/main.ts:21-22 | A new timer has an accumulator of 0, has been fed no time and has fired no times. |
| `Timing.Timer.Advance` | src/main.ts:23-29 | Each firing subtracts exactly one interval: the new accumulator equals old + dt − fired·interval. Afterwards 0 ≤ accumulator ≤ interval, and the accumulator is positive once any time has passed. The firings so far equal FireCount of all time fed in. A call with dt = 0 fires nothing. |
| `Timing.FeedAll` | src/main.ts:21-30 | A fresh timer fed non-negative deltas one call at a time fires FireCount(their total) times in all. This is the same as one call with the total, however the time is split. |
| `Circles.Written` | src/main.ts:72 | `circles[i] = c` puts c at slot i and leaves every other slot unchanged. A write past the end makes the array i+1 long, and the new slots in between are holes. |
| `Circles.SpawnAllBounded` | src/main.ts:63-73 | Spawning into an array of at most MAX_CIRCLES slots, from any cursor, never makes the array shorter and never makes it longer than MAX_CIRCLES. |
| `Circles.SpawnAllLatest` | src/main.ts:63-73 | The j-th of a run of spawns lands in slot (cursor + j) mod 5. Each of the last five spawns is still there, so a spawn overwrites the circle spawned five places earlier, whatever its size. |
| `Circles.Grown` | src/main.ts:76-82 | One growth tick keeps the length, keeps holes as holes, keeps each present circle's x and y, and adds 1 to its radius. |
| `Circles.GrownTimesAt` | src/main.ts:76-82 | After n growth ticks each present circle is at the same centre with radius r + n, and holes are still holes. |
| `Circles.SurvivesIffRadiusBelowDistance` | src/main.ts:91-94 | When d is the Euclidean distance from the centre to the click, a circle survives iff r < d. A click exactly on the rim (d = r) leaves the circle alone, and a click strictly inside pops it. |
| `Circles.Survivors` | src/main.ts:90-95 | The filtered array is never longer than the array before it. |
| `Circles.SurvivorsMembers` | src/main.ts:90-95 | The filtered array has no holes. It holds exactly the present circles of the old array that survive the click. |
| `Circles.SurvivorsAppend` | src/main.ts:90-95 | Filtering distributes over concatenation, so survivors keep their relative order. The pop count adds up piece by piece in the same way. |
| `Circles.FilterStep` | src/main.ts:90-95 | Filtering one more slot appends what is kept of that slot and adds its pop, if any. |
| `Circles.SurvivorsCount` | src/main.ts:90-95 | Every present circle either survives or is popped, never both. Survivors plus pops equal the live circles. |
| `Circles.SurvivorsIdempotent` | src/main.ts:90-95 | A second identical click pops nothing and changes nothing. |
| `Circles.ResolveAllAccounting` | src/main.ts:86-98 | Over the clicks of one frame, the array never grows. Total pops equal the initial live count minus the final live count, so no circle is popped twice. After at least one click, no hole remains and the pops equal the initial live count minus the final length. |
| `Sound.FirstIdle` | src/main.ts:35-41 | The scan picks the lowest-index idle channel. It picks none exactly when every channel is busy. |
| `Sound.PlayedTimesIdle` | src/main.ts:34-43 | n requests in a row start min(n, idle) channels. Requests beyond the idle channels are dropped, not queued. The pool keeps its size. |
| `Sound.PlayedTimesAdd` | src/main.ts:34-43 | Requests made in two batches leave the pool in the same state as one batch of the same total size. |
| `Sound.SoundPool.constructor` | src/main.ts:33 | A new pool has `size` channels, all idle. |
| `Sound.SoundPool.PlayOne` | src/main.ts:34-43 | `playAudio()` starts the channel FirstIdle picks, if any, and leaves every other channel as it was. |
| `Sound.SoundPool.Ended` | src/main.ts:37 | A channel whose playback ended reads as idle again. |
| `Simulation.SpawnedThenGrown` | src/main.ts:63-82 | When a frame spawns n circles and then grows the array g times, each of its last min(n, 5) spawns, the j-th taken from random(j), sits in slot (cursor + j) mod 5 with radius g. |
| `Simulation.Peak` | src/main.ts:101 | After a list of deltas, `maxDt` is at least 0 and at least every delta. It equals one of the deltas unless it is 0. |
| `Simulation.PeakMonotone` | src/main.ts:101 | `maxDt` never decreases as more frames are seen. |
| `Simulation.Filter` | src/main.ts:90-95 | `circles.filter(cb)` returns the Survivors of the array in order. It calls `playAudio()` once for each popped circle, and the pool ends in the state that many requests produce. |
| `Simulation.Game.constructor` | src/main.ts:59-66 | At start-up the array is empty and the cursor, `maxDt` and both accumulators are 0. The input buffer is empty and the pool has three idle channels. |
| `Simulation.Game.Enqueue` | src/main.ts:9-11 | A click is appended to the input buffer. Nothing else changes. |
| `Simulation.Game.Spawn` | src/main.ts:68-74 | A radius-0 circle is written at the cursor as `Written` states, and the cursor becomes (cursor + 1) mod 5. The game invariant holds afterwards: cursor < 5 and length ≤ 5. |
| `Simulation.Game.Grow` | src/main.ts:76-82 | The array becomes its growth-tick image (see `Grown`) in place. Nothing else changes. |
| `Simulation.Game.ResolveClick` | src/main.ts:88-95 | For one click, `circles` is replaced by its Survivors and the pops are that click's PopCount. |
| `Simulation.Game.HandleInput` | src/main.ts:86-98 | The clicks are processed in buffer order, each against the array the previous one left. The pops are the total over those clicks, the pool has served that many requests, and the buffer is empty afterwards. |
| `Simulation.Game.SpawnTicks` | src/main.ts:102 | The spawn callback runs n times, writing the frame's spawns at successive cursor positions. The cursor advances by n modulo 5. |
| `Simulation.Game.GrowTicks` | src/main.ts:103 | The growth callback runs n times. |
| `Simulation.Game.Update` | src/main.ts:100-104 | `maxDt` becomes max(dt, maxDt). Each timer's time grows by dt and its firings grow by what it returns. The array becomes the frame's spawns followed by that many growth ticks. A frame with dt = 0 spawns and grows nothing. |
| `Simulation.Game.Frame` | src/main.ts:46-55 | One frame runs handleInput and then update. The buffer ends empty, and the array is the clicks' result, then the spawns, then the growth. Each timer's time grows by dt and its firings grow by the spawn or growth count returned, so by `Valid` those counts are fixed by the total time fed in. A resumed loop, started as `loop(now, now)`, has dt = 0 and fires neither timer. |

## Left out

- Drawing is not modelled: `render`, the canvas and 2D context setup, `clearRect`, `arc`, and the JSON debug text (src/main.ts:4-6, 106-123).
- Browser scheduling is reduced to one fact: `requestAnimationFrame`, `cancelAnimationFrame` and the visibility handler (src/main.ts:13-19, 53-54) are left out, except that resuming calls `loop(now, now)`, which `Frame` covers with dt = 0. This does not mean that resuming never produces a large dt. The loop's own re-request (src/main.ts:54) is never stored in `animationFrame`, so the visibility handler cannot cancel it. That pending `loop(oldNow, …)` callback may still run after resuming, with a dt as long as the whole hidden time. `Frame` covers such a frame too, since it accepts any dt ≥ 0.
- Real audio playback is not modelled: `new Audio(src)`, `play()`, `ended`, `currentTime` and the `honk.mp3` asset are reduced to one idle flag per channel. The model assumes that a channel just started reads as busy for the rest of the frame. The real element updates these attributes asynchronously: right after `play()` its `currentTime` can still read 0, so several pops in one `handleInput` may all pick channel 0 and be heard as one sound. `Sound.PlayedTimesIdle`'s count of min(n, idle) started channels therefore holds only under this assumption.
- The `console.log` debug lines are not modelled (src/main.ts:38, 78-79).
- IEEE-754 rounding is not modelled: in `Math.sqrt`, `Math.pow`, `Math.floor(Math.random() * n)` and the 5000/60 interval, the model uses exact arithmetic.
- `Timing.Timer.Advance` requires dt >= 0. The source does not guard against a negative dt, but frame deltas are differences of increasing timestamps.
- A `MouseEvent` is reduced to its `offsetX` and `offsetY`.
