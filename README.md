# Frame-rate profiler and tick bookkeeping of pixel-platform

This project models, in Dafny, the part of the browser game loop in `main.js`
that has logic of its own:

- the `Profiler`, a fixed-capacity circular buffer of 200 frame-rate samples,
  all zero at the start. `push` writes at a moving front index that wraps
  around. `record` keeps only one call in every `sampleRate + 1`. `indexAt`
  unwraps the ring so that ages `0 .. size - 1` run from the oldest sample to
  the newest;
- the `GameController`'s per-tick bookkeeping. `update` measures
  `dt = currentTime - lastTime` and remembers the new time. Only while the
  console is shown does it record a sample and draw the frame-rate chart.
  `toggleConsole` flips the console flag;
- the chart's decision rule. Each sample gets a bar of height
  `min(rate, target)`. A sample with `0 < rate < target` also gets a deficit
  segment from its rate up to the target.

The model is in three modules:

- `FrameProfiler` (`profiler.dfy`) states the buffer over values first.
  `Ring(n, pushed)` is what the slots hold after a history of pushes.
  `Chronological(n, pushed)` is the oldest-to-newest view: the last `n`
  entries of the history, padded with the initial zeros. `Sampled` and
  `CountAfterAll` say which recorded values reach the buffer and where the
  counter ends. The class `Profiler` keeps the real `array<int>` and the
  `bufferFront`/`sampleCount` fields, which its methods update in place. A
  ghost `History` of every pushed value ties the class to those functions
  through `Valid()`.
- `Chart` (`chart.dfy`) holds the two passes of the chart as functions over
  the samples, oldest first. `Bars` gives one bar per sample. `Deficits`
  gives a segment for each sample that falls short of the target.
- `Game` (`game.dfy`) holds the `GameController` class, a model of the timer
  firing `update` at a given list of clock readings, and lemmas about the
  measured time steps.

The wall clock is a parameter: `Update(now, rateOf)` receives the current
time. The value recorded for a tick is `rateOf(dt)`, an opaque function of
the measured step; in the source it is the floating-point value
`1 / dt * 1000`.

Two behaviours of `main.js` are worth stating plainly, and the model keeps
both as written:

- Samples are recorded only while `showConsole` is true (main.js:54-55); a
  tick with the console hidden measures `dt` but records nothing.
- The bar height is `min(rate, target)` whatever its sign (main.js:73);
  nothing clamps it. `BarHeight` therefore returns a negative height for a
  negative rate.

`main.js` has no pause state, no moving entity and no key handling beyond the
`'c'` key, so the model has none either.

## Model

| member | source | states |
|---|---|---|
| `FrameProfiler.Profiler.constructor` | main.js:3-10 | a new profiler has 200 zero slots, front 0, counter 0, sample rate 10, target 100, and an empty history |
| `FrameProfiler.Profiler.WithSettings` | main.js:3-10 | the same initial state for a caller-chosen size (> 0), sample rate and target |
| `FrameProfiler.Profiler.Push` | main.js:13-17 | writes `val` at the old front and leaves every other slot as it was; the front advances by one modulo the size and stays in range; the history grows by `val` |
| `FrameProfiler.Profiler.Record` | main.js:19-26 | the counter stays within `0..sampleRate`; a call pushes exactly when the incremented counter exceeds `sampleRate`, which resets the counter to 0; otherwise the buffer and front are untouched and the counter grows by one |
| `FrameProfiler.Profiler.IndexAt` | main.js:27-29 | for any `i >= 0`, the read stays inside the array and returns age `i % size` of the chronological (oldest-to-newest) view |
| `FrameProfiler.RingHoldsLatest` | main.js:13-17 | every slot holds the value most recently written to it: of the last `size` positions of the zero-padded history, the one with that slot's remainder |
| `FrameProfiler.UnwrapIsChronological` | main.js:27-29 | reading slot `(i + front) % size` gives age `i % size` of the chronological view, however many times the front has wrapped |
| `FrameProfiler.LastPushesInOrder` | main.js:13-29 | after at least `size` pushes, ages `0..size-1` are exactly the last `size` pushed values, oldest first |
| `FrameProfiler.EarlyPushesAfterZeros` | main.js:4-17 | before the buffer fills, the view is the initial zeros followed by every pushed value in order |
| `FrameProfiler.NewestIsLastPushed` | main.js:14-16 | age `size - 1` is the most recently pushed value |
| `FrameProfiler.PushScrollsView` | main.js:13-17 | a push drops the oldest age from the view and appends the pushed value as the newest |
| `FrameProfiler.CountAfter` | main.js:20-25 | after one call the counter is within `0..rate`, and it is 0 exactly when that call pushed |
| `FrameProfiler.SampledCount` | main.js:19-26 | from a counter `c <= rate`, `M` record calls push exactly `(c + M) / (rate + 1)` values and leave the counter at `(c + M) % (rate + 1)`; from 0 that is `M / (rate + 1)` pushes |
| `FrameProfiler.SampledPicks` | main.js:19-26 | the j-th pushed value is the one passed to call number `(j + 1) * (rate + 1) - c`: every `(rate + 1)`-th call, and no other |
| `FrameProfiler.SampledSnoc` | main.js:19-26 | recording a batch and then one more value is the same as sampling the batch and then that value from the counter the batch left |
| `FrameProfiler.FourSlotScenario` | main.js:13-26 | with 4 slots and sample rate 1, recording 10, 20, 30, 40, 50, 60 leaves the buffer `[20, 40, 60, 0]` with front 3 |
| `Chart.BarHeight` | main.js:73 | the bar height is at most the rate and at most the target, and equals one of them (their minimum) |
| `Chart.IsDeficit` | main.js:84 | the deficit segment is drawn exactly when `0 < rate < target` |
| `Chart.BarsAt` | main.js:67-76 | the first pass draws one bar per sample, in its own column in order, from the baseline to the capped rate |
| `Chart.DeficitsExactly` | main.js:81-92 | a deficit segment is in the second pass exactly when its column's sample is positive and below target, and it then spans from that rate to the target |
| `Chart.DeficitsOrdered` | main.js:81-92 | deficit segments come out in strictly increasing column order, at most one per column |
| `Chart.StackedToTarget` | main.js:73-88 | each deficit segment starts where the same column's bar ends and reaches the target |
| `Game.GameController.constructor` | main.js:32-44 | a new controller ticks every 10 ms, has `dt`, `currentTime` and `lastTime` at 0, the console hidden and a fresh default profiler |
| `Game.GameController.Update` | main.js:48-58 | `currentTime` and `lastTime` become `now` and `dt` is `now` minus the previous `lastTime`; the console flag is unchanged; with the console hidden the profiler is untouched and nothing is charted; with it shown, `rateOf(dt)` is recorded and the chart of the updated view is returned |
| `Game.GameController.DrawFramerate` | main.js:60-93 | the two loops over ages `0..size-1` produce exactly `Bars` and `Deficits` of the profiler's oldest-to-newest view |
| `Game.GameController.ToggleConsole` | main.js:95-97 | `showConsole` is negated and nothing else changes |
| `Game.ToggleConsoleTwice` | main.js:95-97 | toggling the console twice restores `showConsole`, and no other field of the controller changes |
| `Game.RunTimer` | main.js:41-58 | over a run of ticks, the measured steps are the differences of consecutive clock readings; `lastTime` and `currentTime` are the last reading and `dt` the last measured step (all three unchanged for an empty run); with the console shown, the profiler samples the recorded values exactly as `Sampled` says; otherwise it is untouched |
| `Game.DeltasTelescope` | main.js:50-52 | the measured steps of a run add up to the last clock reading minus the starting `lastTime`: no time is lost or counted twice |
| `Game.DeltasAt` | main.js:50-52 | each measured step is the current reading minus the previous one, the first taken from the starting `lastTime` |

## Left out

- Canvas drawing is not modelled: `clearRect`, `beginPath`, `moveTo`/`lineTo`, `stroke`, stroke styles, the `rgba` and `drawText` helpers and the `'testing'` label (main.js:49, 53, 66, 70-74, 80-89, 100-108). These are rendering side effects through the browser. A chart stroke is modelled as its column and the two heights it spans.
- Pixel geometry is not modelled: the display scale 0.25, the column width `width / bufferSize` and the line width `delta - 2`. These use floating-point arithmetic.
- The canvas, its 2D context, and the controller's `width` and `height` fields are not modelled (main.js:33-36).
- `setInterval` and `new Date().getTime()` are not modelled (main.js:41, 50). They are timer and wall-clock input. `Update` takes the clock as a parameter, and `RunTimer` takes the list of clock readings at which the timer fires.
- The recorded value `1 / this.dt * 1000` is not modelled (main.js:55). It is a floating-point division, and `dt = 0` gives `Infinity`. The model records `rateOf(dt)` for a caller-supplied function, and samples are integers, so `NaN` and `Infinity` cannot occur.
- The jQuery start-up and the global `document.onkeypress` handler are not modelled (main.js:110-124). The `'c'` key reduces to calling `ToggleConsole`; every other key is ignored.
- `bufferSize`, `sampleRate` and `target` are public fields in the source that nothing reassigns. The model makes them constants of the object, fixed at construction.
- FrameProfiler.Profiler.IndexAt: takes `i` as a natural number. In the source a negative `i` still reads a slot when `i + bufferFront >= 0` and gives `undefined` otherwise; the only caller (main.js:67-69, 81-83) passes `0 .. buffer.length - 1`.
