# pixel: the fixed-framerate frame scheduler

This project models `Engine.Loop` of the `pixel` engine (`main.go`), the loop
that paces a pixel-graphics program at a fixed frame rate. Every iteration it
drains the SDL event queue, looking only for a quit event. It then runs the
client's `update`. Next it either consumes one skip credit or renders. A
skipped iteration sleeps one interval and `continue`s. A rendered iteration
measures its elapsed time and converts an overrun into skip credits through
the repayment loop `for delay < 0 { skips++; delay += interval }`, then
sleeps the remaining delay. The interval is `1000 / FPS` milliseconds.

The model has two modules:

- `FrameTiming` (`timing.dfy`) covers the interval. It includes Go's
  truncating division, with `None` standing for the divide-by-zero panic.
  It also covers the repayment loop, both as the method `RepayOverrun` and
  as its specification `CatchUp`. The lemmas prove termination, the bounds
  and the exact skip count. Outside 1 <= FPS <= 1000 the source panics
  (FPS = 0) or can spin forever once a frame overruns, and a lemma proves
  that spin.
- `Scheduler` (`scheduler.dfy`) covers the event drain (`DrainEvents`), one
  iteration (`Step`), and the loop over a finite run of inputs. The loop
  appears as the specification `Run` and as the method `Loop`. It also holds
  the lemmas about the resulting trace of frames.

The clock and the event queue are inputs. Each iteration receives a
`FrameInput` holding the events polled during it and the frame's elapsed
time `after - before`. The output is a trace of `Frame` values, one per iteration. Each
records whether the frame rendered and the value passed to `sdl.Delay`.
`Loop` also returns a log of the `update` and `render` calls it makes. The source loops until a quit event arrives. The model also
stops when its inputs run out, and it reports `running` as still true in
that case.

The code does not check the FPS: `NewEngine` stores it as given, and
`Loop` divides by it. `Loop` requires a frame rate that
`ValidatedInterval` accepts. The lemmas show what happens outside that
range (see Findings).

## Model

| member | source | states |
|---|---|---|
| FrameTiming.Interval | main.go:86 | the interval is absent exactly when FPS = 0 (the division panics); for positive FPS it is `1000 / FPS` with integer division |
| FrameTiming.GoDiv | main.go:86 | Go's truncating division agrees with Euclidean division for a non-negative dividend and positive divisor |
| FrameTiming.IntervalPositiveIff | main.go:86 | the interval is strictly positive if and only if 1 <= FPS <= 1000 |
| FrameTiming.IntervalInRange | main.go:86 | for 1 <= FPS <= 1000 the interval is `1000 / FPS` and lies in [1, 1000] |
| FrameTiming.CatchUp | main.go:130-134 | the repayment loop ends for a positive interval; the final delay is >= 0; it differs from the start by exactly one interval per added skip; nothing changes when the start is >= 0; a negative start ends below one interval |
| FrameTiming.CatchUpCongruent | main.go:130-134 | the final delay is congruent to the starting delay modulo the interval |
| FrameTiming.CatchUpSkipCount | main.go:130-134 | a negative starting delay adds exactly `ceil(-delay / interval)` skips and leaves a delay in [0, interval) |
| FrameTiming.CatchUpTwoAndAHalfIntervals | main.go:129-134 | an elapsed time of 2.5 intervals adds exactly 2 skips and leaves half an interval to sleep |
| FrameTiming.RepayOverrun | main.go:131-134 | the `for delay < 0 { skips++; delay += interval }` loop computes exactly `CatchUp` |
| FrameTiming.RepayN | main.go:131-134 | n passes through the loop body add exactly n skips |
| FrameTiming.CatchUpIsFirstExit | main.go:131-134 | `CatchUp` is the loop state at its first exit: the guard `delay < 0` held before every earlier pass |
| FrameTiming.RepayNeverExits | main.go:131-134 | with an interval <= 0, a negative delay stays negative after any number of passes, so the loop never ends |
| FrameTiming.OutOfRangeFpsSpins | main.go:86-134 | for FPS != 0 outside 1..1000 the interval is <= 0, and a rendered frame longer than it never leaves the repayment loop |
| FrameTiming.ZeroIntervalNeverRepays | main.go:86-134 | FPS = 2000 gives interval 0; a frame of 1 ms then never leaves the repayment loop |
| FrameTiming.ValidatedInterval | main.go:86 | an interval is accepted exactly for 1 <= FPS <= 1000, and then it equals the source's `1000 / FPS` and lies in [1, 1000] |
| Scheduler.ToUint32 | main.go:136 | `uint32(delay)` keeps the value modulo 2^32; it is the identity on [0, 2^32) |
| Scheduler.DrainEvents | main.go:90-96 | every queued event is polled, because the `break` leaves only the `switch`; running becomes false exactly when one of them is a quit event |
| Scheduler.Step | main.go:104-136 | the frame renders exactly when no skip credit is left; a skipped frame uses one credit and sleeps exactly one interval; a rendered frame within the interval adds no credit and sleeps exactly `interval - elapsed` (as `uint32`), at most one interval when elapsed >= 0; an overrun adds `ceil((elapsed - interval) / interval)` credits and sleeps exactly `(interval - elapsed) mod interval`, less than an interval |
| Scheduler.Run | main.go:88-137 | the loop runs at most one iteration per input, and at least one when there is any input |
| Scheduler.FirstQuit | main.go:88-96 | the index of the first iteration that polls a quit event: none before it has one |
| Scheduler.RunStopsAfterQuit | main.go:88-108 | the iteration that polls a quit event completes, and no later iteration starts; without a quit event all inputs are consumed and the loop is still running |
| Scheduler.CallLogShape | main.go:103-110 | the call log holds exactly one `update` per iteration and one `render` per rendered iteration, and every `render` comes right after an `update` |
| Scheduler.CallLogAppend | main.go:103-110 | one more iteration appends exactly its own calls (`update`, then `render` if it renders) to the log |
| Scheduler.SkipCreditsConsumed | main.go:104-108 | n outstanding credits make the next n iterations skip rendering, each sleeping one interval; the iteration after them renders |
| Scheduler.OverrunAtFirstFrame | main.go:103-134 | in a run that starts without credits, a first frame that overruns makes the next `ceil((elapsed - interval) / interval)` iterations skip rendering, and the one after them render |
| Scheduler.RunFrom | main.go:88-137 | from any iteration m on, the trace equals the loop run afresh over the remaining inputs, starting from the credits held at m |
| Scheduler.CreditsConsumedFrom | main.go:104-108 | at any iteration m, the c credits held there make iterations m .. m+c-1 skip rendering, each sleeping one interval, and iteration m+c render |
| Scheduler.OverrunSkipsFollowingFrames | main.go:103-134 | after any rendered iteration that overruns, wherever it lies in the run, the next `ceil((elapsed - interval) / interval)` iterations skip rendering, and the one after them renders |
| Scheduler.SixtyFpsOverrunExample | main.go:86-134 | at 60 FPS (16 ms) a 40 ms frame is followed by two skipped frames and then a rendered one |
| Scheduler.Loop | main.go:83-138 | the loop over `running`, `skips` and `delay` yields exactly the trace, credits and running flag of `Run` at interval `1000 / FPS`, for a frame rate that `ValidatedInterval` accepts; its log of `update`/`render` calls is the trace's `CallLog` |

## Left out

- `NewEngine`, `Destroy` (main.go:29-77): window, renderer and surface creation and release are SDL calls.
- `Engine.Draw` (main.go:79-81): a pixel write into an SDL surface; its bounds and format behaviour belong to SDL.
- Texture upload, clear, copy and present (main.go:98-101, 111-126): presentation I/O. The error that main.go:98 ignores is not modelled.
- `time.Now().UnixMilli()`, `sdl.PollEvent` and `sdl.Delay`: clock, event queue and sleep. They become the `FrameInput` values and the `sleep` field of each `Frame`.
- `fmt.Println("frame skip")` (main.go:107): logging.
- `main`, `Update` and `Render` (main.go:140-163): the demo client, which relies on `math/rand`.
- The `update` and `render` callbacks are recorded in the call log, not run. Their effect on the engine is the client's concern.
- Keyboard input state and key translation: the source has no such code. Its only event check is for the quit event.
- Scheduler.Loop: requires 1 <= FPS <= 1000 and stops when its finite inputs run out. Outside that range the source panics (FPS = 0) or can spin forever, as `OutOfRangeFpsSpins` shows. A run with no quit event never ends in the source.
- Scheduler.Step: the 64-bit wrap-around of `delay` and `skips` (Go `int64`/`int`) is not modelled. Elapsed times and credit counts are unbounded integers.

## Findings

| source | as written | input that shows it | evidently intended | confidence | as-written member | corrected member |
|---|---|---|---|---|---|---|
| main.go:86 | `interval := 1000 / e.FPS` has no check on FPS, and neither has `NewEngine` | FPS = 2000 gives interval 0; the first rendered frame taking 1 ms then loops forever at main.go:131-134 (FPS = 0 panics) | reject FPS outside 1..1000 before the loop starts | not executed; the arithmetic is proved | FrameTiming.ZeroIntervalNeverRepays | FrameTiming.ValidatedInterval |
