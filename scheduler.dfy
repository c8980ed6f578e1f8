/**
 * The engine's fixed-framerate loop, `Engine.Loop`: per iteration it
 * drains the event queue, runs `update`, then either consumes one skip
 * credit (sleeping one interval) or renders, measures the frame and turns
 * an overrun into skip credits before sleeping the remainder.
 *
 * The clock and the event queue are inputs: each iteration receives the
 * events polled in it and the elapsed time `after - before` of the frame.
 * The callbacks are recorded in a log instead of being called.
 */
module Scheduler {
  import opened FrameTiming

  /** A polled platform event; the loop only looks for the quit event. */
  datatype Event = QuitEvent | OtherEvent

  /** Engine configuration; only `fps` is read by the loop. */
  datatype Engine = Engine(title: string, width: int, height: int, scale: int, fps: int)

  /** What one iteration observes: the queued events and its elapsed milliseconds. */
  datatype FrameInput = FrameInput(events: seq<Event>, elapsed: int)

  /**
   * What one iteration did besides its unconditional `update` call: whether
   * it rendered, and the sleep it passed to `sdl.Delay`.
   */
  datatype Frame = Frame(rendered: bool, sleep: nat)

  /** A call from the loop into the client's code. */
  datatype Callback = Update | Render

  /** The frames run, the skip credits left, and the `running` flag at the end. */
  datatype Outcome = Outcome(trace: seq<Frame>, skips: nat, running: bool)

  const Uint32Modulus: int := 0x1_0000_0000

  /** Go's `uint32(x)` conversion keeps the low 32 bits of its operand. */
  function ToUint32(x: int): (r: nat)
    ensures r < Uint32Modulus
    ensures 0 <= x < Uint32Modulus ==> r == x
    ensures (r - x) % Uint32Modulus == 0
  {
    x % Uint32Modulus
  }

  predicate HasQuit(input: FrameInput)
  {
    QuitEvent in input.events
  }

  /**
   * The poll loop: every queued event is polled (the `break` leaves only
   * the `switch`), and a quit event clears `running`.
   */
  method DrainEvents(events: seq<Event>, running: bool) returns (stillRunning: bool, polled: nat)
    ensures polled == |events|
    ensures stillRunning <==> running && QuitEvent !in events
  {
    stillRunning, polled := running, 0;
    while polled < |events|
      invariant polled <= |events|
      invariant stillRunning <==> running && QuitEvent !in events[..polled]
    {
      match events[polled] {
        case QuitEvent => stillRunning := false;
        case OtherEvent =>
      }
      assert events[..polled + 1] == events[..polled] + [events[polled]];
      polled := polled + 1;
    }
    assert events[..polled] == events;
  }

  /** The loop's target intervals: `1000 / FPS` for a supported frame rate. */
  predicate ValidInterval(interval: int)
  {
    1 <= interval <= 1000
  }

  /**
   * One iteration after the events are drained: the frame it produces and
   * the skip credits it leaves.
   */
  function Step(interval: int, skips: nat, input: FrameInput): (r: (Frame, nat))
    requires ValidInterval(interval)
    ensures r.0.rendered <==> skips == 0
    ensures !r.0.rendered ==> r.1 == skips - 1 && r.0.sleep == interval
    ensures r.0.rendered && input.elapsed <= interval ==>
      r.1 == 0 && r.0.sleep == ToUint32(interval - input.elapsed)
    ensures r.0.rendered && input.elapsed >= 0 ==> r.0.sleep <= interval
    ensures r.0.rendered && input.elapsed > interval ==>
      r.1 == CeilDiv(input.elapsed - interval, interval) &&
      r.0.sleep == (interval - input.elapsed) % interval && r.0.sleep < interval
  {
    if skips > 0 then
      (Frame(false, ToUint32(interval)), skips - 1)
    else
      var delay := interval - input.elapsed;
      var c := CatchUp(delay, skips, interval);
      assert delay < 0 ==> c.skips == CeilDiv(-delay, interval) && c.delay == delay % interval by {
        if delay < 0 {
          CatchUpSkipCount(delay, skips, interval);
          CatchUpCongruent(delay, skips, interval);
          DivUnique(c.delay, interval, 0, c.delay);
        }
      }
      (Frame(true, ToUint32(c.delay)), c.skips)
  }

  /**
   * The loop over a finite run of inputs, starting with `skips` credits:
   * it stops after the first iteration that polls a quit event, or when
   * the inputs run out (then `running` is still true).
   */
  function Run(interval: int, skips: nat, inputs: seq<FrameInput>): (o: Outcome)
    requires ValidInterval(interval)
    ensures 1 <= |o.trace| || |inputs| == 0
    ensures |o.trace| <= |inputs|
    decreases |inputs|
  {
    if |inputs| == 0 then Outcome([], skips, true)
    else
      var (f, s) := Step(interval, skips, inputs[0]);
      if HasQuit(inputs[0]) then Outcome([f], s, false)
      else
        var rest := Run(interval, s, inputs[1..]);
        Outcome([f] + rest.trace, rest.skips, rest.running)
  }

  /** Index of the first iteration that polls a quit event, or `|inputs|`. */
  function FirstQuit(inputs: seq<FrameInput>): (k: nat)
    ensures k <= |inputs|
    ensures forall j :: 0 <= j < k ==> !HasQuit(inputs[j])
    ensures k < |inputs| ==> HasQuit(inputs[k])
  {
    if |inputs| == 0 then 0
    else if HasQuit(inputs[0]) then 0
    else 1 + FirstQuit(inputs[1..])
  }

  /**
   * A quit event ends the loop after the iteration that polled it: that
   * iteration still runs in full and no later one starts; without a quit
   * event every input is consumed and the loop is still running.
   */
  lemma {:induction false} RunStopsAfterQuit(interval: int, skips: nat, inputs: seq<FrameInput>)
    requires ValidInterval(interval)
    ensures var o := Run(interval, skips, inputs);
      (o.running <==> FirstQuit(inputs) == |inputs|) &&
      |o.trace| == if o.running then |inputs| else FirstQuit(inputs) + 1
    decreases |inputs|
  {
    if |inputs| > 0 && !HasQuit(inputs[0]) {
      var s := Step(interval, skips, inputs[0]).1;
      RunStopsAfterQuit(interval, s, inputs[1..]);
    }
  }

  /**
   * Starting with `n` credits, the next `n` iterations skip rendering, one
   * credit each, each sleeping exactly one interval; the iteration after
   * them renders.
   */
  lemma {:induction false} SkipCreditsConsumed(interval: int, n: nat, inputs: seq<FrameInput>, k: nat)
    requires ValidInterval(interval)
    requires k < |Run(interval, n, inputs).trace|
    ensures var f := Run(interval, n, inputs).trace[k];
      (k < n ==> !f.rendered && f.sleep == interval) &&
      (k == n ==> f.rendered)
    decreases k
  {
    if k > 0 && n > 0 {
      SkipCreditsConsumed(interval, n - 1, inputs[1..], k - 1);
    }
  }

  /**
   * A first frame that overruns the interval by `elapsed - interval`, in a
   * run with no credits, makes the following
   * `ceil((elapsed - interval) / interval)` iterations skip rendering, and
   * the one after them render again.
   */
  lemma OverrunAtFirstFrame(interval: int, inputs: seq<FrameInput>, k: nat)
    requires ValidInterval(interval)
    requires |inputs| > 0 && inputs[0].elapsed > interval
    requires 1 <= k < |Run(interval, 0, inputs).trace|
    ensures var o := Run(interval, 0, inputs);
      var n := CeilDiv(inputs[0].elapsed - interval, interval);
      o.trace[0].rendered &&
      (k <= n ==> !o.trace[k].rendered) &&
      (k == n + 1 ==> o.trace[k].rendered)
  {
    var s := Step(interval, 0, inputs[0]).1;
    SkipCreditsConsumed(interval, s, inputs[1..], k - 1);
  }

  /** The skip credits held when iteration `m` reaches the decision point. */
  function CreditsBefore(interval: int, skips: nat, inputs: seq<FrameInput>, m: nat): nat
    requires ValidInterval(interval) && m <= |inputs|
    decreases m
  {
    if m == 0 then skips
    else CreditsBefore(interval, Step(interval, skips, inputs[0]).1, inputs[1..], m - 1)
  }

  /**
   * From any iteration `m` on, the trace is the loop run afresh over the
   * remaining inputs from the credits held at that point.
   */
  lemma {:induction false} RunFrom(interval: int, skips: nat, inputs: seq<FrameInput>, m: nat)
    requires ValidInterval(interval)
    requires m < |Run(interval, skips, inputs).trace|
    ensures Run(interval, skips, inputs).trace[m..] ==
      Run(interval, CreditsBefore(interval, skips, inputs, m), inputs[m..]).trace
    decreases m
  {
    if m > 0 {
      var s := Step(interval, skips, inputs[0]).1;
      assert !HasQuit(inputs[0]);
      assert inputs[1..][m - 1..] == inputs[m..];
      RunFrom(interval, s, inputs[1..], m - 1);
    }
  }

  /**
   * Wherever iteration `m` lies in the run, the `c` credits it holds make
   * iterations `m` to `m + c - 1` skip rendering, each sleeping one
   * interval, and iteration `m + c` render.
   */
  lemma CreditsConsumedFrom(interval: int, skips: nat, inputs: seq<FrameInput>, m: nat, k: nat)
    requires ValidInterval(interval)
    requires m <= k < |Run(interval, skips, inputs).trace|
    ensures var t := Run(interval, skips, inputs).trace;
      var c := CreditsBefore(interval, skips, inputs, m);
      (k - m < c ==> !t[k].rendered && t[k].sleep == interval) &&
      (k - m == c ==> t[k].rendered)
  {
    var t := Run(interval, skips, inputs).trace;
    var c := CreditsBefore(interval, skips, inputs, m);
    RunFrom(interval, skips, inputs, m);
    assert Run(interval, c, inputs[m..]).trace[k - m] == t[k];
    SkipCreditsConsumed(interval, c, inputs[m..], k - m);
  }

  /**
   * A rendered iteration `m` that overruns the interval by
   * `elapsed - interval` makes the following
   * `ceil((elapsed - interval) / interval)` iterations skip rendering, and
   * the one after them render again, wherever `m` lies in the run.
   */
  lemma OverrunSkipsFollowingFrames(interval: int, skips: nat, inputs: seq<FrameInput>, m: nat, k: nat)
    requires ValidInterval(interval)
    requires m < k < |Run(interval, skips, inputs).trace|
    requires Run(interval, skips, inputs).trace[m].rendered && inputs[m].elapsed > interval
    ensures var t := Run(interval, skips, inputs).trace;
      var n := CeilDiv(inputs[m].elapsed - interval, interval);
      (k - m <= n ==> !t[k].rendered) &&
      (k - m == n + 1 ==> t[k].rendered)
  {
    var t := Run(interval, skips, inputs).trace;
    var c := CreditsBefore(interval, skips, inputs, m);
    RunFrom(interval, skips, inputs, m);
    var u := Run(interval, c, inputs[m..]).trace;
    assert u == t[m..] && u[0] == t[m] && u[k - m] == t[k];
    assert c == 0;
    OverrunAtFirstFrame(interval, inputs[m..], k - m);
  }

  /**
   * At 60 FPS (a 16 ms interval) a 40 ms frame adds two credits: the next
   * two iterations skip rendering and the third renders.
   */
  lemma SixtyFpsOverrunExample(rest: seq<FrameInput>)
    requires |rest| == 3 && forall j :: 0 <= j < 3 ==> !HasQuit(rest[j])
    ensures Interval(60) == Some(16)
    ensures var o := Run(16, 0, [FrameInput([], 40)] + rest);
      |o.trace| == 4 &&
      o.trace[0].rendered && !o.trace[1].rendered && !o.trace[2].rendered && o.trace[3].rendered
  {
    var inputs := [FrameInput([], 40)] + rest;
    assert CeilDiv(40 - 16, 16) == 2;
    assert !HasQuit(inputs[0]);
    assert forall j :: 1 <= j < 4 ==> inputs[j] == rest[j - 1];
    RunStopsAfterQuit(16, 0, inputs);
    assert FirstQuit(inputs) == 4;
    OverrunAtFirstFrame(16, inputs, 1);
    OverrunAtFirstFrame(16, inputs, 2);
    OverrunAtFirstFrame(16, inputs, 3);
  }

  /** The callbacks one iteration makes: `update`, then `render` if it renders. */
  function FrameCalls(f: Frame): seq<Callback>
  {
    if f.rendered then [Update, Render] else [Update]
  }

  /** The callbacks a trace of iterations makes, in order. */
  function CallLog(trace: seq<Frame>): seq<Callback>
  {
    if trace == [] then [] else FrameCalls(trace[0]) + CallLog(trace[1..])
  }

  function RenderedCount(trace: seq<Frame>): nat
  {
    if trace == [] then 0 else (if trace[0].rendered then 1 else 0) + RenderedCount(trace[1..])
  }

  /**
   * `update` is called exactly once per iteration and `render` once per
   * rendered iteration, and every `render` call comes right after an
   * `update` call.
   */
  lemma {:induction false} CallLogShape(trace: seq<Frame>)
    ensures var log := CallLog(trace);
      multiset(log)[Update] == |trace| &&
      multiset(log)[Render] == RenderedCount(trace) &&
      forall p :: 0 <= p < |log| && log[p] == Render ==> 0 < p && log[p - 1] == Update
  {
    if trace != [] {
      CallLogShape(trace[1..]);
      var head, rest := FrameCalls(trace[0]), CallLog(trace[1..]);
      var log := CallLog(trace);
      assert log == head + rest;
      assert rest != [] ==> rest[0] == Update;
      forall p | 0 <= p < |log| && log[p] == Render
        ensures 0 < p && log[p - 1] == Update
      {
        if p >= |head| {
          var q := p - |head|;
          assert rest[q] == Render;
          assert log[p - 1] == rest[q - 1];
        }
      }
    }
  }

  /** Extending a trace by one iteration appends that iteration's calls. */
  lemma {:induction false} CallLogAppend(trace: seq<Frame>, f: Frame)
    ensures CallLog(trace + [f]) == CallLog(trace) + FrameCalls(f)
  {
    if trace == [] {
      assert [f][1..] == [];
    } else {
      assert (trace + [f])[1..] == trace[1..] + [f];
      CallLogAppend(trace[1..], f);
    }
  }

  /** The outcome of running `rest` after the frames already in `trace`. */
  function After(trace: seq<Frame>, rest: Outcome): Outcome
  {
    Outcome(trace + rest.trace, rest.skips, rest.running)
  }

  /** One unfolding of `Run` on a non-empty run of inputs. */
  lemma RunUnfold(interval: int, skips: nat, inputs: seq<FrameInput>)
    requires ValidInterval(interval) && |inputs| > 0
    ensures var step := Step(interval, skips, inputs[0]);
      Run(interval, skips, inputs) ==
        if HasQuit(inputs[0]) then Outcome([step.0], step.1, false)
        else After([step.0], Run(interval, step.1, inputs[1..]))
  {
  }

  lemma AfterAppend(done: seq<Frame>, f: Frame, rest: Outcome)
    ensures After(done, After([f], rest)) == After(done + [f], rest)
  {
  }

  /**
   * `Engine.Loop` over a finite run of inputs: the state is `running`,
   * `skips` and the per-frame `delay`; skipped iterations `continue` past
   * the timing code.
   */
  method Loop(engine: Engine, inputs: seq<FrameInput>)
      returns (trace: seq<Frame>, calls: seq<Callback>, skips: nat, running: bool)
    requires ValidatedInterval(engine.fps).Some?
    ensures Interval(engine.fps) == ValidatedInterval(engine.fps)
    ensures Outcome(trace, skips, running) == Run(ValidatedInterval(engine.fps).value, 0, inputs)
    ensures calls == CallLog(trace)
  {
    running := true;
    skips := 0;
    var interval := 1000 / engine.fps;
    IntervalInRange(engine.fps);
    trace, calls := [], [];
    var i := 0;
    while running && i < |inputs|
      invariant i <= |inputs|
      invariant calls == CallLog(trace)
      invariant running ==> Run(interval, 0, inputs) == After(trace, Run(interval, skips, inputs[i..]))
      invariant !running ==> Run(interval, 0, inputs) == Outcome(trace, skips, false)
    {
      var input := inputs[i];
      ghost var step := Step(interval, skips, input);
      ghost var done := trace;
      RunUnfold(interval, skips, inputs[i..]);
      assert inputs[i..][1..] == inputs[i + 1..];
      var polled;
      running, polled := DrainEvents(input.events, running);
      calls := calls + [Update];
      if skips > 0 {
        skips := skips - 1;
        trace := trace + [Frame(false, ToUint32(interval))];
        i := i + 1;
        assert trace == done + [step.0] && skips == step.1;
        AfterAppend(done, step.0, Run(interval, skips, inputs[i..]));
        CallLogAppend(done, step.0);
        continue;
      }
      calls := calls + [Render];
      // presentation of the rendered surface
      var delay := interval - input.elapsed;
      delay, skips := RepayOverrun(delay, skips, interval);
      trace := trace + [Frame(true, ToUint32(delay))];
      i := i + 1;
      assert trace == done + [step.0] && skips == step.1;
      AfterAppend(done, step.0, Run(interval, skips, inputs[i..]));
      CallLogAppend(done, step.0);
    }
  }
}
