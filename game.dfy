/** The game controller's tick bookkeeping: each timer firing measures the time
    since the previous one and, while the console is shown, feeds a sample to
    the profiler and draws its chart. The wall clock is a parameter (`now`),
    and the value recorded for a tick is `rateOf(dt)`, an opaque function of
    the measured time step standing for the floating-point rate 1000 / dt. */
module Game {
  import opened FrameProfiler
  import opened Chart

  /** The time of the last tick after ticks at `times`, starting from `last`. */
  function LastTime(last: int, times: seq<int>): int
  {
    if times == [] then last else times[|times| - 1]
  }

  /** The time step each tick at `times` measures, the first one from `last`. */
  function Deltas(last: int, times: seq<int>): (d: seq<int>)
    ensures |d| == |times|
    decreases |times|
  {
    if times == [] then []
    else
      var before := times[..|times| - 1];
      Deltas(last, before) + [times[|times| - 1] - LastTime(last, before)]
  }

  function Sum(s: seq<int>): int
    decreases |s|
  {
    if s == [] then 0 else Sum(s[..|s| - 1]) + s[|s| - 1]
  }

  /** The values recorded for time steps `dts`. */
  function RatesOf(rateOf: int -> int, dts: seq<int>): (r: seq<int>)
    ensures |r| == |dts|
    decreases |dts|
  {
    if dts == [] then [] else RatesOf(rateOf, dts[..|dts| - 1]) + [rateOf(dts[|dts| - 1])]
  }

  /** No time is lost or counted twice: the measured steps add up to the time
      elapsed between the starting clock and the last tick. */
  lemma {:induction false} DeltasTelescope(last: int, times: seq<int>)
    ensures Sum(Deltas(last, times)) == LastTime(last, times) - last
    decreases |times|
  {
    if times != [] {
      var before := times[..|times| - 1];
      DeltasTelescope(last, before);
      assert Deltas(last, times)[..|times| - 1] == Deltas(last, before);
    }
  }

  /** Every measured step is the difference of two consecutive clock readings,
      the first one taken from the starting clock. */
  lemma {:induction false} DeltasAt(last: int, times: seq<int>, k: nat)
    requires k < |times|
    ensures Deltas(last, times)[k] == times[k] - (if k == 0 then last else times[k - 1])
    decreases |times|
  {
    var before := times[..|times| - 1];
    if k < |before| {
      DeltasAt(last, before, k);
    }
  }

  lemma DeltasSnoc(last: int, times: seq<int>, k: nat)
    requires k < |times|
    ensures Deltas(last, times[..k + 1]) == Deltas(last, times[..k]) + [times[k] - LastTime(last, times[..k])]
    ensures LastTime(last, times[..k + 1]) == times[k]
  {
    assert times[..k + 1][..k] == times[..k];
  }

  lemma RatesOfSnoc(rateOf: int -> int, dts: seq<int>, d: int)
    ensures RatesOf(rateOf, dts + [d]) == RatesOf(rateOf, dts) + [rateOf(d)]
  {
    assert (dts + [d])[..|dts|] == dts;
  }

  /** One more tick continues the sampling of the earlier ones. */
  lemma SamplingStep(rate: nat, c0: nat, rates: seq<int>, h0: seq<int>, h: seq<int>, c: nat, r: int)
    requires h == h0 + Sampled(rate, c0, rates) && c == CountAfterAll(rate, c0, rates)
    ensures h + Sampled(rate, c, [r]) == h0 + Sampled(rate, c0, rates + [r])
    ensures CountAfter(rate, c) == CountAfterAll(rate, c0, rates + [r])
  {
    SampledSnoc(rate, c0, rates, r);
  }

  class GameController {
    const clockrate: nat
    const profiler: Profiler
    var dt: int
    var currentTime: int
    var lastTime: int
    var showConsole: bool

    ghost predicate Valid()
      reads this, profiler, profiler.buffer
    {
      profiler.Valid()
    }

    /** The oldest-to-newest samples the chart shows. */
    ghost function View(): seq<int>
      reads this, profiler
    {
      Chronological(profiler.bufferSize, profiler.History)
    }

    /** A controller ticking every 10 milliseconds with a fresh profiler, all
        clocks at zero and the console hidden. */
    constructor ()
      ensures Valid() && fresh(profiler) && fresh(profiler.buffer)
      ensures clockrate == 10
      ensures dt == 0 && currentTime == 0 && lastTime == 0
      ensures !showConsole
      ensures profiler.bufferSize == DefaultBufferSize
      ensures profiler.sampleRate == DefaultSampleRate
      ensures profiler.target == DefaultTarget
      ensures profiler.History == [] && profiler.sampleCount == 0
    {
      clockrate := 10;
      dt := 0;
      currentTime := 0;
      lastTime := 0;
      profiler := new Profiler();
      showConsole := false;
    }

    /** One tick at clock `now`: measure the step since the last tick and
        remember `now`; while the console is shown, record `rateOf(dt)` and
        return the chart's strokes, otherwise draw nothing and leave the
        profiler alone. */
    method Update(now: int, rateOf: int -> int) returns (bars: seq<Stroke>, deficits: seq<Stroke>)
      requires Valid()
      modifies this`dt, this`currentTime, this`lastTime, profiler, profiler.buffer
      ensures Valid()
      ensures currentTime == now && dt == now - old(lastTime) && lastTime == now
      ensures showConsole == old(showConsole)
      ensures !showConsole ==> unchanged(profiler) && unchanged(profiler.buffer)
      ensures showConsole ==>
                profiler.sampleCount == CountAfter(profiler.sampleRate, old(profiler.sampleCount))
                && profiler.History == old(profiler.History)
                     + Sampled(profiler.sampleRate, old(profiler.sampleCount), [rateOf(dt)])
      ensures bars == if showConsole then Bars(View(), profiler.target) else []
      ensures deficits == if showConsole then Deficits(View(), profiler.target) else []
    {
      currentTime := now;
      dt := currentTime - lastTime;
      lastTime := currentTime;
      bars, deficits := [], [];
      if showConsole {
        profiler.Record(rateOf(dt));
        assert Valid();
        bars, deficits := DrawFramerate();
      }
    }

    /** The two passes of the chart over the samples, oldest first: a bar per
        sample, then a deficit segment for each sample short of the target. */
    method DrawFramerate() returns (bars: seq<Stroke>, deficits: seq<Stroke>)
      requires Valid()
      ensures bars == Bars(View(), profiler.target)
      ensures deficits == Deficits(View(), profiler.target)
    {
      ghost var w := View();
      var n := profiler.buffer.Length;
      bars := [];
      var i := 0;
      while i < n
        invariant 0 <= i <= n
        invariant bars == Bars(w[..i], profiler.target)
      {
        var frameRate := profiler.IndexAt(i);
        DivModUnique(i, n, 0, i);
        BarsSnoc(w, profiler.target, i);
        bars := bars + [Stroke(i, 0, BarHeight(frameRate, profiler.target))];
        i := i + 1;
      }
      assert w[..n] == w;
      deficits := [];
      i := 0;
      while i < n
        invariant 0 <= i <= n
        invariant deficits == Deficits(w[..i], profiler.target)
      {
        var frameRate := profiler.IndexAt(i);
        DivModUnique(i, n, 0, i);
        DeficitsSnoc(w, profiler.target, i);
        if frameRate > 0 && profiler.target - frameRate > 0 {
          deficits := deficits + [Stroke(i, frameRate, profiler.target)];
        }
        i := i + 1;
      }
    }

    method ToggleConsole()
      modifies this`showConsole
      ensures showConsole == !old(showConsole)
    {
      showConsole := !showConsole;
    }
  }

  /** Pressing the console key twice leaves the console as it was. */
  method ToggleConsoleTwice(g: GameController)
    modifies g`showConsole
    ensures g.showConsole == old(g.showConsole)
  {
    g.ToggleConsole();
    g.ToggleConsole();
  }

  /** The controller's clocks `last`, `current` and `dt` after ticks at `done`,
      which measured `dts`, starting from `lastTime == start`,
      `currentTime == ct0` and `dt == dt0`. */
  ghost predicate ClocksAfter(last: int, current: int, dt: int,
                              start: int, ct0: int, dt0: int, done: seq<int>, dts: seq<int>)
  {
    && dts == Deltas(start, done)
    && |dts| == |done|
    && last == LastTime(start, done)
    && (done == [] ==> current == ct0 && dt == dt0)
    && (done != [] ==> current == last && dt == dts[|dts| - 1])
  }

  /** One more tick at `times[k]` advances the clocks as `Update` does. */
  lemma ClocksStep(start: int, ct0: int, dt0: int, times: seq<int>, k: nat, dts: seq<int>,
                   last: int, current: int, dt: int)
    requires k < |times|
    requires ClocksAfter(last, current, dt, start, ct0, dt0, times[..k], dts)
    ensures ClocksAfter(times[k], times[k], times[k] - last, start, ct0, dt0,
                        times[..k + 1], dts + [times[k] - last])
  {
    DeltasSnoc(start, times, k);
  }

  /** The profiler has sampled `rates` since it held history `h0` and counter `c0`. */
  ghost predicate SampledSince(p: Profiler, h0: seq<int>, c0: nat, rates: seq<int>)
    reads p
  {
    && p.History == h0 + Sampled(p.sampleRate, c0, rates)
    && p.sampleCount == CountAfterAll(p.sampleRate, c0, rates)
  }

  /** The timer firing once per clock reading in `times`: the steps measured
      are the differences of consecutive readings, and while the console is
      shown the profiler samples the values recorded for them exactly as the
      downsampling specification says. */
  method RunTimer(g: GameController, times: seq<int>, rateOf: int -> int) returns (dts: seq<int>)
    requires g.Valid()
    modifies g, g.profiler, g.profiler.buffer
    ensures g.Valid()
    ensures dts == Deltas(old(g.lastTime), times)
    ensures g.lastTime == LastTime(old(g.lastTime), times)
    ensures g.currentTime == if times == [] then old(g.currentTime) else g.lastTime
    ensures g.dt == if times == [] then old(g.dt) else dts[|dts| - 1]
    ensures g.showConsole == old(g.showConsole)
    ensures !g.showConsole ==> unchanged(g.profiler) && unchanged(g.profiler.buffer)
    ensures g.showConsole ==>
              g.profiler.History == old(g.profiler.History)
                + Sampled(g.profiler.sampleRate, old(g.profiler.sampleCount), RatesOf(rateOf, dts))
              && g.profiler.sampleCount
                == CountAfterAll(g.profiler.sampleRate, old(g.profiler.sampleCount), RatesOf(rateOf, dts))
  {
    var p := g.profiler;
    ghost var start, rate := g.lastTime, p.sampleRate;
    ghost var h0, c0 := p.History, p.sampleCount;
    ghost var ct0, dt0 := g.currentTime, g.dt;
    dts := [];
    var k := 0;
    while k < |times|
      invariant 0 <= k <= |times|
      invariant g.Valid()
      invariant ClocksAfter(g.lastTime, g.currentTime, g.dt, start, ct0, dt0, times[..k], dts)
      invariant g.showConsole == old(g.showConsole)
      invariant !g.showConsole ==> unchanged(p) && unchanged(p.buffer)
      invariant g.showConsole ==> SampledSince(p, h0, c0, RatesOf(rateOf, dts))
    {
      ghost var rates := RatesOf(rateOf, dts);
      ghost var h, c := p.History, p.sampleCount;
      ClocksStep(start, ct0, dt0, times, k, dts, g.lastTime, g.currentTime, g.dt);
      var _, _ := g.Update(times[k], rateOf);
      var step := g.dt;
      RatesOfSnoc(rateOf, dts, step);
      if g.showConsole {
        SamplingStep(rate, c0, rates, h0, h, c, rateOf(step));
      }
      dts := dts + [step];
      k := k + 1;
    }
    assert times[..k] == times;
  }
}
