/** The frame-rate profiler: a fixed-capacity circular buffer of sampled rates
    that keeps only one `record` call in every `sampleRate + 1`.

    The specification is stated over values first: `Ring` is what the buffer
    holds after a history of pushes, `Chronological` is the oldest-to-newest
    view a strip chart wants, and `Sampled` is which recorded values reach the
    buffer. The class `Profiler` then updates an array in place and is proved
    against those functions. */
module FrameProfiler {

  const DefaultBufferSize: nat := 200
  const DefaultSampleRate: nat := 10
  const DefaultTarget: int := 100

  function Zeros(n: nat): (z: seq<int>)
    ensures |z| == n && forall i :: 0 <= i < n ==> z[i] == 0
  {
    seq(n, _ => 0)
  }

  // ---------------------------------------------------------------------
  // Arithmetic helpers about the wrap-around of the write index
  // ---------------------------------------------------------------------

  lemma MulAtLeast(k: int, n: int)
    requires n > 0 && k >= 1
    ensures k * n >= n
  {
    if k > 1 {
      MulAtLeast(k - 1, n);
      assert k * n == (k - 1) * n + n;
    }
  }

  /** Quotient and remainder are the only ones that decompose a. */
  lemma DivModUnique(a: int, n: int, q: int, r: int)
    requires n > 0 && 0 <= r < n && a == q * n + r
    ensures a / n == q && a % n == r
  {
    var q0, r0 := a / n, a % n;
    assert a == q0 * n + r0;
    var k := q - q0;
    assert k * n == q * n - q0 * n;
    assert k * n == r0 - r;
    if k >= 1 {
      MulAtLeast(k, n);
    } else if k <= -1 {
      MulAtLeast(-k, n);
    }
  }

  lemma ModAddDivisor(a: nat, n: nat)
    requires n > 0
    ensures (a + n) % n == a % n
    ensures (a + n) / n == a / n + 1
  {
    var q, r := a / n, a % n;
    assert a == q * n + r;
    assert a + n == (q + 1) * n + r;
    DivModUnique(a + n, n, q + 1, r);
  }

  lemma ModSucc(a: nat, n: nat)
    requires n > 0
    ensures (a + 1) % n == (a % n + 1) % n
  {
    var q, r := a / n, a % n;
    assert a == q * n + r;
    if r + 1 < n {
      DivModUnique(a + 1, n, q, r + 1);
      DivModUnique(r + 1, n, 0, r + 1);
    } else {
      assert a + 1 == (q + 1) * n + 0;
      DivModUnique(a + 1, n, q + 1, 0);
      DivModUnique(n, n, 1, 0);
    }
  }

  lemma ModShift(i: nat, a: nat, n: nat)
    requires n > 0
    ensures (i + a % n) % n == (i % n + a) % n
  {
    var qi, ri := i / n, i % n;
    var qa, ra := a / n, a % n;
    assert i == qi * n + ri;
    assert a == qa * n + ra;
    var s := ri + ra;
    var qs, rs := s / n, s % n;
    assert s == qs * n + rs;
    assert i + ra == (qi + qs) * n + rs;
    assert ri + a == (qa + qs) * n + rs;
    DivModUnique(i + ra, n, qi + qs, rs);
    DivModUnique(ri + a, n, qa + qs, rs);
  }

  /** Two write positions less than a full turn apart land in different slots. */
  lemma ModDistinct(a: nat, b: nat, n: nat)
    requires n > 0 && a < b < a + n
    ensures a % n != b % n
  {
    var qa, ra := a / n, a % n;
    var qb, rb := b / n, b % n;
    assert a == qa * n + ra;
    assert b == qb * n + rb;
    if ra == rb {
      var k := qb - qa;
      assert k * n == qb * n - qa * n;
      assert k * n == b - a;
      if k >= 1 {
        MulAtLeast(k, n);
      } else if k <= -1 {
        MulAtLeast(-k, n);
      }
    }
  }

  // ---------------------------------------------------------------------
  // Specification of the circular buffer
  // ---------------------------------------------------------------------

  /** The slots of an n-slot buffer that started as zeros with its front at 0,
      after the values of `pushed` were pushed in order: each push writes the
      slot at the current front, and the front after k pushes is k % n. */
  function Ring(n: nat, pushed: seq<int>): (r: seq<int>)
    requires n > 0
    ensures |r| == n
    decreases |pushed|
  {
    if pushed == [] then Zeros(n)
    else
      var before := pushed[..|pushed| - 1];
      Ring(n, before)[|before| % n := pushed[|pushed| - 1]]
  }

  /** The reference view of the buffer: the last n entries of the history,
      padded on the old side with the n zeros the buffer starts with. Age 0 is
      the oldest retained value, age n - 1 the newest. */
  function Chronological(n: nat, pushed: seq<int>): (w: seq<int>)
    ensures |w| == n
  {
    (Zeros(n) + pushed)[|pushed|..]
  }

  /** Every slot of the ring holds the padded-history entry that was written
      there last: the one among the last n positions with that remainder. */
  lemma {:induction false} RingHoldsLatest(n: nat, pushed: seq<int>, p: nat)
    requires n > 0 && |pushed| <= p < |pushed| + n
    ensures Ring(n, pushed)[p % n] == (Zeros(n) + pushed)[p]
    decreases |pushed|
  {
    if pushed == [] {
      DivModUnique(p, n, 0, p);
    } else {
      var before := pushed[..|pushed| - 1];
      var last := pushed[|pushed| - 1];
      assert pushed == before + [last];
      var slot := |before| % n;
      assert Ring(n, pushed) == Ring(n, before)[slot := last];
      if p == |before| + n {
        ModAddDivisor(|before|, n);
        assert (Zeros(n) + pushed)[p] == last;
      } else {
        ModDistinct(|before|, p, n);
        RingHoldsLatest(n, before, p);
        assert (Zeros(n) + pushed)[p] == (Zeros(n) + before)[p];
      }
    }
  }

  /** Reading slot (i + front) % n, with front = |pushed| % n, yields age i % n
      of the chronological view, however many times the front has wrapped. */
  lemma UnwrapIsChronological(n: nat, pushed: seq<int>, i: nat)
    requires n > 0
    ensures Ring(n, pushed)[(i + |pushed| % n) % n] == Chronological(n, pushed)[i % n]
  {
    ModShift(i, |pushed|, n);
    assert (i % n + |pushed|) % n == (|pushed| + i % n) % n;
    RingHoldsLatest(n, pushed, |pushed| + i % n);
  }

  /** Once at least n values were pushed, the chronological view is exactly the
      last n of them, oldest first. */
  lemma LastPushesInOrder(n: nat, pushed: seq<int>)
    requires |pushed| >= n
    ensures Chronological(n, pushed) == pushed[|pushed| - n..]
  {
    var w := Chronological(n, pushed);
    forall k | 0 <= k < n
      ensures w[k] == pushed[|pushed| - n..][k]
    {
      assert w[k] == (Zeros(n) + pushed)[|pushed| + k];
    }
  }

  /** Before the buffer has filled, the view is the untouched zeros followed by
      everything pushed so far. */
  lemma EarlyPushesAfterZeros(n: nat, pushed: seq<int>)
    requires |pushed| < n
    ensures Chronological(n, pushed) == Zeros(n - |pushed|) + pushed
  {
    var w := Chronological(n, pushed);
    var v := Zeros(n - |pushed|) + pushed;
    forall k | 0 <= k < n
      ensures w[k] == v[k]
    {
      assert w[k] == (Zeros(n) + pushed)[|pushed| + k];
    }
  }

  /** The newest age always shows the value pushed last. */
  lemma NewestIsLastPushed(n: nat, pushed: seq<int>)
    requires n > 0 && |pushed| > 0
    ensures Chronological(n, pushed)[n - 1] == pushed[|pushed| - 1]
  {
    assert Chronological(n, pushed)[n - 1] == (Zeros(n) + pushed)[|pushed| + n - 1];
  }

  /** A push scrolls the view by one: the oldest age drops out and the pushed
      value becomes the newest. */
  lemma PushScrollsView(n: nat, pushed: seq<int>, v: int)
    requires n > 0
    ensures Chronological(n, pushed + [v]) == Chronological(n, pushed)[1..] + [v]
  {
    var after := Chronological(n, pushed + [v]);
    var expected := Chronological(n, pushed)[1..] + [v];
    forall k | 0 <= k < n
      ensures after[k] == expected[k]
    {
      assert after[k] == (Zeros(n) + pushed + [v])[|pushed| + 1 + k];
      if k < n - 1 {
        assert expected[k] == (Zeros(n) + pushed)[|pushed| + 1 + k];
      }
    }
  }

  // ---------------------------------------------------------------------
  // Specification of the downsampling in `record`
  // ---------------------------------------------------------------------

  /** Whether the record call that finds the counter at `count` pushes. */
  predicate PushesAt(rate: nat, count: nat)
  {
    count + 1 > rate
  }

  /** The counter after one record call: reset on a push, incremented otherwise. */
  function CountAfter(rate: nat, count: nat): (c: nat)
    ensures c <= rate
    ensures c == 0 <==> PushesAt(rate, count)
  {
    if PushesAt(rate, count) then 0 else count + 1
  }

  /** The values that reach the buffer when `vals` are recorded in order,
      starting with the counter at `count`. */
  function Sampled(rate: nat, count: nat, vals: seq<int>): seq<int>
    decreases |vals|
  {
    if vals == [] then []
    else
      (if PushesAt(rate, count) then [vals[0]] else [])
      + Sampled(rate, CountAfter(rate, count), vals[1..])
  }

  /** The counter after `vals` are recorded in order, starting at `count`. */
  function CountAfterAll(rate: nat, count: nat, vals: seq<int>): nat
    decreases |vals|
  {
    if vals == [] then count
    else CountAfterAll(rate, CountAfter(rate, count), vals[1..])
  }

  /** From a counter within range, M record calls push exactly
      (count + M) / (rate + 1) values and leave the counter at
      (count + M) % (rate + 1); from zero, that is M / (rate + 1) pushes. */
  lemma {:induction false} SampledCount(rate: nat, count: nat, vals: seq<int>)
    requires count <= rate
    ensures |Sampled(rate, count, vals)| == (count + |vals|) / (rate + 1)
    ensures CountAfterAll(rate, count, vals) == (count + |vals|) % (rate + 1)
    decreases |vals|
  {
    var d := rate + 1;
    if vals == [] {
      DivModUnique(count, d, 0, count);
    } else {
      var m := |vals| - 1;
      var next := CountAfter(rate, count);
      SampledCount(rate, next, vals[1..]);
      if PushesAt(rate, count) {
        assert |Sampled(rate, count, vals)| == 1 + |Sampled(rate, next, vals[1..])|;
        assert CountAfterAll(rate, count, vals) == CountAfterAll(rate, next, vals[1..]);
        CountStepPush(rate, m);
      } else {
        assert |Sampled(rate, count, vals)| == |Sampled(rate, next, vals[1..])|;
        assert CountAfterAll(rate, count, vals) == CountAfterAll(rate, next, vals[1..]);
        assert next + m == count + |vals|;
      }
    }
  }

  lemma CountStepPush(rate: nat, m: nat)
    ensures (rate + (m + 1)) / (rate + 1) == 1 + m / (rate + 1)
    ensures (rate + (m + 1)) % (rate + 1) == m % (rate + 1)
  {
    assert rate + (m + 1) == m + (rate + 1);
    ModAddDivisor(m, rate + 1);
  }

  /** The j-th pushed value is the one recorded by call number
      (j + 1) * (rate + 1) - count, counting calls from one: every
      (rate + 1)-th call, shifted by the calls already counted. */
  lemma {:induction false} SampledPicks(rate: nat, count: nat, vals: seq<int>, j: nat)
    requires count <= rate
    requires j < |Sampled(rate, count, vals)|
    ensures 0 <= (j + 1) * (rate + 1) - 1 - count < |vals|
    ensures Sampled(rate, count, vals)[j] == vals[(j + 1) * (rate + 1) - 1 - count]
    decreases |vals|
  {
    var rest := vals[1..];
    var next := CountAfter(rate, count);
    if PushesAt(rate, count) {
      assert count == rate;
      if j > 0 {
        SampledPicks(rate, next, rest, j - 1);
        assert (j + 1) * (rate + 1) - 1 - count == j * (rate + 1) - 1 - 0 + 1;
      } else {
        assert (j + 1) * (rate + 1) - 1 - count == 0;
      }
    } else {
      SampledPicks(rate, next, rest, j);
    }
  }

  /** Recording a batch and then one more value samples the batch and then
      that value from the counter the batch left. */
  lemma {:induction false} SampledSnoc(rate: nat, count: nat, vals: seq<int>, v: int)
    ensures Sampled(rate, count, vals + [v])
         == Sampled(rate, count, vals) + Sampled(rate, CountAfterAll(rate, count, vals), [v])
    ensures CountAfterAll(rate, count, vals + [v])
         == CountAfter(rate, CountAfterAll(rate, count, vals))
    decreases |vals|
  {
    if vals == [] {
      assert vals + [v] == [v];
    } else {
      var rest := vals[1..];
      var next := CountAfter(rate, count);
      var head := if PushesAt(rate, count) then [vals[0]] else [];
      assert (vals + [v])[0] == vals[0];
      assert (vals + [v])[1..] == rest + [v];
      SampledSnoc(rate, next, rest, v);
      assert Sampled(rate, count, vals + [v]) == head + Sampled(rate, next, rest + [v]);
      assert Sampled(rate, count, vals) == head + Sampled(rate, next, rest);
      assert CountAfterAll(rate, count, vals) == CountAfterAll(rate, next, rest);
      assert CountAfterAll(rate, count, vals + [v]) == CountAfterAll(rate, next, rest + [v]);
    }
  }

  // ---------------------------------------------------------------------
  // The profiler object
  // ---------------------------------------------------------------------

  class Profiler {
    const bufferSize: nat
    const sampleRate: nat
    const target: int
    const buffer: array<int>
    var bufferFront: nat
    var sampleCount: nat

    /** Every value pushed so far, oldest first. */
    ghost var History: seq<int>

    ghost predicate Valid()
      reads this, buffer
    {
      && 0 < bufferSize
      && buffer.Length == bufferSize
      && bufferFront < bufferSize
      && sampleCount <= sampleRate
      && bufferFront == |History| % bufferSize
      && buffer[..] == Ring(bufferSize, History)
    }

    /** The profiler with its built-in settings: 200 slots, one sample kept in
        every 11 calls, target rate 100. */
    constructor ()
      ensures Valid() && fresh(buffer)
      ensures bufferSize == DefaultBufferSize && sampleRate == DefaultSampleRate
      ensures target == DefaultTarget
      ensures buffer[..] == Zeros(DefaultBufferSize)
      ensures bufferFront == 0 && sampleCount == 0 && History == []
    {
      bufferSize := DefaultBufferSize;
      sampleRate := DefaultSampleRate;
      target := DefaultTarget;
      buffer := new int[DefaultBufferSize](_ => 0);
      bufferFront := 0;
      sampleCount := 0;
      History := [];
    }

    /** The same object with its settings chosen by the caller. */
    constructor WithSettings(size: nat, rate: nat, targetRate: int)
      requires size > 0
      ensures Valid() && fresh(buffer)
      ensures bufferSize == size && sampleRate == rate && target == targetRate
      ensures buffer[..] == Zeros(size)
      ensures bufferFront == 0 && sampleCount == 0 && History == []
    {
      bufferSize := size;
      sampleRate := rate;
      target := targetRate;
      buffer := new int[size](_ => 0);
      bufferFront := 0;
      sampleCount := 0;
      History := [];
    }

    /** Writes `val` at the front and advances the front, wrapping at the end. */
    method Push(val: int)
      requires Valid()
      modifies this`bufferFront, this`History, buffer
      ensures Valid()
      ensures buffer[..] == old(buffer[..])[old(bufferFront) := val]
      ensures bufferFront == (old(bufferFront) + 1) % bufferSize
      ensures History == old(History) + [val]
    {
      ModSucc(|History|, bufferSize);
      buffer[bufferFront] := val;
      bufferFront := bufferFront + 1;
      bufferFront := bufferFront % bufferSize;
      History := History + [val];
      assert History[..|History| - 1] == old(History);
    }

    /** Counts a call; on every (sampleRate + 1)-th call since the last push,
        resets the counter and pushes `val`. */
    method Record(val: int)
      requires Valid()
      modifies this`sampleCount, this`bufferFront, this`History, buffer
      ensures Valid()
      ensures sampleCount == CountAfter(sampleRate, old(sampleCount))
      ensures History == old(History) + Sampled(sampleRate, old(sampleCount), [val])
      ensures PushesAt(sampleRate, old(sampleCount)) ==>
                buffer[..] == old(buffer[..])[old(bufferFront) := val]
                && bufferFront == (old(bufferFront) + 1) % bufferSize
      ensures !PushesAt(sampleRate, old(sampleCount)) ==>
                buffer[..] == old(buffer[..]) && bufferFront == old(bufferFront)
    {
      sampleCount := sampleCount + 1;
      if sampleCount > sampleRate {
        sampleCount := 0;
        Push(val);
      }
    }

    /** The value at age i: slot (i + front) % size, which unwraps the ring so
        that ages 0 .. size - 1 run from the oldest value to the newest. */
    function IndexAt(i: nat): (r: int)
      reads this, buffer
      requires Valid()
      ensures r == Chronological(bufferSize, History)[i % bufferSize]
    {
      UnwrapIsChronological(bufferSize, History, i);
      buffer[(i + bufferFront) % bufferSize]
    }
  }

  /** Four slots, one sample kept in every two calls: recording 10, 20, 30,
      40, 50 and 60 leaves 20, 40, 60 in the first three slots, the fourth
      still zero, and the front at 3. */
  method FourSlotScenario() returns (contents: seq<int>, front: nat)
    ensures contents == [20, 40, 60, 0]
    ensures front == 3
  {
    var p := new Profiler.WithSettings(4, 1, DefaultTarget);
    assert p.buffer[..] == [0, 0, 0, 0];
    p.Record(10);
    assert p.sampleCount == 1;
    p.Record(20);
    assert p.buffer[..] == [20, 0, 0, 0] && p.bufferFront == 1 && p.sampleCount == 0;
    p.Record(30);
    assert p.sampleCount == 1;
    p.Record(40);
    assert p.buffer[..] == [20, 40, 0, 0] && p.bufferFront == 2 && p.sampleCount == 0;
    p.Record(50);
    assert p.sampleCount == 1;
    p.Record(60);
    contents, front := p.buffer[..], p.bufferFront;
  }
}
