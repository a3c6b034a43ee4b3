/** The GPIO latency tests (`gpio-irq-latency-test.c`, `interrupt_test_node1.c`): an integer
running mean, running extremes, and a test run that must stop. `unsigned long` has 32 bits on
the target. */
module Latency {
  import opened Bits

  const NUM_TESTS: nat := 1024
  const MISSED_IRQ_MAX: nat := 100
  const MAX_TEST_COUNT: nat := 10000

  // ---------- The running mean ----------

  /** One update, in 32-bit arithmetic. */
  function MeanStep(avg: nat, count: nat, x: nat): nat {
    ((avg * count + x) % U32) / (count + 1)
  }

  function Mean(xs: seq<nat>): nat {
    if xs == [] then 0 else MeanStep(Mean(xs[..|xs| - 1]), |xs| - 1, xs[|xs| - 1])
  }

  /** No update overflows. */
  ghost predicate Fits(xs: seq<nat>) {
    xs != [] ==>
      Fits(xs[..|xs| - 1]) && Mean(xs[..|xs| - 1]) * (|xs| - 1) + xs[|xs| - 1] < U32
  }

  function Sum(xs: seq<nat>): nat {
    if xs == [] then 0 else Sum(xs[..|xs| - 1]) + xs[|xs| - 1]
  }

  lemma DivideBack(a: nat, m: nat) returns (r: nat)
    requires m > 0
    ensures r < m && m * (a / m) == a - r
  {
    r := a % m;
    assert a == m * (a / m) + a % m;
  }

  lemma MeanUnfolds(xs: seq<nat>)
    requires Fits(xs) && xs != []
    ensures var k := |xs| - 1; Mean(xs) == (Mean(xs[..k]) * k + xs[k]) / (k + 1)
  {
    hide MeanStep;
    var k := |xs| - 1;
    StepWithin(Mean(xs[..k]), k, xs[k]);
  }

  lemma StepWithin(avg: nat, k: nat, x: nat)
    requires avg * k + x < U32
    ensures MeanStep(avg, k, x) == (avg * k + x) / (k + 1)
  {
    var a := avg * k + x;
    assert a % U32 == a;
  }

  /** An update is the true quotient exactly if it does not overflow. */
  lemma UpdateExactIff(avg: nat, k: nat, x: nat)
    requires k < U32
    ensures MeanStep(avg, k, x) == (avg * k + x) / (k + 1) <==> avg * k + x < U32
  {
    var a, m := avg * k + x, k + 1;
    var w := a % U32;
    var q := a / U32;
    assert a == q * U32 + w;
    if q > 0 {
      assert q * U32 >= U32;
      QuotientGap(w, a, m);
    }
  }

  lemma QuotientGap(w: nat, a: nat, m: nat)
    requires m > 0 && w + m <= a
    ensures w / m < a / m
  {
    var r := RemainderOf(w, m, w / m);
    var s := RemainderOf(a, m, a / m);
    if a / m <= w / m { Scale(m, a / m, w / m); }
  }

  lemma RemainderOf(a: nat, m: nat, q: nat) returns (r: nat)
    requires m > 0 && q == a / m
    ensures r < m && m * q == a - r
  {
    r := DivideBack(a, m);
  }

  /** One update without overflow loses at most the remainder of its division. */
  lemma MeanUpdate(xs: seq<nat>) returns (r: nat)
    requires Fits(xs) && xs != []
    ensures var k := |xs| - 1; r <= k && (k + 1) * Mean(xs) == Mean(xs[..k]) * k + xs[k] - r
  {
    MeanUnfolds(xs);
    hide Mean, MeanStep, Fits;
    var k := |xs| - 1;
    r := RemainderOf(Mean(xs[..k]) * k + xs[k], k + 1, Mean(xs));
  }

  /** The truncating mean never exceeds the true one, and n times it falls short of the sum by
      at most n(n-1)/2: it is below the true mean by at most (n-1)/2. */
  lemma {:induction false} MeanError(xs: seq<nat>)
    requires Fits(xs)
    ensures 0 <= 2 * (Sum(xs) - |xs| * Mean(xs)) <= |xs| * (|xs| - 1)
  {
    if xs != [] {
      var k := |xs| - 1;
      MeanError(xs[..k]);
      var r := MeanUpdate(xs);
      ErrorGrows(k, Sum(xs[..k]), Mean(xs[..k]), xs[k], Mean(xs), r);
    }
  }

  /** Samples whose sum fits in 32 bits never overflow the update. */
  lemma {:induction false} SmallSumFits(xs: seq<nat>)
    requires Sum(xs) < U32
    ensures Fits(xs)
  {
    if xs != [] {
      var k := |xs| - 1;
      assert Sum(xs) == Sum(xs[..k]) + xs[k];
      SmallSumFits(xs[..k]);
      MeanError(xs[..k]);
      hide Mean, Sum;
      Scale(k, Mean(xs[..k]), Mean(xs[..k]));
      assert Mean(xs[..k]) * k + xs[k] <= Sum(xs[..k]) + xs[k];
    }
  }

  lemma ErrorGrows(k: nat, sum: nat, avg: nat, x: nat, avg': nat, r: nat)
    requires 0 <= 2 * (sum - k * avg) <= k * (k - 1)
    requires (k + 1) * avg' == avg * k + x - r && r <= k
    ensures 0 <= 2 * (sum + x - (k + 1) * avg') <= (k + 1) * k
  {
    assert sum + x - (k + 1) * avg' == (sum - k * avg) + r;
    assert (k + 1) * k == k * (k - 1) + 2 * k;
  }

  /** The mean lies between any bounds of the samples. */
  lemma {:induction false} MeanBetween(xs: seq<nat>, lo: nat, hi: nat)
    requires Fits(xs) && xs != [] && forall i :: 0 <= i < |xs| ==> lo <= xs[i] <= hi
    ensures lo <= Mean(xs) <= hi
  {
    var k := |xs| - 1;
    var r := MeanUpdate(xs);
    if k > 0 {
      MeanBetween(xs[..k], lo, hi);
      Squeeze(k, Mean(xs[..k]), xs[k], Mean(xs), r, lo, hi);
    }
  }

  lemma Squeeze(k: nat, avg: nat, x: nat, q: nat, r: nat, lo: nat, hi: nat)
    requires lo <= avg <= hi && lo <= x <= hi && (k + 1) * q == avg * k + x - r && r <= k
    ensures lo <= q <= hi
  {
    Scale(k, lo, avg);
    Scale(k, avg, hi);
    AtLeast(k + 1, lo, q, r);
    AtMost(k + 1, hi, q);
  }

  lemma AtLeast(m: nat, lo: nat, q: nat, r: nat)
    requires m * lo <= m * q + r && r < m
    ensures lo <= q
  {
    if q < lo { Scale(m, q + 1, lo); Scale(m, q, q); }
  }

  lemma AtMost(m: nat, hi: nat, q: nat)
    requires m > 0 && m * q <= m * hi
    ensures q <= hi
  {
    if q > hi { Scale(m, hi + 1, q); Scale(m, hi, hi); }
  }

  lemma Scale(m: nat, a: nat, b: nat)
    requires a <= b
    ensures m * a <= m * b && m * (a + 1) == m * a + m && a * m == m * a && (m + 1) * a == m * a + a && (m + 1) * b == m * b + b
  {
    assert m * (b - a) >= 0;
  }

  /** Samples that grow by one each time. */
  function Ramp(from: nat, n: nat): (xs: seq<nat>)
    ensures |xs| == n
  {
    if n == 0 then [] else Ramp(from, n - 1) + [from + n - 1]
  }

  /** The error bound is attained: on samples that grow by one each time the reported mean never
      leaves the first sample. */
  lemma {:induction false} MeanStuckOnRamp(from: nat, n: nat)
    requires n * (from + 1) < U32
    ensures Fits(Ramp(from, n)) && (n > 0 ==> Mean(Ramp(from, n)) == from)
    ensures 2 * Sum(Ramp(from, n)) == n * (2 * from + n - 1)
  {
    if n > 0 {
      var xs, k := Ramp(from, n), n - 1;
      assert xs[..k] == Ramp(from, k) && xs[k] == from + k;
      assert n * (from + 1) == k * (from + 1) + from + 1;
      MeanStuckOnRamp(from, k);
      RampStep(from, k);
    }
  }

  lemma RampStep(from: nat, k: nat)
    requires (k + 1) * (from + 1) < U32
    ensures from * k + (from + k) < U32 && MeanStep(from, k, from + k) == from && MeanStep(0, 0, from) == from
    ensures k * (2 * from + k - 1) + 2 * (from + k) == (k + 1) * (2 * from + k)
  {
    assert from * k + (from + k) == from * (k + 1) + k < U32 by {
      assert (k + 1) * (from + 1) == from * (k + 1) + k + 1;
    }
    DivModUnique(from * (k + 1) + k, k + 1, from, k);
    assert from * 0 + from == from;
    assert (k + 1) * (2 * from + k) == k * (2 * from + k - 1) + k + (2 * from + k);
  }

  // ---------- The extremes ----------

  function MaxStep(max: nat, x: nat): nat { if x > max then x else max }

  /** Zero doubles as "no minimum yet". */
  function MinStep(min: nat, x: nat): nat { if x < min || min == 0 then x else min }

  function MaxOf(xs: seq<nat>): nat {
    if xs == [] then 0 else MaxStep(MaxOf(xs[..|xs| - 1]), xs[|xs| - 1])
  }

  function MinOf(xs: seq<nat>): nat {
    if xs == [] then 0 else MinStep(MinOf(xs[..|xs| - 1]), xs[|xs| - 1])
  }

  ghost predicate IsMax(xs: seq<nat>, m: nat) { m in xs && forall i :: 0 <= i < |xs| ==> xs[i] <= m }
  ghost predicate IsMin(xs: seq<nat>, m: nat) { m in xs && forall i :: 0 <= i < |xs| ==> m <= xs[i] }

  lemma {:induction false} MaxIsRight(xs: seq<nat>)
    requires xs != []
    ensures IsMax(xs, MaxOf(xs))
  {
    var init := xs[..|xs| - 1];
    if init != [] {
      MaxIsRight(init);
      assert MaxOf(init) in xs;
    }
  }

  lemma {:induction false} MinZeroIff(xs: seq<nat>)
    requires xs != []
    ensures MinOf(xs) == 0 <==> xs[|xs| - 1] == 0
    ensures MinOf(xs) in xs
  {
    var init := xs[..|xs| - 1];
    if init != [] {
      MinZeroIff(init);
      assert forall x :: x in init ==> x in xs;
    }
  }

  lemma {:induction false} MinWithoutZero(xs: seq<nat>)
    requires xs != [] && 0 !in xs
    ensures IsMin(xs, MinOf(xs)) && MinOf(xs) > 0
  {
    var init := xs[..|xs| - 1];
    if init != [] {
      assert forall x :: x in init ==> x in xs;
      MinWithoutZero(init);
    }
  }

  /** The reported minimum is the smallest sample exactly when no sample is zero or the last one
      is: a zero in between is forgotten with the next sample. */
  lemma MinRightIff(xs: seq<nat>)
    requires xs != []
    ensures IsMin(xs, MinOf(xs)) <==> 0 !in xs || xs[|xs| - 1] == 0
  {
    MinZeroIff(xs);
    if 0 !in xs { MinWithoutZero(xs); }
  }

  // ---------- The bounded test run ----------

  /** What a timer tick finds: no interrupt, one after more than a second, or a latency. */
  datatype Tick = Silent | TooLate | Answered(nsec: nat)

  datatype Run = Run(samples: seq<nat>, missed: nat, running: bool)

  function OnTick(s: Run, t: Tick): Run {
    var s' := if t.Answered? then s.(samples := s.samples + [t.nsec]) else s.(missed := s.missed + 1);
    s'.(running := !(t.Answered? && |s'.samples| >= NUM_TESTS) && s'.missed <= MISSED_IRQ_MAX)
  }

  /** Ticks come only while the test has its timer armed. */
  ghost predicate Legal(s: Run, ts: seq<Tick>)
    decreases |ts|
  {
    ts != [] ==> s.running && Legal(OnTick(s, ts[0]), ts[1..])
  }

  ghost function After(s: Run, ts: seq<Tick>): Run
    requires Legal(s, ts)
    decreases |ts|
  {
    if ts == [] then s else After(OnTick(s, ts[0]), ts[1..])
  }

  ghost function Answers(ts: seq<Tick>): seq<nat> {
    if ts == [] then [] else (if ts[0].Answered? then [ts[0].nsec] else []) + Answers(ts[1..])
  }

  lemma {:induction false} TicksAccounted(s: Run, ts: seq<Tick>)
    requires Legal(s, ts)
    requires s.running ==> |s.samples| < NUM_TESTS && s.missed <= MISSED_IRQ_MAX
    ensures var e := After(s, ts);
            && |e.samples| + e.missed == |s.samples| + s.missed + |ts|
            && e.samples == s.samples + Answers(ts)
            && (e.running ==> |e.samples| < NUM_TESTS && e.missed <= MISSED_IRQ_MAX)
            && (!e.running && ts != [] ==> |e.samples| >= NUM_TESTS || e.missed > MISSED_IRQ_MAX)
            && (ts != [] ==> |e.samples| <= NUM_TESTS && e.missed <= MISSED_IRQ_MAX + 1
                             && !(|e.samples| == NUM_TESTS && e.missed == MISSED_IRQ_MAX + 1))
    decreases |ts|
  {
    if ts != [] {
      var s' := OnTick(s, ts[0]);
      if |ts| == 1 {
        assert Answers(ts) == if ts[0].Answered? then [ts[0].nsec] else [];
      } else {
        assert s'.running;
        TicksAccounted(s', ts[1..]);
        assert s.samples + Answers(ts) == s'.samples + Answers(ts[1..]);
      }
    }
  }

  /** Every test run stops within 1124 ticks, for one of the two reasons the source names, with
      the answered latencies as its samples. */
  lemma TestStops(ts: seq<Tick>)
    requires Legal(Run([], 0, true), ts)
    ensures |ts| <= 1124
    ensures var e := After(Run([], 0, true), ts);
            && e.samples == Answers(ts)
            && (!e.running <==> |e.samples| == 1024 || e.missed == 101)
  {
    TicksAccounted(Run([], 0, true), ts);
  }

  /** `struct irq_latency_test` as the timer handler uses it. */
  class LatencyTest {
    var avg: nat
    var testCount: nat
    var missed: nat
    var running: bool
    const results: array<nat>
    ghost var samples: seq<nat>

    /** The fields against the samples seen: results keep their low 16 bits. */
    ghost predicate Valid()
      reads this, results
    {
      && results.Length == NUM_TESTS
      && testCount == |samples| <= NUM_TESTS
      && avg == Mean(samples)
      && (running ==> testCount < NUM_TESTS && missed <= MISSED_IRQ_MAX)
      && forall i :: 0 <= i < testCount ==> results[i] == samples[i] % 0x10000
    }

    constructor ()
      ensures Valid() && fresh(results) && running && samples == [] && missed == 0
    {
      avg, testCount, missed, running, samples := 0, 0, 0, true, [];
      results := new nat[NUM_TESTS](_ => 0);
    }

    method TimerHandler(t: Tick)
      requires Valid() && running
      modifies this, results
      ensures Valid()
      ensures Run(samples, missed, running) == OnTick(old(Run(samples, missed, running)), t)
    {
      var ok := false;
      match t {
        case Answered(nsec) =>
          var next := samples + [nsec];
          assert next[..|next| - 1] == samples;
          avg := MeanStep(avg, testCount, nsec);
          results[testCount] := nsec % 0x10000;
          samples := next;
          ok := true;
        case _ =>
          missed := missed + 1;
      }
      if ok {
        testCount := testCount + 1;
      }
      running := !(ok && testCount >= NUM_TESTS) && missed <= MISSED_IRQ_MAX;
    }
  }

  /** `struct irq_latency_test` of the first round-trip node: mean and extremes, no limit on
      missed answers. */
  class RoundTripTest {
    var avg: nat
    var min: nat
    var max: nat
    var testCount: nat
    var missed: nat
    var running: bool
    const maxCount: nat
    const results: array<nat>
    ghost var samples: seq<nat>

    ghost predicate Valid()
      reads this, results
    {
      && results.Length == MAX_TEST_COUNT && maxCount <= MAX_TEST_COUNT
      && testCount == |samples| <= MAX_TEST_COUNT
      && avg == Mean(samples) && min == MinOf(samples) && max == MaxOf(samples)
      && (running ==> testCount == 0 || testCount < maxCount)
      && forall i :: 0 <= i < testCount ==> results[i] == samples[i] % 0x10000
    }

    constructor (testCount0: nat)
      ensures Valid() && fresh(results) && running && samples == [] && missed == 0
      ensures maxCount == if testCount0 > 10000 then 10000 else testCount0
    {
      avg, min, max, testCount, missed, running, samples := 0, 0, 0, 0, 0, true, [];
      maxCount := if testCount0 > MAX_TEST_COUNT then MAX_TEST_COUNT else testCount0;
      results := new nat[MAX_TEST_COUNT](_ => 0);
    }

    method TimerHandler(t: Tick)
      requires Valid() && running
      modifies this, results
      ensures Valid()
      ensures samples == old(samples) + (if t.Answered? then [t.nsec] else [])
      ensures missed == old(missed) + (if t.Answered? then 0 else 1)
      ensures running <==> !(t.Answered? && |samples| >= maxCount)
    {
      if t.Answered? {
        var next := samples + [t.nsec];
        assert next[..|next| - 1] == samples;
        avg := MeanStep(avg, testCount, t.nsec);
        max := MaxStep(max, t.nsec);
        min := MinStep(min, t.nsec);
        results[testCount] := t.nsec % 0x10000;
        samples := next;
        testCount := testCount + 1;
        running := testCount < maxCount;
      } else {
        missed := missed + 1;
      }
    }
  }
}
