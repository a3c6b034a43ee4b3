/** The logging variant of the unlock module (`unlock_with_log.c`): a one-shot timer, and a log
of the first 1000 pulses that is printed once it is full. */
module UnlockLog {
  import opened Bits
  import opened Common
  import opened Unlock
  import Runs = UnlockRuns

  const RECORD_COUNT: nat := 1000

  datatype Entry = Entry(time: nat, byTimer: bool)

  datatype LogNode = LogNode(
    last: nat,
    last2nd: nat,
    deadline: Option<nat>,
    clock: nat,
    log: seq<Entry>,
    prints: nat)

  datatype Signal = Timer(now: nat) | Irq(now: nat, rawRng: nat, rawBackoff: nat)

  /** Log a pulse, send it, and print the log when it fills up; nothing once it is full. */
  function Record(s: LogNode, e: Entry): LogNode {
    if |s.log| < RECORD_COUNT then
      s.(log := s.log + [e], clock := s.clock + PULSE,
         prints := s.prints + if |s.log| + 1 == RECORD_COUNT then 1 else 0)
    else s
  }

  predicate Ready(s: LogNode, e: Signal) {
    s.clock <= e.now && (e.Timer? ==> s.deadline.Some? && s.deadline.value <= e.now)
  }

  predicate Accepts(p: Params, s: LogNode, e: Signal) {
    e.Irq? && Eligible(p, e.now - s.last)
  }

  function Rearm(p: Params, s: LogNode, now: nat, rng: nat, backoff: nat): LogNode {
    var done := s.clock + 1000 * backoff;
    s.(last := now, last2nd := s.last, clock := done,
       deadline := Some(done + Wrap(1000 * NextTimer(p, Lengthens(p, s.last, s.last2nd), rng, backoff))))
  }

  function LogStep(p: Params, s: LogNode, e: Signal): LogNode
    requires ValidParams(p) && Ready(s, e)
  {
    var at := s.(clock := e.now);
    match e
    case Timer(now) => Record(at, Entry(now, true)).(deadline := None)
    case Irq(now, rawRng, rawBackoff) =>
      if !Accepts(p, s, e) then at
      else Rearm(p, Record(at, Entry(now, false)), now, Draw(p, rawRng), Draw(p, rawBackoff))
  }

  function LogBoot(p: Params, now: nat): LogNode {
    LogNode(now, 0, Some(now + 1000 * p.T), now, [], 0)
  }

  ghost predicate Legal(p: Params, s: LogNode, es: seq<Signal>)
    requires ValidParams(p)
    decreases |es|
  {
    es != [] ==> Ready(s, es[0]) && Legal(p, LogStep(p, s, es[0]), es[1..])
  }

  ghost function After(p: Params, s: LogNode, es: seq<Signal>): LogNode
    requires ValidParams(p) && Legal(p, s, es)
    decreases |es|
  {
    if es == [] then s else After(p, LogStep(p, s, es[0]), es[1..])
  }

  /** The pulses that timer firings and accepted interrupts ask for, in order. */
  ghost function Triggers(p: Params, s: LogNode, es: seq<Signal>): seq<Entry>
    requires ValidParams(p) && Legal(p, s, es)
    decreases |es|
  {
    if es == [] then [] else
      (if es[0].Timer? || Accepts(p, s, es[0]) then [Entry(es[0].now, es[0].Timer?)] else [])
      + Triggers(p, LogStep(p, s, es[0]), es[1..])
  }

  ghost function Take(s: seq<Entry>, n: nat): seq<Entry> {
    if |s| <= n then s else s[..n]
  }

  /** No two timer entries follow each other, and while the timer is armed the next entry may
      be one: the last entry is not. */
  ghost predicate Alternates(s: LogNode) {
    && (forall i :: 0 <= i < |s.log| - 1 ==> !(s.log[i].byTimer && s.log[i + 1].byTimer))
    && (s.deadline.Some? && 0 < |s.log| < RECORD_COUNT ==> !s.log[|s.log| - 1].byTimer)
  }

  ghost predicate Consistent(s: LogNode) {
    && |s.log| <= RECORD_COUNT
    && s.prints == (if |s.log| == RECORD_COUNT then 1 else 0)
    && Alternates(s)
  }

  lemma StepKeepsConsistent(p: Params, s: LogNode, e: Signal)
    requires ValidParams(p) && Ready(s, e) && Consistent(s)
    ensures Consistent(LogStep(p, s, e))
  {
  }

  /** In every run the log holds the first 1000 pulses asked for, each with its time and source;
      exactly those are sent; no two neighbouring entries come from the timer; and the log is
      printed once, when it fills up. */
  lemma {:induction false} LogRecordsPulses(p: Params, s: LogNode, es: seq<Signal>)
    requires ValidParams(p) && Legal(p, s, es) && Consistent(s)
    ensures var end := After(p, s, es);
            && Consistent(end)
            && end.log == Take(s.log + Triggers(p, s, es), 1000)
    decreases |es|
  {
    hide Alternates, NextTimer, Draw, Lengthens, Eligible;
    if es != [] {
      var e, s' := es[0], LogStep(p, s, es[0]);
      StepKeepsConsistent(p, s, e);
      LogRecordsPulses(p, s', es[1..]);
      var rest := Triggers(p, s', es[1..]);
      if e.Timer? || Accepts(p, s, e) {
        assert Triggers(p, s, es) == [Entry(e.now, e.Timer?)] + rest;
        if |s.log| < RECORD_COUNT {
          assert s.log + Triggers(p, s, es) == s'.log + rest;
        } else {
          assert Take(s.log + Triggers(p, s, es), RECORD_COUNT) == s.log;
          assert Take(s'.log + rest, RECORD_COUNT) == s.log;
        }
      } else {
        assert s.log + Triggers(p, s, es) == s'.log + rest;
      }
    } else {
      assert s.log + Triggers(p, s, es) == s.log;
    }
  }

  // ---------- Accepted pulses ----------

  ghost function AcceptTimes(p: Params, s: LogNode, es: seq<Signal>): seq<nat>
    requires ValidParams(p) && Legal(p, s, es)
    decreases |es|
  {
    if es == [] then [] else
      (if Accepts(p, s, es[0]) then [es[0].now] else []) + AcceptTimes(p, LogStep(p, s, es[0]), es[1..])
  }

  /** In every run, full log or not, accepted pulses are at least half a period and less than a
      second apart, counting from the last one accepted before the run. */
  lemma {:induction false} LogAcceptSpacing(p: Params, s: LogNode, es: seq<Signal>)
    requires ValidParams(p) && Legal(p, s, es)
    ensures Runs.Spaced([s.last] + AcceptTimes(p, s, es), 500 * p.T, SECOND)
    decreases |es|
  {
    hide Draw, NextTimer, Lengthens;
    if es != [] {
      var s' := LogStep(p, s, es[0]);
      LogAcceptSpacing(p, s', es[1..]);
      var ts := [s.last] + AcceptTimes(p, s, es);
      if Accepts(p, s, es[0]) {
        assert ts == [s.last] + ([s'.last] + AcceptTimes(p, s', es[1..]));
      } else {
        assert ts == [s'.last] + AcceptTimes(p, s', es[1..]);
      }
    }
  }

  /** The stored times are those of the last two accepts. */
  lemma {:induction false} LogLastTwoAccepts(p: Params, s: LogNode, es: seq<Signal>)
    requires ValidParams(p) && Legal(p, s, es)
    ensures var ts := [s.last2nd, s.last] + AcceptTimes(p, s, es);
            After(p, s, es).last == ts[|ts| - 1] && After(p, s, es).last2nd == ts[|ts| - 2]
    decreases |es|
  {
    hide Draw, NextTimer, Lengthens, Eligible;
    if es != [] {
      var s' := LogStep(p, s, es[0]);
      LogLastTwoAccepts(p, s', es[1..]);
      if Accepts(p, s, es[0]) {
        assert [s.last2nd, s.last] + AcceptTimes(p, s, es)
            == [s.last2nd] + ([s'.last2nd, s'.last] + AcceptTimes(p, s', es[1..]));
      } else {
        assert AcceptTimes(p, s, es) == AcceptTimes(p, s', es[1..]);
      }
    }
  }

  lemma {:induction false} LogRunAppend(p: Params, s: LogNode, es: seq<Signal>, e: Signal)
    requires ValidParams(p) && Legal(p, s, es) && Ready(After(p, s, es), e)
    ensures Legal(p, s, es + [e])
    ensures AcceptTimes(p, s, es + [e])
            == AcceptTimes(p, s, es) + (if Accepts(p, After(p, s, es), e) then [e.now] else [])
    decreases |es|
  {
    hide LogStep, Ready, Accepts;
    if es == [] {
      assert (es + [e])[1..] == [];
      assert Legal(p, LogStep(p, s, e), []) && AcceptTimes(p, LogStep(p, s, e), []) == [];
    } else {
      LogRunAppend(p, LogStep(p, s, es[0]), es[1..], e);
      assert (es + [e])[1..] == es[1..] + [e];
    }
  }

  /** A pulse that arrives after a run is accepted exactly if the last accept of the run, or the one
      before it, is at least half a period and less than a second ago; a full log changes nothing
      about this. */
  lemma LogAcceptedIff(p: Params, s: LogNode, es: seq<Signal>, e: Signal)
    requires ValidParams(p) && Legal(p, s, es) && Ready(After(p, s, es), e) && e.Irq?
    ensures Legal(p, s, es + [e])
    ensures var ts := [s.last] + AcceptTimes(p, s, es);
            AcceptTimes(p, s, es + [e])
            == AcceptTimes(p, s, es) + (if 500 * p.T <= e.now - ts[|ts| - 1] < SECOND then [e.now] else [])
  {
    hide LogStep, Ready, Legal, After, AcceptTimes;
    LogRunAppend(p, s, es, e);
    LogLastTwoAccepts(p, s, es);
    var ts, all := [s.last] + AcceptTimes(p, s, es), [s.last2nd, s.last] + AcceptTimes(p, s, es);
    assert all == [s.last2nd] + ts;
  }

  /** When the output pin falls: a full log leaves out the pulse and its microsecond. */
  function Sent(s: LogNode, now: nat): nat {
    if |s.log| < RECORD_COUNT then now + PULSE else now
  }

  /** An accepted pulse: the times of the last two accepts are kept, the random words are reduced
      modulo 2*Delta, and the deadline lies the reduced offset more or less than a period after
      the pulse, up to multiples of 2^32. */
  lemma LogAcceptEffect(p: Params, s: LogNode, e: Signal, rng: nat, backoff: nat)
    requires ValidParams(p) && Ready(s, e) && Accepts(p, s, e)
    requires Leaves(e.rawRng, 2 * p.Delta, rng) && Leaves(e.rawBackoff, 2 * p.Delta, backoff)
    ensures var m := LogStep(p, s, e);
            && m.last == e.now && m.last2nd == s.last
            && m.clock == Sent(s, e.now) + 1000 * backoff
            && Rearmed(p, Sent(s, e.now), s.last - s.last2nd, rng, m.clock, m.deadline)
  {
    hide NextTimer, Wrap, Lengthens, Draw, Leaves, Rearmed, Eligible;
    DrawLeaves(p, e.rawRng, rng);
    DrawLeaves(p, e.rawBackoff, backoff);
    RearmModulo(p, s.last, s.last2nd, rng, backoff, Sent(s, e.now));
  }

  /** The timer is armed after a run exactly if the last pulse asked for was an accepted one; a run
      that asks for none leaves the deadline as it was. */
  lemma {:induction false} ArmedIff(p: Params, s: LogNode, es: seq<Signal>)
    requires ValidParams(p) && Legal(p, s, es)
    ensures var ts, end := Triggers(p, s, es), After(p, s, es);
            if ts == [] then end.deadline == s.deadline else end.deadline.Some? <==> !ts[|ts| - 1].byTimer
    decreases |es|
  {
    hide Draw, NextTimer, Lengthens, Eligible;
    if es != [] {
      var s' := LogStep(p, s, es[0]);
      ArmedIff(p, s', es[1..]);
      var rest := Triggers(p, s', es[1..]);
      if rest == [] {
        assert Triggers(p, s, es) == if es[0].Timer? || Accepts(p, s, es[0]) then [Entry(es[0].now, es[0].Timer?)] else [];
      } else {
        assert Triggers(p, s, es)[|Triggers(p, s, es)| - 1] == rest[|rest| - 1];
      }
    }
  }

  /** A node as the module load leaves it. */
  lemma LoadedLogNode(p: Params, start: nat, e: Signal)
    requires ValidParams(p)
    ensures var s := LogBoot(p, start);
            && Consistent(s) && s.log == []
            && (Ready(s, e) <==> start <= e.now && (e.Timer? ==> start + 1000 * p.T <= e.now))
            && (Accepts(p, s, e) <==> e.Irq? && 500 * p.T <= e.now - start < SECOND)
            && s.last - s.last2nd == start && s.clock == start
  {
  }

  // ---------- Silence ----------

  /** The one-shot timer has no successor: once it has fired and a second has gone by without an
      accepted pulse, the node never sends again. */
  lemma {:induction false} SilentForever(p: Params, s: LogNode, es: seq<Signal>)
    requires ValidParams(p) && Legal(p, s, es)
    requires s.deadline == None && s.clock - s.last >= SECOND
    ensures Triggers(p, s, es) == [] && After(p, s, es).log == s.log && After(p, s, es).deadline == None
    decreases |es|
  {
    if es != [] {
      assert !Accepts(p, s, es[0]);
      SilentForever(p, LogStep(p, s, es[0]), es[1..]);
    }
  }

  /** Some run of the node sends a pulse: the log has an entry for each pulse sent. */
  ghost predicate MaySend(p: Params, s: LogNode)
    requires ValidParams(p)
  {
    exists es :: Legal(p, s, es) && |After(p, s, es).log| > |s.log|
  }

  /** A node can still send if and only if its log is not full, and its timer is armed or it can
      still accept a pulse. */
  lemma MaySendIff(p: Params, s: LogNode)
    requires ValidParams(p) && s.last <= s.clock
    ensures MaySend(p, s) <==>
              && |s.log| < 1000
              && (s.deadline.Some? || (s.clock - s.last < SECOND && 500 * p.T < SECOND))
  {
    if |s.log| >= RECORD_COUNT {
      forall es | Legal(p, s, es) ensures After(p, s, es).log == s.log { FullLogStaysSilent(p, s, es); }
    } else if s.deadline.Some? {
      FirstPulse(p, s, Signal.Timer(if s.clock < s.deadline.value then s.deadline.value else s.clock));
    } else if s.clock - s.last < SECOND && 500 * p.T < SECOND {
      FirstPulse(p, s, Signal.Irq(if s.clock < s.last + 500 * p.T then s.last + 500 * p.T else s.clock, 0, 0));
    } else {
      forall es | Legal(p, s, es) ensures After(p, s, es).log == s.log {
        if 500 * p.T >= SECOND { LongPeriodStaysSilent(p, s, es); } else { SilentForever(p, s, es); }
      }
    }
  }

  lemma FirstPulse(p: Params, s: LogNode, e: Signal)
    requires ValidParams(p) && |s.log| < RECORD_COUNT
    requires Ready(s, e) && (e.Timer? || Accepts(p, s, e))
    ensures MaySend(p, s)
  {
    var s' := LogStep(p, s, e);
    assert Legal(p, s', []) && After(p, s', []) == s';
    assert [e][1..] == [];
    assert Legal(p, s, [e]) && After(p, s, [e]) == s';
  }

  lemma {:induction false} FullLogStaysSilent(p: Params, s: LogNode, es: seq<Signal>)
    requires ValidParams(p) && Legal(p, s, es) && |s.log| >= RECORD_COUNT
    ensures After(p, s, es).log == s.log
    decreases |es|
  {
    if es != [] { FullLogStaysSilent(p, LogStep(p, s, es[0]), es[1..]); }
  }

  lemma {:induction false} LongPeriodStaysSilent(p: Params, s: LogNode, es: seq<Signal>)
    requires ValidParams(p) && Legal(p, s, es) && s.deadline == None && 500 * p.T >= SECOND
    ensures After(p, s, es).log == s.log
    decreases |es|
  {
    if es != [] { LongPeriodStaysSilent(p, LogStep(p, s, es[0]), es[1..]); }
  }

  /** The module's global variables. */
  class LogModule {
    const params: Params
    var last: nat
    var last2nd: nat
    var deadline: Option<nat>
    var clock: nat
    const log: array<Entry>
    var curCount: nat
    var prints: nat

    ghost predicate Valid()
      reads this, log
    {
      ValidParams(params) && log.Length == RECORD_COUNT && curCount <= RECORD_COUNT
    }

    ghost function State(): LogNode
      requires Valid()
      reads this, log
    {
      LogNode(last, last2nd, deadline, clock, log[..curCount], prints)
    }

    constructor (p: Params, now: nat)
      requires ValidParams(p)
      ensures Valid() && fresh(log) && params == p && State() == LogBoot(p, now)
    {
      params := p;
      last, last2nd, clock, curCount, prints := now, 0, now, 0, 0;
      deadline := Some(now + p.T * 1000);
      log := new Entry[RECORD_COUNT](_ => Entry(0, false));
    }

    /** The guarded block both handlers share. */
    method Pulse(byTimer: bool)
      requires Valid()
      modifies this`clock, this`curCount, this`prints, log
      ensures Valid() && State() == Record(old(State()), Entry(old(clock), byTimer))
    {
      if curCount < RECORD_COUNT {
        log[curCount] := Entry(clock, byTimer);
        curCount := curCount + 1;
        clock := clock + PULSE;
        if curCount == RECORD_COUNT {
          prints := prints + 1;
        }
      }
    }

    method TimerHandler(now: nat)
      requires Valid() && Ready(State(), Signal.Timer(now))
      modifies this, log
      ensures Valid() && State() == LogStep(params, old(State()), Signal.Timer(now))
      ensures deadline == None && last == old(last) && last2nd == old(last2nd)
      ensures clock == old(Sent(State(), now))
      ensures curCount == old(curCount) + (if old(curCount) < RECORD_COUNT then 1 else 0)
    {
      clock := now;
      Pulse(true);
      deadline := None;
    }

    method IrqHandler(now: nat, rawRng: nat, rawBackoff: nat)
      requires Valid() && Ready(State(), Signal.Irq(now, rawRng, rawBackoff))
      modifies this, log
      ensures Valid() && State() == LogStep(params, old(State()), Signal.Irq(now, rawRng, rawBackoff))
      ensures !(500 * params.T <= now - old(last) < SECOND) ==> State() == old(State()).(clock := now)
      ensures 500 * params.T <= now - old(last) < SECOND ==>
                && last == now && last2nd == old(last)
                && forall rng: nat, backoff: nat ::
                     Leaves(rawRng, 2 * params.Delta, rng) && Leaves(rawBackoff, 2 * params.Delta, backoff) ==>
                       && clock == old(Sent(State(), now)) + 1000 * backoff
                       && Rearmed(params, old(Sent(State(), now)), old(last - last2nd), rng, clock, deadline)
    {
      hide Wrap, Draw, Lengthens, Leaves, Rearmed;
      ghost var was, e := State(), Signal.Irq(now, rawRng, rawBackoff);
      if Accepts(params, was, e) {
        forall rng: nat, backoff: nat | Leaves(rawRng, 2 * params.Delta, rng) && Leaves(rawBackoff, 2 * params.Delta, backoff)
          ensures var m := LogStep(params, was, e);
                  && m.clock == Sent(was, now) + 1000 * backoff
                  && Rearmed(params, Sent(was, now), was.last - was.last2nd, rng, m.clock, m.deadline)
        {
          LogAcceptEffect(params, was, e, rng, backoff);
        }
      }
      clock := now;
      var diff := now - last;
      if diff >= SECOND || diff < params.T * 500 {
        return;
      }
      deadline := None;
      Pulse(false);
      var rng := Draw(params, rawRng);
      var nextTimer := AdjustPeriod(params, last, last2nd, rng);
      last2nd := last;
      last := now;
      var backoff := Draw(params, rawBackoff);
      clock := clock + backoff * 1000;
      nextTimer := Wrap(nextTimer - backoff);
      deadline := Some(clock + Wrap(nextTimer * 1000));
    }
  }
}
