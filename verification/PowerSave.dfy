/** Power-save reference counting in the ath9k driver core (`ath9k/main.c`).

Each locked region of the source is one step, and so is the sleep timer: waking up cancels the
timer and waits for a callback that is already running. `ath9k_hw_setpower` is taken to set the
mode it is asked for. */
module PowerSave {

  datatype Mode = Awake | NetworkSleep | FullSleep

  datatype Flag = WaitForBeacon | WaitForCab | WaitForPsPollData | WaitForTxAck | BeaconSync | WaitForAni

  datatype Power = Power(
    useCount: nat,
    mode: Mode,
    timerPending: bool,
    idle: bool,
    enabled: bool,
    flags: set<Flag>)

  /** The flags that keep the chip awake. */
  const WAITS: set<Flag> := {WaitForBeacon, WaitForCab, WaitForPsPollData, WaitForTxAck, WaitForAni}

  function Wakeup(s: Power): Power {
    if s.useCount + 1 != 1 then s.(useCount := s.useCount + 1)
    else s.(useCount := 1, timerPending := false, mode := Awake)
  }

  function Restore(s: Power): Power
    requires s.useCount > 0
  {
    var d := s.(useCount := s.useCount - 1);
    if d.useCount != 0 then d
    else if d.idle then d.(timerPending := true)
    else if d.enabled && d.flags * WAITS == {} then d.(mode := NetworkSleep)
    else d
  }

  function SleepTimer(s: Power): Power {
    s.(timerPending := false, mode := FullSleep)
  }

  // ---------- Every interleaving ----------

  /** Steps of the threads, of the flag and idle updates, of the sleep timer, and of the two places
      that force the chip awake without a bracket: the TIM interrupt and switching power save off. */
  datatype Event =
    | Wake(thread: nat)
    | Release(thread: nat)
    | SetIdle(on: bool)
    | SetEnabled(on: bool)
    | SetFlag(flag: Flag)
    | ClearFlag(flag: Flag)
    | TimerFires
    | ForceAwake

  /** The power state and the brackets that are open, by thread. */
  datatype System = System(power: Power, open: multiset<nat>)

  /** A thread closes only what it opened, and the timer fires only when pending. */
  predicate Allowed(s: System, e: Event) {
    && (e.Release? ==> e.thread in s.open && s.power.useCount > 0)
    && (e.TimerFires? ==> s.power.timerPending)
  }

  function Step(s: System, e: Event): System
    requires Allowed(s, e)
  {
    match e
    case Wake(t) => System(Wakeup(s.power), s.open + multiset{t})
    case Release(t) => System(Restore(s.power), s.open - multiset{t})
    case SetIdle(on) => s.(power := s.power.(idle := on))
    case SetEnabled(on) => s.(power := s.power.(enabled := on))
    case SetFlag(f) => s.(power := s.power.(flags := s.power.flags + {f}))
    case ClearFlag(f) => s.(power := s.power.(flags := s.power.flags - {f}))
    case TimerFires => s.(power := SleepTimer(s.power))
    case ForceAwake => s.(power := s.power.(mode := Awake))
  }

  /** The count is the number of open brackets, and while one is open the chip is awake with no
      sleep timer pending. */
  ghost predicate Inv(s: System) {
    && s.power.useCount == |s.open|
    && (s.open != multiset{} ==> s.power.mode == Awake && !s.power.timerPending)
  }

  ghost predicate Legal(s: System, es: seq<Event>)
    decreases |es|
  {
    es != [] ==> Allowed(s, es[0]) && Legal(Step(s, es[0]), es[1..])
  }

  ghost function After(s: System, es: seq<Event>): System
    requires Legal(s, es)
    decreases |es|
  {
    if es == [] then s else After(Step(s, es[0]), es[1..])
  }

  lemma StepKeepsInv(s: System, e: Event)
    requires Inv(s) && Allowed(s, e)
    ensures Inv(Step(s, e))
  {
    match e
    case Wake(t) =>
      assert (s.open + multiset{t})[t] > 0;
    case Release(t) =>
      assert |s.open - multiset{t}| == |s.open| - 1;
    case _ =>
  }

  /** Over every interleaving, whoever holds a bracket finds the chip awake and no sleep timer
      pending, and the count is the number of open brackets. */
  lemma {:induction false} BracketsKeepAwake(s: System, es: seq<Event>)
    requires Inv(s) && Legal(s, es)
    ensures Inv(After(s, es))
    ensures forall t :: t in After(s, es).open ==>
              After(s, es).power.mode == Awake && !After(s, es).power.timerPending
    decreases |es|
  {
    if es != [] {
      StepKeepsInv(s, es[0]);
      BracketsKeepAwake(Step(s, es[0]), es[1..]);
    }
  }

  /** Brackets of the events alone: opens minus closes of one thread. */
  ghost function Balance(es: seq<Event>, t: nat): int {
    if es == [] then 0 else
      (if es[0] == Wake(t) then 1 else if es[0] == Release(t) then -1 else 0) + Balance(es[1..], t)
  }

  /** A thread's open brackets are its wake-ups less its releases; so between a wake-up and the
      matching release the chip stays awake, whatever the others do. */
  lemma {:induction false} OpenIsBalance(s: System, es: seq<Event>, t: nat)
    requires Inv(s) && Legal(s, es)
    ensures After(s, es).open[t] == s.open[t] + Balance(es, t)
    ensures s.open[t] + Balance(es, t) > 0 ==> After(s, es).power.mode == Awake
    decreases |es|
  {
    BracketsKeepAwake(s, es);
    if es != [] {
      StepKeepsInv(s, es[0]);
      StepBalance(s, es[0], t);
      OpenIsBalance(Step(s, es[0]), es[1..], t);
    }
  }

  lemma StepBalance(s: System, e: Event, t: nat)
    requires Allowed(s, e)
    ensures Step(s, e).open[t] == s.open[t] + (if e == Wake(t) then 1 else if e == Release(t) then -1 else 0)
  {
  }

  // ---------- Which mode the chip is in ----------

  /** Some reason to stay awake is on record; beacon synchronisation alone is none. */
  predicate Waiting(flags: set<Flag>) {
    || WaitForBeacon in flags || WaitForCab in flags || WaitForPsPollData in flags
    || WaitForTxAck in flags || WaitForAni in flags
  }

  /** The two sleeping modes, and the pending sleep timer. */
  datatype Condition = InFullSleep | InNetworkSleep | TimerPending

  predicate Holds(c: Condition, s: System) {
    match c
    case InFullSleep => s.power.mode == FullSleep
    case InNetworkSleep => s.power.mode == NetworkSleep
    case TimerPending => s.power.timerPending
  }

  /** The steps that bring a condition about. Only the timer leads to full sleep. The release of the
      last bracket leads to network sleep, with power save on, the driver not idle and nothing to
      wait for; in an idle driver it arms the timer. */
  predicate Sets(c: Condition, s: System, e: Event) {
    match c
    case InFullSleep => e.TimerFires?
    case InNetworkSleep =>
      e.Release? && s.power.useCount == 1 && !s.power.idle && s.power.enabled && !Waiting(s.power.flags)
    case TimerPending => e.Release? && s.power.useCount == 1 && s.power.idle
  }

  /** The events that end it. */
  predicate Ends(c: Condition, e: Event) {
    match c
    case InFullSleep => e.Wake? || e.ForceAwake?
    case InNetworkSleep => e.Wake? || e.ForceAwake? || e.TimerFires?
    case TimerPending => e.Wake? || e.TimerFires?
  }

  lemma StepConditions(s: System, e: Event, c: Condition)
    requires Inv(s) && Allowed(s, e)
    ensures Holds(c, Step(s, e)) <==> Sets(c, s, e) || (Holds(c, s) && !Ends(c, e))
  {
    if e.Release? {
      WaitingIff(s.power.flags);
      assert s.open != multiset{};
    } else if e.Wake? && s.power.useCount > 0 {
      assert s.open != multiset{};
    }
  }

  lemma WaitingIff(flags: set<Flag>)
    ensures Waiting(flags) <==> flags * WAITS != {}
  {
    if Waiting(flags) {
      var f := if WaitForBeacon in flags then WaitForBeacon else if WaitForCab in flags then WaitForCab
               else if WaitForPsPollData in flags then WaitForPsPollData
               else if WaitForTxAck in flags then WaitForTxAck else WaitForAni;
      assert f in flags * WAITS;
    }
  }

  lemma {:induction false} RunSplits(s: System, es: seq<Event>, i: nat)
    requires Legal(s, es) && i < |es|
    ensures Legal(s, es[..i]) && Allowed(After(s, es[..i]), es[i])
    ensures i > 0 ==>
              && Legal(Step(s, es[0]), es[1..][..i - 1])
              && After(s, es[..i]) == After(Step(s, es[0]), es[1..][..i - 1])
    decreases |es|
  {
    if i > 0 {
      assert es[..i][1..] == es[1..][..i - 1];
      RunSplits(Step(s, es[0]), es[1..], i - 1);
    }
  }

  ghost predicate Lasts(c: Condition, es: seq<Event>) {
    forall j :: 0 <= j < |es| ==> !Ends(c, es[j])
  }

  /** Event `i` of the run brought the condition about, and nothing after it ended it. */
  ghost predicate SetAt(c: Condition, s: System, es: seq<Event>, i: nat) {
    i < |es| && Legal(s, es[..i]) && Sets(c, After(s, es[..i]), es[i]) && Lasts(c, es[i + 1..])
  }

  lemma SetFirst(c: Condition, s: System, es: seq<Event>)
    requires Legal(s, es) && es != []
    ensures SetAt(c, s, es, 0) <==> Sets(c, s, es[0]) && Lasts(c, es[1..])
    ensures Lasts(c, es) <==> !Ends(c, es[0]) && Lasts(c, es[1..])
  {
    hide Step, Allowed, Sets, Ends;
    assert es[..0] == [] && After(s, []) == s;
    assert forall j :: 0 < j < |es| ==> es[j] == es[1..][j - 1];
  }

  lemma SetLater(c: Condition, s: System, es: seq<Event>, i: nat)
    requires Legal(s, es) && es != []
    ensures SetAt(c, Step(s, es[0]), es[1..], i) <==> SetAt(c, s, es, i + 1)
  {
    hide Step, Allowed, Sets, Lasts;
    if i + 1 < |es| {
      RunSplits(s, es, i + 1);
      assert es[1..][i + 1..] == es[i + 2..];
    }
  }

  /** Over every interleaving each condition holds exactly if it has been brought about and not ended
      since, or held before the run and was not ended. So the chip is in full sleep exactly from a
      firing of the sleep timer to the next wake-up or forced one, and in no other way. */
  lemma {:induction false} ConditionIff(c: Condition, s: System, es: seq<Event>)
    requires Inv(s) && Legal(s, es)
    ensures Holds(c, After(s, es)) <==> (Holds(c, s) && Lasts(c, es)) || exists i :: SetAt(c, s, es, i)
    decreases |es|
  {
    if es != [] {
      hide Inv, Step, Allowed, Holds, Sets, Ends, Lasts, SetAt;
      var s', rest := Step(s, es[0]), es[1..];
      StepKeepsInv(s, es[0]);
      StepConditions(s, es[0], c);
      ConditionIff(c, s', rest);
      SetFirst(c, s, es);
      if i: nat :| SetAt(c, s', rest, i) {
        SetLater(c, s, es, i);
      }
      if i: nat :| SetAt(c, s, es, i) {
        if i > 0 { SetLater(c, s, es, i - 1); }
      }
    } else {
      assert forall i :: !SetAt(c, s, es, i);
    }
  }

  /** Exactly in full sleep a frame is refused, and nothing changes. */
  lemma FullSleepRefusesTx(s: System, es: seq<Event>, psPoll: bool)
    requires Inv(s) && Legal(s, es)
    ensures var q := After(s, es).power;
            (TxPrepare(q, psPoll).mode == FullSleep && TxPrepare(q, psPoll) == q)
            <==> (s.power.mode == FullSleep && Lasts(InFullSleep, es)) || exists i :: SetAt(InFullSleep, s, es, i)
  {
    ConditionIff(InFullSleep, s, es);
    BracketsKeepAwake(s, es);
    hide Inv, Legal, After, SetAt, Lasts;
    var end := After(s, es);
    assert Sound(end.power) by { SoundFromInv(end); }
    TxFindsChipAwake(end.power, psPoll);
  }

  lemma SoundFromInv(s: System)
    requires Inv(s)
    ensures Sound(s.power)
  {
    if s.power.useCount > 0 { assert s.open != multiset{}; }
  }

  // ---------- Transmit ----------

  /** The power part of `ath9k_tx` up to the full-sleep test. */
  function TxPrepare(s: Power, psPoll: bool): Power {
    if s.mode == NetworkSleep then
      var w := Wakeup(s);
      Restore(w.(flags := w.flags + {if psPoll then WaitForPsPollData else WaitForTxAck}))
    else s
  }

  /** The chip is asleep only while no bracket is open. */
  predicate Sound(s: Power) {
    s.useCount > 0 ==> s.mode == Awake && !s.timerPending
  }

  /** Without interference a frame is handed to the hardware exactly when the chip was not in
      full sleep, and then the chip is awake; the count is the same on every exit, and a chip
      woken for the frame stays awake, with the reason on record. */
  lemma TxFindsChipAwake(s: Power, psPoll: bool)
    requires Sound(s)
    ensures var r := TxPrepare(s, psPoll);
            && (r.mode == FullSleep <==> s.mode == FullSleep)
            && (r.mode != FullSleep ==> r.mode == Awake)
            && r.useCount == s.useCount && Sound(r)
            && (s.mode == NetworkSleep ==>
                  && r.flags == s.flags + {if psPoll then WaitForPsPollData else WaitForTxAck}
                  && r.timerPending == s.idle)
  {
    if s.mode == NetworkSleep {
      var w := Wakeup(s);
      var flag := if psPoll then WaitForPsPollData else WaitForTxAck;
      assert flag in (w.flags + {flag}) * WAITS;
    }
  }

  // ---------- What protects a waking chip ----------

  /** Thread `me` neither opens nor closes a bracket. */
  ghost predicate Without(es: seq<Event>, me: nat) {
    forall i :: 0 <= i < |es| ==> es[i] != Wake(me) && es[i] != Release(me)
  }

  lemma {:induction false} WithoutBalance(es: seq<Event>, me: nat)
    requires Without(es, me)
    ensures Balance(es, me) == 0
  {
    if es != [] {
      assert es[0] != Wake(me) && es[0] != Release(me);
      WithoutBalance(es[1..], me);
    }
  }

  lemma PrefixRun(s: System, e: Event, es: seq<Event>)
    requires Allowed(s, e) && Legal(Step(s, e), es)
    ensures Legal(s, [e] + es) && After(s, [e] + es) == After(Step(s, e), es)
  {
    assert ([e] + es)[1..] == es;
  }

  lemma Prefix(s: System, e: Event, es: seq<Event>, me: nat)
    requires Allowed(s, e) && Legal(Step(s, e), es) && Without(es, me) && e != Wake(me) && e != Release(me)
    ensures Legal(s, [e] + es) && Without([e] + es, me)
    ensures After(s, [e] + es) == After(Step(s, e), es)
  {
    PrefixRun(s, e, es);
  }

  /** Nothing keeps the chip awake once the last bracket closes. */
  ghost predicate MaySleep(s: System) {
    !s.power.idle && s.power.enabled && s.power.flags * WAITS == {}
  }

  lemma {:induction false} OthersRelease(s: System, me: nat) returns (es: seq<Event>)
    requires Inv(s) && s.open[me] == 0 && s.open != multiset{} && MaySleep(s)
    ensures Legal(s, es) && Without(es, me) && After(s, es).power.mode == NetworkSleep
    decreases |s.open|
  {
    var t :| t in s.open;
    var e := Release(t);
    StepKeepsInv(s, e);
    var s' := Step(s, e);
    if s'.open == multiset{} {
      es := [];
      assert After(s', es) == s';
    } else {
      es := OthersRelease(s', me);
    }
    Prefix(s, e, es, me);
    es := [e] + es;
  }

  lemma {:induction false} OthersClearAndRelease(s: System, me: nat) returns (es: seq<Event>)
    requires Inv(s) && s.open[me] == 0 && !s.power.idle && s.power.enabled
    ensures Legal(s, es) && Without(es, me) && After(s, es).power.mode == NetworkSleep
    decreases |s.power.flags * WAITS|
  {
    var e;
    if s.power.flags * WAITS == {} {
      e := Wake(me + 1);
      StepKeepsInv(s, e);
      es := OthersRelease(Step(s, e), me);
    } else {
      var flag :| flag in s.power.flags * WAITS;
      e := ClearFlag(flag);
      StepKeepsInv(s, e);
      assert Step(s, e).power.flags * WAITS == s.power.flags * WAITS - {flag};
      es := OthersClearAndRelease(Step(s, e), me);
    }
    Prefix(s, e, es, me);
    es := [e] + es;
  }

  lemma OthersPutToSleep(s: System, me: nat) returns (es: seq<Event>)
    requires Inv(s) && s.open[me] == 0
    ensures Legal(s, es) && Without(es, me) && After(s, es).power.mode == NetworkSleep
  {
    var s1 := Step(s, SetIdle(false));
    var s2 := Step(s1, SetEnabled(true));
    es := OthersClearAndRelease(s2, me);
    Prefix(s1, SetEnabled(true), es, me);
    es := [SetEnabled(true)] + es;
    Prefix(s, SetIdle(false), es, me);
    es := [SetIdle(false)] + es;
  }

  /** The chip stays awake under everything the others may do exactly for a thread that holds a
      bracket of its own. */
  lemma OnlyOwnBracketProtects(s: System, me: nat)
    requires Inv(s)
    ensures (forall es :: Legal(s, es) && Without(es, me) ==> After(s, es).power.mode == Awake) <==> s.open[me] > 0
  {
    if s.open[me] > 0 {
      forall es | Legal(s, es) && Without(es, me) ensures After(s, es).power.mode == Awake {
        WithoutBalance(es, me);
        OpenIsBalance(s, es, me);
      }
    } else {
      var es := OthersPutToSleep(s, me);
      assert After(s, es).power.mode != Awake;
    }
  }

  /** The wake-up and restore of a frame sent from network sleep are steps of the sending thread. */
  lemma TxIsABracket(s: System, me: nat, psPoll: bool)
    requires Inv(s) && s.power.mode == NetworkSleep
    ensures var es := [Wake(me), SetFlag(if psPoll then WaitForPsPollData else WaitForTxAck), Release(me)];
            Legal(s, es) && After(s, es) == System(TxPrepare(s.power, psPoll), s.open)
  {
    var flag := SetFlag(if psPoll then WaitForPsPollData else WaitForTxAck);
    var s1 := Step(s, Wake(me));
    var s2 := Step(s1, flag);
    var s3 := Step(s2, Release(me));
    assert s3.open == s.open;
    PrefixRun(s2, Release(me), []);
    PrefixRun(s1, flag, [Release(me)]);
    PrefixRun(s, Wake(me), [flag] + [Release(me)]);
    assert [Wake(me)] + ([flag] + ([Release(me)] + [])) == [Wake(me), flag, Release(me)];
  }

  /** Between its full-sleep test and the hand-over `ath9k_tx` keeps no bracket: the chip is awake
      after the test, and is sure to be at the hand-over if and only if the sending thread holds
      a bracket from elsewhere, which that function does not open. */
  lemma TxRace(s: System, me: nat, psPoll: bool)
    requires Inv(s) && s.power.mode != FullSleep
    ensures var r := System(TxPrepare(s.power, psPoll), s.open);
            && Inv(r) && r.power.mode == Awake
            && ((forall es :: Legal(r, es) && Without(es, me) ==> After(r, es).power.mode == Awake)
                <==> s.open[me] > 0)
  {
    if s.power.useCount == 0 { assert s.open == multiset{}; }
    TxFindsChipAwake(s.power, psPoll);
    OnlyOwnBracketProtects(System(TxPrepare(s.power, psPoll), s.open), me);
  }

  /** A single step of the others puts an awake chip to sleep in exactly two ways. */
  lemma OneStepSleepsIff(s: System, me: nat)
    requires Inv(s) && s.power.mode == Awake
    ensures (exists e :: Allowed(s, e) && e != Wake(me) && e != Release(me) && Step(s, e).power.mode != Awake)
            <==> s.power.timerPending || (s.power.useCount == 1 && s.open[me] == 0 && MaySleep(s))
  {
    if s.power.timerPending {
      assert Allowed(s, TimerFires) && Step(s, TimerFires).power.mode != Awake;
    }
    if s.power.useCount == 1 && s.open[me] == 0 && MaySleep(s) {
      var t :| t in s.open;
      assert Allowed(s, Release(t)) && Step(s, Release(t)).power.mode == NetworkSleep;
    }
    forall e | Allowed(s, e) && e != Wake(me) && e != Release(me) && Step(s, e).power.mode != Awake
      ensures s.power.timerPending || (s.power.useCount == 1 && s.open[me] == 0 && MaySleep(s))
    {
      StepThatSleeps(s, e);
    }
  }

  lemma StepThatSleeps(s: System, e: Event)
    requires Inv(s) && s.power.mode == Awake && Allowed(s, e) && Step(s, e).power.mode != Awake
    ensures e.TimerFires? || (e.Release? && s.power.useCount == 1 && s.open == multiset{e.thread} && MaySleep(s))
  {
    if e.Release? {
      var rest := s.open - multiset{e.thread};
      assert s.open == rest + multiset{e.thread};
      assert |rest| == 0 ==> rest == multiset{};
    }
  }

  /** The two ways a single step in that gap puts the chip to sleep: a sleep timer, pending from
      before or armed by the frame's own restore, fires; or another thread closes the last
      bracket with nothing to keep the chip awake. */
  lemma TxGapInOneStep(s: System, me: nat, psPoll: bool)
    requires Inv(s) && s.power.mode != FullSleep
    ensures var r := System(TxPrepare(s.power, psPoll), s.open);
            (exists e :: Allowed(r, e) && e != Wake(me) && e != Release(me) && Step(r, e).power.mode != Awake)
            <==>
            || (if s.power.mode == NetworkSleep then s.power.idle else s.power.timerPending)
            || (s.power.useCount == 1 && s.open[me] == 0 && MaySleep(s))
  {
    TxFindsChipAwake(s.power, psPoll);
    OneStepSleepsIff(System(TxPrepare(s.power, psPoll), s.open), me);
  }

  // ---------- The driver's fields ----------

  class SoftC {
    var useCount: nat
    var mode: Mode
    var timerPending: bool
    var idle: bool
    var enabled: bool
    var flags: set<Flag>

    function State(): Power
      reads this
    {
      Power(useCount, mode, timerPending, idle, enabled, flags)
    }

    constructor (enabled0: bool)
      ensures State() == Power(0, Awake, false, false, enabled0, {})
    {
      useCount, mode, timerPending, idle, enabled, flags := 0, Awake, false, false, enabled0, {};
    }

    method PsWakeup()
      modifies this
      ensures State() == Wakeup(old(State()))
    {
      useCount := useCount + 1;
      if useCount == 1 {
        timerPending := false;
        mode := Awake;
      }
    }

    method PsRestore()
      requires useCount > 0
      modifies this
      ensures State() == Restore(old(State()))
    {
      useCount := useCount - 1;
      if useCount != 0 {
        return;
      }
      if idle {
        timerPending := true;
        return;
      }
      if enabled && flags * WAITS == {} {
        mode := NetworkSleep;
      }
    }

    method FullSleepCallback()
      requires timerPending
      modifies this
      ensures State() == SleepTimer(old(State()))
      ensures mode == FullSleep && !timerPending && useCount == old(useCount)
    {
      timerPending := false;
      mode := FullSleep;
    }

    /** `sent` is the mode in which the frame reached the hardware, or nothing. */
    method Tx(psPoll: bool) returns (started: bool, sent: Mode)
      requires Sound(State())
      modifies this
      ensures State() == TxPrepare(old(State()), psPoll)
      ensures started == (old(mode) != FullSleep) && (started ==> sent == Awake)
      ensures useCount == old(useCount)
    {
      TxFindsChipAwake(State(), psPoll);
      if mode == NetworkSleep {
        PsWakeup();
        if psPoll {
          flags := flags + {WaitForPsPollData};
        } else {
          flags := flags + {WaitForTxAck};
        }
        PsRestore();
      }
      if mode == FullSleep {
        return false, mode;
      }
      return true, mode;
    }
  }
}
