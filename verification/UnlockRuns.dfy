/** Whole runs of unlock nodes: every sequence of timer and interrupt events one node can see,
and every interleaving of the events of many nodes. The interrupt line may fall at any time,
so the results hold for every wiring. */
module UnlockRuns {
  import opened Bits
  import opened Common
  import opened Unlock

  ghost predicate Legal(p: Params, n: Node, es: seq<Event>)
    requires ValidParams(p)
    decreases |es|
  {
    es == [] || (Enabled(n, es[0]) && Legal(p, Step(p, n, es[0]), es[1..]))
  }

  ghost function After(p: Params, n: Node, es: seq<Event>): Node
    requires ValidParams(p) && Legal(p, n, es)
    decreases |es|
  {
    if es == [] then n else After(p, Step(p, n, es[0]), es[1..])
  }

  /** The times at which the node accepts, and so relays, a pulse. */
  ghost function Accepts(p: Params, n: Node, es: seq<Event>): seq<nat>
    requires ValidParams(p) && Legal(p, n, es)
    decreases |es|
  {
    if es == [] then [] else
      (if Relays(p, n, es[0]) then [es[0].now] else []) + Accepts(p, Step(p, n, es[0]), es[1..])
  }

  /** The times at which the node sends a pulse of its own or relays one. */
  ghost function PulseTimes(p: Params, n: Node, es: seq<Event>): seq<nat>
    requires ValidParams(p) && Legal(p, n, es)
    decreases |es|
  {
    if es == [] then [] else
      (if Pulses(p, n, es[0]) then [es[0].now] else []) + PulseTimes(p, Step(p, n, es[0]), es[1..])
  }

  // ---------- Accepted pulses ----------

  /** Consecutive entries differ by at least `least` and less than `limit`. */
  ghost predicate Spaced(ts: seq<nat>, least: int, limit: int) {
    forall i :: 0 <= i < |ts| - 1 ==> least <= ts[i + 1] - ts[i] < limit
  }

  /** Accepted pulses are at least half a period and less than a second apart, counting from
      the last pulse accepted before the run. */
  lemma {:induction false} AcceptSpacing(p: Params, n: Node, es: seq<Event>)
    requires ValidParams(p) && Legal(p, n, es)
    ensures Spaced([n.last] + Accepts(p, n, es), 500 * p.T, SECOND)
    decreases |es|
  {
    hide Registers, Draw, NextTimer, Lengthens;
    if es != [] {
      var n' := Step(p, n, es[0]);
      AcceptSpacing(p, n', es[1..]);
      var ts := [n.last] + Accepts(p, n, es);
      if Relays(p, n, es[0]) {
        assert ts == [n.last] + ([n'.last] + Accepts(p, n', es[1..]));
      } else {
        assert ts == [n'.last] + Accepts(p, n', es[1..]);
      }
    }
  }

  /** `last_unlock` and `last_unlock_2nd` hold the last two accepted times. */
  lemma {:induction false} LastTwoAccepts(p: Params, n: Node, es: seq<Event>)
    requires ValidParams(p) && Legal(p, n, es)
    ensures var ts := [n.last2nd, n.last] + Accepts(p, n, es);
            After(p, n, es).last == ts[|ts| - 1] && After(p, n, es).last2nd == ts[|ts| - 2]
    decreases |es|
  {
    hide Registers, Draw, NextTimer, Lengthens;
    if es != [] {
      var n' := Step(p, n, es[0]);
      LastTwoAccepts(p, n', es[1..]);
      if Relays(p, n, es[0]) {
        assert [n.last2nd, n.last] + Accepts(p, n, es)
            == [n.last2nd] + ([n'.last2nd, n'.last] + Accepts(p, n', es[1..]));
      } else {
        assert Accepts(p, n, es) == Accepts(p, n', es[1..]);
      }
    }
  }

  /** From the first accept on, the two stored times are at least half a period and less than a
      second apart, so the seconds test of the period adjustment can only hold before it. */
  lemma StoredTimesStaySpaced(p: Params, n: Node, es: seq<Event>)
    requires ValidParams(p) && Legal(p, n, es) && Accepts(p, n, es) != []
    ensures 500 * p.T <= After(p, n, es).last - After(p, n, es).last2nd < SECOND
    ensures Lengthens(p, After(p, n, es).last, After(p, n, es).last2nd) <==>
              After(p, n, es).last - After(p, n, es).last2nd <= 1000 * p.T
  {
    LastTwoAccepts(p, n, es);
    AcceptSpacing(p, n, es);
    var ts := [n.last] + Accepts(p, n, es);
    var all := [n.last2nd, n.last] + Accepts(p, n, es);
    assert all == [n.last2nd] + ts;
    assert ts[|ts| - 2 + 1] - ts[|ts| - 2] < SECOND;
  }

  /** A node that has accepted nothing for a second never accepts again. */
  lemma {:induction false} StarvedForever(p: Params, n: Node, es: seq<Event>)
    requires ValidParams(p) && Legal(p, n, es) && n.clock - n.last >= SECOND
    ensures Accepts(p, n, es) == []
    ensures After(p, n, es).last == n.last
    decreases |es|
  {
    if es != [] {
      assert !Relays(p, n, es[0]);
      StarvedForever(p, Step(p, n, es[0]), es[1..]);
    }
  }

  /** Some run of the node accepts a pulse. */
  ghost predicate MayAccept(p: Params, n: Node)
    requires ValidParams(p)
  {
    exists es :: Legal(p, n, es) && Accepts(p, n, es) != []
  }

  /** A node can still accept a pulse if and only if its last accept is less than a second old
      and half a period is shorter than a second. */
  lemma MayAcceptIff(p: Params, n: Node)
    requires ValidParams(p) && n.last <= n.clock
    ensures MayAccept(p, n) <==> n.clock - n.last < SECOND && 500 * p.T < SECOND
  {
    if n.clock - n.last >= SECOND {
      forall es | Legal(p, n, es) ensures Accepts(p, n, es) == [] { StarvedForever(p, n, es); }
    } else if 500 * p.T >= SECOND {
      forall es | Legal(p, n, es) ensures Accepts(p, n, es) == [] { LongPeriodNeverAccepts(p, n, es); }
    } else {
      var at := if n.clock < n.last + 500 * p.T then n.last + 500 * p.T else n.clock;
      var e := Irq(at, 0, 0, 0);
      assert Legal(p, Step(p, n, e), []);
      assert [e][1..] == [];
      assert Legal(p, n, [e]) && Accepts(p, n, [e]) == [at] + Accepts(p, Step(p, n, e), []);
    }
  }

  /** With a period of two seconds or more no node ever relays. */
  lemma {:induction false} LongPeriodNeverAccepts(p: Params, n: Node, es: seq<Event>)
    requires ValidParams(p) && Legal(p, n, es) && 500 * p.T >= SECOND
    ensures Accepts(p, n, es) == []
    decreases |es|
  {
    if es != [] { LongPeriodNeverAccepts(p, Step(p, n, es[0]), es[1..]); }
  }

  lemma {:induction false} RunAppend(p: Params, n: Node, es: seq<Event>, e: Event)
    requires ValidParams(p) && Legal(p, n, es) && Enabled(After(p, n, es), e)
    ensures Legal(p, n, es + [e]) && After(p, n, es + [e]) == Step(p, After(p, n, es), e)
    ensures Accepts(p, n, es + [e])
            == Accepts(p, n, es) + (if Relays(p, After(p, n, es), e) then [e.now] else [])
    decreases |es|
  {
    hide Step, Enabled, Relays;
    if es == [] {
      assert (es + [e])[1..] == [];
      assert Legal(p, Step(p, n, e), []) && Accepts(p, Step(p, n, e), []) == [];
    } else {
      RunAppend(p, Step(p, n, es[0]), es[1..], e);
      assert (es + [e])[1..] == es[1..] + [e];
    }
  }

  /** A pulse that arrives after a run is accepted exactly if the last accept of the run, or the one
      before it, is at least half a period and less than a second ago. */
  lemma AcceptedIff(p: Params, n: Node, es: seq<Event>, e: Event)
    requires ValidParams(p) && Legal(p, n, es) && Enabled(After(p, n, es), e) && e.Irq?
    ensures Legal(p, n, es + [e])
    ensures var ts := [n.last] + Accepts(p, n, es);
            Accepts(p, n, es + [e])
            == Accepts(p, n, es) + (if 500 * p.T <= e.now - ts[|ts| - 1] < SECOND then [e.now] else [])
  {
    hide Step, Enabled, Legal, After, Accepts;
    RunAppend(p, n, es, e);
    LastTwoAccepts(p, n, es);
    var ts, all := [n.last] + Accepts(p, n, es), [n.last2nd, n.last] + Accepts(p, n, es);
    assert all == [n.last2nd] + ts;
  }

  /** The period adjustment follows the accepts: the next pulse of the node comes more than a period
      after an accept if the last two accepts before it were at most a period apart, and less than
      a period after it otherwise. */
  lemma AdjustmentFollowsGap(p: Params, n: Node, es: seq<Event>, e: Event, rng: nat)
    requires ValidParams(p) && p.T >= 4 * p.Delta - 2
    requires Legal(p, n, es) && Enabled(After(p, n, es), e) && Accepts(p, n, es) != []
    requires Relays(p, After(p, n, es), e) && Leaves(e.rawRng, 2 * p.Delta, rng)
    ensures var ts := [n.last] + Accepts(p, n, es);
            Step(p, After(p, n, es), e).deadline
            == Some(e.now + PULSE + 1000 * (if ts[|ts| - 1] - ts[|ts| - 2] <= 1000 * p.T then p.T + rng else p.T - rng))
  {
    hide Step, Enabled, Legal, After, Accepts, Eligible, Leaves, Lengthens;
    var m := After(p, n, es);
    LastTwoAccepts(p, n, es);
    StoredTimesStaySpaced(p, n, es);
    var ts, all := [n.last] + Accepts(p, n, es), [n.last2nd, n.last] + Accepts(p, n, es);
    assert all == [n.last2nd] + ts;
    LeavesOne(e.rawBackoff, 2 * p.Delta, 0);
    AcceptEffect(p, m, e, rng, e.rawBackoff % (2 * p.Delta));
  }

  /** A node as the module load leaves it: window 15 in all registers, the timer due a period after
      the load, pulses accepted from half a period after it on. The load time itself counts as the
      gap before the first accept, so that one lengthens the period on every system that has been
      up for a second. */
  lemma LoadedNode(p: Params, start: nat, counter: nat, e: Event, rng: nat)
    requires ValidParams(p)
    ensures var n := Boot(p, start, counter);
            && |n.regs| == 8 && (forall i :: 0 <= i < 8 ==> n.regs[i] == 1025 * 15) && !n.quiet
            && (Enabled(n, e) <==> start <= e.now && (e.Timer? ==> start + 1000 * p.T <= e.now))
            && (Relays(p, n, e) <==> e.Irq? && 500 * p.T <= e.now - start < SECOND)
            && (Enabled(n, e) && Relays(p, n, e) && p.T >= 4 * p.Delta - 2 && Leaves(e.rawRng, 2 * p.Delta, rng) ==>
                  Step(p, n, e).deadline
                  == Some(e.now + PULSE + 1000 * (if start >= SECOND || start <= 1000 * p.T then p.T + rng else p.T - rng)))
  {
    hide Step;
    SmallWindow(15);
    var n := Boot(p, start, counter);
    if Enabled(n, e) && Relays(p, n, e) && p.T >= 4 * p.Delta - 2 && Leaves(e.rawRng, 2 * p.Delta, rng) {
      LeavesOne(e.rawBackoff, 2 * p.Delta, 0);
      AcceptEffect(p, n, e, rng, e.rawBackoff % (2 * p.Delta));
    }
  }

  // ---------- Relay rate ----------

  ghost function Count(ts: seq<nat>, lo: int, hi: int): nat {
    if ts == [] then 0 else (if lo <= ts[0] <= hi then 1 else 0) + Count(ts[1..], lo, hi)
  }

  lemma {:induction false} CountFrom(ts: seq<nat>, lo: int, lo': int, hi: int)
    requires lo <= lo' && forall i :: 0 <= i < |ts| ==> lo' <= ts[i]
    ensures Count(ts, lo, hi) == Count(ts, lo', hi)
    ensures hi < lo' ==> Count(ts, lo, hi) == 0
  {
    if ts != [] { CountFrom(ts[1..], lo, lo', hi); }
  }

  lemma {:induction false} SpacedGrows(ts: seq<nat>, least: nat, limit: int, i: nat)
    requires Spaced(ts, least, limit) && 0 < i < |ts|
    ensures ts[i] >= ts[0] + least
  {
    assert ts[i - 1 + 1] - ts[i - 1] >= least;
    if i > 1 { SpacedGrows(ts, least, limit, i - 1); }
  }

  /** Events at least `least` apart: all but one of those in a window take up that much of it. */
  lemma {:induction false} SpacedCount(ts: seq<nat>, least: nat, limit: int, lo: int, hi: int)
    requires Spaced(ts, least, limit) && lo <= hi
    ensures Count(ts, lo, hi) > 0 ==> (Count(ts, lo, hi) - 1) * least <= hi - lo
  {
    if ts != [] {
      var rest := ts[1..];
      forall i | 0 <= i < |rest| - 1 ensures least <= rest[i + 1] - rest[i] < limit {
        assert least <= ts[i + 1 + 1] - ts[i + 1] < limit;
      }
      if lo <= ts[0] <= hi {
        forall i | 0 <= i < |rest| ensures lo + least <= rest[i] {
          SpacedGrows(ts, least, limit, i + 1);
        }
        CountFrom(rest, lo, lo + least, hi);
        if lo + least <= hi {
          SpacedCount(rest, least, limit, lo + least, hi);
        }
        OneMore(Count(rest, lo, hi), least, hi - lo);
      } else {
        SpacedCount(rest, least, limit, lo, hi);
      }
    }
  }

  lemma OneMore(count: nat, least: nat, w: nat)
    ensures count > 0 && (count - 1) * least <= w - least ==> count * least <= w
    ensures count == 0 ==> count * least <= w
  {
    assert count * least == (count - 1) * least + least;
  }

  lemma AtMostQuotient(count: nat, least: nat, w: nat)
    requires least > 0 && (count > 0 ==> (count - 1) * least <= w)
    ensures count <= w / least + 1
  {
    var q := w / least;
    assert w < (q + 1) * least by { assert w == q * least + w % least; assert (q + 1) * least == q * least + least; }
    if count > q + 1 {
      MulMonotone(q + 1, count - 1, least);
    }
  }

  /** How many pulses one node can relay in a window, whatever the events. */
  lemma RelayRate(p: Params, n: Node, es: seq<Event>, lo: int, hi: int)
    requires ValidParams(p) && Legal(p, n, es) && lo <= hi
    ensures Count(Accepts(p, n, es), lo, hi) <= (hi - lo) / (500 * p.T) + 1
  {
    AcceptSpacing(p, n, es);
    var ts, all := Accepts(p, n, es), [n.last] + Accepts(p, n, es);
    forall i | 0 <= i < |ts| - 1 ensures 500 * p.T <= ts[i + 1] - ts[i] < SECOND {
      assert 500 * p.T <= all[i + 1 + 1] - all[i + 1] < SECOND;
    }
    SpacedCount(ts, 500 * p.T, SECOND, lo, hi);
    AtMostQuotient(Count(ts, lo, hi), 500 * p.T, hi - lo);
  }

  /** Nanoseconds for which accepts in the window set the quiet bit. */
  ghost function QuietTime(p: Params, n: Node, es: seq<Event>, lo: int, hi: int): nat
    requires ValidParams(p) && Legal(p, n, es)
    decreases |es|
  {
    if es == [] then 0 else
      (if Relays(p, n, es[0]) && lo <= es[0].now <= hi then 1000 * Draw(p, es[0].rawBackoff) else 0)
      + QuietTime(p, Step(p, n, es[0]), es[1..], lo, hi)
  }

  /** The event is a relay inside the window. */
  ghost function Hit(p: Params, n: Node, e: Event, lo: int, hi: int): nat {
    if Relays(p, n, e) && lo <= e.now <= hi then 1 else 0
  }

  lemma CountStep(p: Params, n: Node, es: seq<Event>, lo: int, hi: int)
    requires ValidParams(p) && Legal(p, n, es) && es != []
    ensures Count(Accepts(p, n, es), lo, hi)
            == Hit(p, n, es[0], lo, hi) + Count(Accepts(p, Step(p, n, es[0]), es[1..]), lo, hi)
  {
    var rest := Accepts(p, Step(p, n, es[0]), es[1..]);
    if Relays(p, n, es[0]) {
      assert Accepts(p, n, es)[1..] == rest;
    } else {
      assert Accepts(p, n, es) == rest;
    }
  }

  lemma AddShare(time: nat, count: nat, most: nat, hit: nat, share: nat)
    requires time <= count * most && hit <= 1 && share <= (if hit == 1 then most else 0)
    ensures share + time <= (hit + count) * most
  {
    assert (1 + count) * most == most + count * most;
  }

  lemma {:induction false} QuietTimePerAccept(p: Params, n: Node, es: seq<Event>, lo: int, hi: int)
    requires ValidParams(p) && Legal(p, n, es)
    ensures QuietTime(p, n, es, lo, hi) <= Count(Accepts(p, n, es), lo, hi) * (1000 * (2 * p.Delta - 1))
    decreases |es|
  {
    if es != [] {
      var n', most := Step(p, n, es[0]), 1000 * (2 * p.Delta - 1);
      var rest := Count(Accepts(p, n', es[1..]), lo, hi);
      QuietTimePerAccept(p, n', es[1..], lo, hi);
      CountStep(p, n, es, lo, hi);
      AddShare(QuietTime(p, n', es[1..], lo, hi), rest, most, Hit(p, n, es[0], lo, hi),
               QuietTime(p, n, es, lo, hi) - QuietTime(p, n', es[1..], lo, hi));
    }
  }

  /** How long one node can be forced quiet by pulses it accepts in a window. */
  lemma QuietBound(p: Params, n: Node, es: seq<Event>, lo: int, hi: int)
    requires ValidParams(p) && Legal(p, n, es) && lo <= hi
    ensures QuietTime(p, n, es, lo, hi) <= ((hi - lo) / (500 * p.T) + 1) * (1000 * (2 * p.Delta - 1))
  {
    QuietTimePerAccept(p, n, es, lo, hi);
    RelayRate(p, n, es, lo, hi);
    MulMonotone(Count(Accepts(p, n, es), lo, hi), (hi - lo) / (500 * p.T) + 1, 1000 * (2 * p.Delta - 1));
  }

  lemma MulMonotone(a: int, b: int, c: nat)
    requires a <= b
    ensures a * c <= b * c
  {
    assert (b - a) * c >= 0;
  }

  // ---------- Many nodes ----------

  datatype NetEvent = At(node: nat, event: Event)

  ghost predicate LegalNet(p: Params, ns: seq<Node>, es: seq<NetEvent>)
    requires ValidParams(p)
    decreases |es|
  {
    es == [] ||
    (es[0].node < |ns| && Enabled(ns[es[0].node], es[0].event) && LegalNet(p, StepNet(p, ns, es[0]), es[1..]))
  }

  ghost function StepNet(p: Params, ns: seq<Node>, e: NetEvent): seq<Node>
    requires ValidParams(p) && e.node < |ns| && Enabled(ns[e.node], e.event)
  {
    ns[e.node := Step(p, ns[e.node], e.event)]
  }

  /** Relays in the whole network during a window. */
  ghost function NetRelays(p: Params, ns: seq<Node>, es: seq<NetEvent>, lo: int, hi: int): nat
    requires ValidParams(p) && LegalNet(p, ns, es)
    decreases |es|
  {
    if es == [] then 0 else
      Hit(p, ns[es[0].node], es[0].event, lo, hi) + NetRelays(p, StepNet(p, ns, es[0]), es[1..], lo, hi)
  }

  /** The events of one node. */
  ghost function Project(es: seq<NetEvent>, i: nat): seq<Event> {
    if es == [] then [] else (if es[0].node == i then [es[0].event] else []) + Project(es[1..], i)
  }

  lemma {:induction false} ProjectionLegal(p: Params, ns: seq<Node>, es: seq<NetEvent>, i: nat)
    requires ValidParams(p) && LegalNet(p, ns, es) && i < |ns|
    ensures Legal(p, ns[i], Project(es, i))
    decreases |es|
  {
    if es != [] {
      ProjectionLegal(p, StepNet(p, ns, es[0]), es[1..], i);
      if es[0].node == i {
        assert Project(es, i)[1..] == Project(es[1..], i);
      } else {
        assert Project(es, i) == Project(es[1..], i);
      }
    }
  }

  /** Relays in the window, tallied per node. */
  ghost function Tally(p: Params, ns: seq<Node>, es: seq<NetEvent>, lo: int, hi: int): (t: seq<nat>)
    requires ValidParams(p) && LegalNet(p, ns, es)
    ensures |t| == |ns|
    decreases |es|
  {
    if es == [] then seq(|ns|, _ => 0) else
      var rest := Tally(p, StepNet(p, ns, es[0]), es[1..], lo, hi);
      rest[es[0].node := rest[es[0].node] + Hit(p, ns[es[0].node], es[0].event, lo, hi)]
  }

  ghost function Sum(s: seq<nat>): nat {
    if s == [] then 0 else s[0] + Sum(s[1..])
  }

  lemma {:induction false} SumUpdate(s: seq<nat>, i: nat, v: nat)
    requires i < |s|
    ensures Sum(s[i := v]) == Sum(s) - s[i] + v
  {
    if i == 0 {
      assert s[i := v][1..] == s[1..];
    } else {
      SumUpdate(s[1..], i - 1, v);
      assert s[i := v][1..] == s[1..][i - 1 := v];
    }
  }

  lemma {:induction false} SumBound(s: seq<nat>, b: nat)
    requires forall i :: 0 <= i < |s| ==> s[i] <= b
    ensures Sum(s) <= |s| * b
    ensures b == 0 ==> Sum(s) == 0
  {
    if s != [] {
      SumBound(s[1..], b);
      assert |s| * b == b + |s[1..]| * b;
    }
  }

  lemma {:induction false} NetRelaysByNode(p: Params, ns: seq<Node>, es: seq<NetEvent>, lo: int, hi: int)
    requires ValidParams(p) && LegalNet(p, ns, es)
    ensures NetRelays(p, ns, es, lo, hi) == Sum(Tally(p, ns, es, lo, hi))
    decreases |es|
  {
    if es == [] {
      SumBound(Tally(p, ns, es, lo, hi), 0);
    } else {
      var ns', i := StepNet(p, ns, es[0]), es[0].node;
      NetRelaysByNode(p, ns', es[1..], lo, hi);
      var rest := Tally(p, ns', es[1..], lo, hi);
      SumUpdate(rest, i, rest[i] + Hit(p, ns[i], es[0].event, lo, hi));
    }
  }

  /** A node's share of the tally is what it counts on its own events. */
  lemma {:induction false} TallyOfNode(p: Params, ns: seq<Node>, es: seq<NetEvent>, lo: int, hi: int, i: nat)
    requires ValidParams(p) && LegalNet(p, ns, es) && i < |ns|
    ensures Legal(p, ns[i], Project(es, i))
    ensures Tally(p, ns, es, lo, hi)[i] == Count(Accepts(p, ns[i], Project(es, i)), lo, hi)
    decreases |es|
  {
    ProjectionLegal(p, ns, es, i);
    if es != [] {
      var ns', rest := StepNet(p, ns, es[0]), Project(es[1..], i);
      TallyOfNode(p, ns', es[1..], lo, hi, i);
      if es[0].node == i {
        assert Project(es, i)[1..] == rest;
        CountStep(p, ns[i], Project(es, i), lo, hi);
      } else {
        assert Project(es, i) == rest;
      }
    }
  }

  /** In every run of N nodes and every window, the network relays at most
      N * (W/(T/2) + 1) pulses. */
  lemma NetworkRelayRate(p: Params, ns: seq<Node>, es: seq<NetEvent>, lo: int, hi: int)
    requires ValidParams(p) && LegalNet(p, ns, es) && lo <= hi
    ensures NetRelays(p, ns, es, lo, hi) <= |ns| * ((hi - lo) / (500 * p.T) + 1)
  {
    NetRelaysByNode(p, ns, es, lo, hi);
    var tally := Tally(p, ns, es, lo, hi);
    forall i | 0 <= i < |tally| ensures tally[i] <= (hi - lo) / (500 * p.T) + 1 {
      TallyOfNode(p, ns, es, lo, hi, i);
      RelayRate(p, ns[i], Project(es, i), lo, hi);
    }
    SumBound(tally, (hi - lo) / (500 * p.T) + 1);
  }

  // ---------- Timer liveness ----------

  /** The longest silence the protocol means to allow a node: a period, the largest random offset
      and the width of a pulse. */
  function MaxGap(p: Params): nat { 1000 * (p.T + 2 * p.Delta) }

  /** With these parameters no reachable state wraps the relative timer: both branches of the
      period adjustment are exact, or nothing is ever accepted, or the period is too long for
      the shortening branch and the lengthening one is exact. */
  predicate Timely(p: Params) {
    || p.T >= 4 * p.Delta - 2
    || 500 * p.T >= SECOND
    || (1000 * p.T >= SECOND && p.T >= 2 * p.Delta - 1)
  }

  /** How far ahead a pulse can set the timer; without `Timely` the wrapped value counts. */
  function Gap(p: Params): nat
    requires ValidParams(p)
  {
    if Timely(p) then MaxGap(p) else PULSE + 1000 * (2 * p.Delta - 1) + U32 - 1
  }

  /** No event finds the timer overdue by more than `late`. */
  ghost predicate Prompt(p: Params, n: Node, es: seq<Event>, late: nat)
    requires ValidParams(p) && Legal(p, n, es)
    decreases |es|
  {
    es != [] ==>
      && (n.deadline.Some? ==> es[0].now <= n.deadline.value + late)
      && Prompt(p, Step(p, n, es[0]), es[1..], late)
  }

  ghost predicate GapsWithin(ts: seq<nat>, gap: nat) {
    forall i :: 0 <= i < |ts| - 1 ==> ts[i + 1] - ts[i] <= gap
  }

  /** An accept sets the timer at most `Gap` ahead. */
  lemma AcceptArms(p: Params, n: Node, now: nat, rng: nat, backoff: nat)
    requires ValidParams(p) && 500 * p.T < SECOND && rng < 2 * p.Delta && backoff < 2 * p.Delta
    ensures Accept(p, n, now, rng, backoff).deadline.Some?
    ensures now < Accept(p, n, now, rng, backoff).deadline.value <= now + Gap(p)
  {
    if p.T >= 4 * p.Delta - 2 {
      DeadlineAfterAccept(p, n, now, rng, backoff);
    } else if Timely(p) {
      assert Lengthens(p, n.last, n.last2nd);
      assert NextTimer(p, true, rng, backoff) == p.T + rng - backoff;
    }
  }

  /** Every event leaves the timer armed; a pulse moves its deadline at most `Gap` ahead, and
      nothing else moves it. */
  lemma StepArms(p: Params, n: Node, e: Event)
    requires ValidParams(p) && Enabled(n, e) && n.deadline.Some?
    ensures Step(p, n, e).deadline.Some?
    ensures Pulses(p, n, e) ==> e.now < Step(p, n, e).deadline.value <= e.now + Gap(p)
    ensures !Pulses(p, n, e) ==> Step(p, n, e).deadline == n.deadline
  {
    if e.Timer? {
      var _ := ForwardLandsAhead(n.deadline.value, e.now + PULSE, 1000 * p.T);
    } else if Relays(p, n, e) {
      AcceptArms(p, Sample(n, e.free).(clock := e.now), e.now, Draw(p, e.rawRng), Draw(p, e.rawBackoff));
    }
  }

  /** The timer is armed between any two events of any run. */
  lemma {:induction false} StaysArmed(p: Params, n: Node, es: seq<Event>)
    requires ValidParams(p) && Legal(p, n, es) && n.deadline.Some?
    ensures After(p, n, es).deadline.Some?
    decreases |es|
  {
    if es != [] {
      StepArms(p, n, es[0]);
      StaysArmed(p, Step(p, n, es[0]), es[1..]);
    }
  }

  /** Every node keeps pulsing, whatever its parameters: consecutive pulses are never more than
      `Gap` plus the timer's lateness apart.
      `prev` is the last pulse before the run, or the start-up. */
  lemma {:induction false} KeepsPulsing(p: Params, n: Node, es: seq<Event>, prev: nat, late: nat)
    requires ValidParams(p) && Legal(p, n, es) && Prompt(p, n, es, late)
    requires n.deadline.Some? && n.deadline.value <= prev + Gap(p)
    ensures GapsWithin([prev] + PulseTimes(p, n, es), Gap(p) + late)
    decreases |es|
  {
    if es != [] {
      hide Gap, Step, Enabled, Pulses, GapsWithin;
      var e, n' := es[0], Step(p, n, es[0]);
      StepArms(p, n, e);
      if Pulses(p, n, e) {
        KeepsPulsing(p, n', es[1..], e.now, late);
        PrependGap(prev, [e.now] + PulseTimes(p, n', es[1..]), Gap(p) + late);
      } else {
        KeepsPulsing(p, n', es[1..], prev, late);
        assert PulseTimes(p, n, es) == PulseTimes(p, n', es[1..]);
      }
    } else {
      assert GapsWithin([prev] + PulseTimes(p, n, es), Gap(p) + late);
    }
  }

  ghost function TimerEvents(es: seq<Event>): nat {
    if es == [] then 0 else (if es[0].Timer? then 1 else 0) + TimerEvents(es[1..])
  }

  /** Between two accepts all deadlines differ by whole periods: however late the timer events are,
      each moves the deadline by at least one. */
  lemma {:induction false} DeadlinesKeepBeat(p: Params, n: Node, es: seq<Event>) returns (k: nat)
    requires ValidParams(p) && Legal(p, n, es) && n.deadline.Some? && Accepts(p, n, es) == []
    ensures k >= TimerEvents(es) && (k > 0 ==> TimerEvents(es) > 0)
    ensures After(p, n, es).deadline.Some?
    ensures Apart(After(p, n, es).deadline.value, n.deadline.value, 1000 * p.T, k)
    decreases |es|
  {
    if es == [] {
      k := 0;
    } else {
      hide Step, Enabled, Eligible;
      var e, m := es[0], Step(p, n, es[0]);
      assert !Relays(p, n, e);
      StepArms(p, n, e);
      k := DeadlinesKeepBeat(p, m, es[1..]);
      if e.Timer? {
        var j := TimerKeepsBeat(p, n, e.now, e.free);
        assert (j + k) * (1000 * p.T) == j * (1000 * p.T) + k * (1000 * p.T);
        k := j + k;
      }
    }
  }

  /** If no timer event is as late as a period less the pulse width, the pulses between two accepts
      come one a period, each late by its own lateness only: the delays do not add up. */
  lemma {:induction false} NoDrift(p: Params, n: Node, es: seq<Event>, late: nat, i: nat)
    requires ValidParams(p) && Legal(p, n, es) && n.deadline.Some? && Accepts(p, n, es) == []
    requires Prompt(p, n, es, late) && late + PULSE < 1000 * p.T
    requires i < |PulseTimes(p, n, es)|
    ensures 0 <= PulseTimes(p, n, es)[i] - (n.deadline.value + i * (1000 * p.T)) <= late
    decreases |es|
  {
    hide Step, Eligible;
    var e, m := es[0], Step(p, n, es[0]);
    assert !Relays(p, n, e);
    StepArms(p, n, e);
    if e.Timer? {
      var k := TimerKeepsBeat(p, n, e.now, e.free);
      OnePeriod(1000 * p.T, k, n.deadline.value, e.now + PULSE, m.deadline.value);
      if i > 0 {
        NoDrift(p, m, es[1..], late, i - 1);
        assert i * (1000 * p.T) == (i - 1) * (1000 * p.T) + 1000 * p.T;
      }
    } else {
      assert PulseTimes(p, n, es) == PulseTimes(p, m, es[1..]);
      NoDrift(p, m, es[1..], late, i);
    }
  }

  lemma OnePeriod(period: nat, k: nat, was: nat, sent: nat, next: nat)
    requires k > 0 && Apart(next, was, period, k) && sent < was + period && next <= sent + period
    ensures next == was + period
  {
    if k > 1 { MulOrder(2, k, period); }
  }

  /** Nor does any event, however long the run, find the last pulse longer ago than that. */
  lemma {:induction false} NoLongSilence(p: Params, n: Node, es: seq<Event>, prev: nat, late: nat)
    requires ValidParams(p) && Legal(p, n, es) && Prompt(p, n, es, late) && es != []
    requires n.deadline.Some? && n.deadline.value <= prev + Gap(p)
    ensures var ts := [prev] + PulseTimes(p, n, es); es[|es| - 1].now <= ts[|ts| - 1] + Gap(p) + late
    decreases |es|
  {
    hide Gap, Step, Enabled, Pulses;
    var e, n' := es[0], Step(p, n, es[0]);
    StepArms(p, n, e);
    if |es| > 1 {
      NoLongSilence(p, n', es[1..], if Pulses(p, n, e) then e.now else prev, late);
    } else {
      assert PulseTimes(p, n', es[1..]) == [];
    }
  }

  lemma PrependGap(first: nat, ts: seq<nat>, gap: nat)
    requires ts != []
    ensures GapsWithin([first] + ts, gap) <==> ts[0] - first <= gap && GapsWithin(ts, gap)
  {
    var all := [first] + ts;
    if GapsWithin(all, gap) {
      assert all[0 + 1] - all[0] <= gap;
      forall i | 0 <= i < |ts| - 1 ensures ts[i + 1] - ts[i] <= gap {
        assert all[i + 1 + 1] - all[i + 1] <= gap;
      }
    }
  }

  // ---------- When the meant bound holds ----------

  /** A prompt run from `n` whose pulses come at `ts`. */
  ghost predicate PromptRun(p: Params, n: Node, es: seq<Event>, ts: seq<nat>)
    requires ValidParams(p)
  {
    Legal(p, n, es) && Prompt(p, n, es, 0) && PulseTimes(p, n, es) == ts
  }

  lemma PulseFirst(p: Params, n: Node, e: Event, es: seq<Event>, ts: seq<nat>)
    requires ValidParams(p) && Enabled(n, e) && Pulses(p, n, e)
    requires n.deadline.Some? && e.now <= n.deadline.value
    requires PromptRun(p, Step(p, n, e), es, ts)
    ensures PromptRun(p, n, [e] + es, [e.now] + ts)
  {
    assert ([e] + es)[1..] == es;
  }

  /** A draw one microsecond larger than the period wraps, and the next pulse is far too late. */
  lemma WrappedTimer(p: Params, n: Node, now: nat, rng: nat, backoff: nat)
    requires ValidParams(p) && rng < 2 * p.Delta && backoff < 2 * p.Delta
    requires (if Lengthens(p, n.last, n.last2nd) then backoff - rng else backoff + rng) == p.T + 1
    ensures Accept(p, n, now, rng, backoff).deadline == Some(now + 1000 * backoff + U32)
    ensures now + 1000 * backoff + U32 > now + MaxGap(p)
  {
    assert NextTimer(p, Lengthens(p, n.last, n.last2nd), rng, backoff) == U32 - 1;
    assert (1000 * (U32 - 1)) % U32 == U32 - 1000;
  }

  /** A pulse accepted with such a draw, and the timer after it. */
  lemma LatePulse(p: Params, n: Node, now: nat, rng: nat, backoff: nat) returns (es: seq<Event>, at: nat)
    requires ValidParams(p) && rng < 2 * p.Delta && backoff < 2 * p.Delta
    requires (if Lengthens(p, n.last, n.last2nd) then backoff - rng else backoff + rng) == p.T + 1
    requires Eligible(p, now - n.last) && n.clock <= now && n.deadline.Some? && now <= n.deadline.value
    ensures at - now > MaxGap(p) && PromptRun(p, n, es, [now] + [at])
  {
    hide *;
    IrqThatWraps(p, n, now, rng, backoff);
    var e := Irq(now, rng, backoff, 0);
    at := now + 1000 * backoff + U32;
    TimerOnly(p, Step(p, n, e), at);
    PulseFirst(p, n, e, [Timer(at, 0)], [at]);
    es := [e] + [Timer(at, 0)];
  }

  lemma TooFarApart(a: nat, b: nat, gap: nat)
    requires b - a > gap
    ensures !GapsWithin([a] + [b], gap)
  {
    var ts := [a] + [b];
    assert ts[0 + 1] - ts[0] > gap;
  }

  lemma IrqThatWraps(p: Params, n: Node, now: nat, rng: nat, backoff: nat)
    requires ValidParams(p) && rng < 2 * p.Delta && backoff < 2 * p.Delta
    requires (if Lengthens(p, n.last, n.last2nd) then backoff - rng else backoff + rng) == p.T + 1
    requires Eligible(p, now - n.last) && n.clock <= now
    ensures var e, at := Irq(now, rng, backoff, 0), now + 1000 * backoff + U32;
            && Enabled(n, e) && Pulses(p, n, e) && e.now == now
            && Step(p, n, e).deadline == Some(at) && Step(p, n, e).clock <= at && at - now > MaxGap(p)
  {
    DrawnAccept(p, n, now, rng, backoff);
    WrappedTimer(p, Sample(n, 0).(clock := now), now, rng, backoff);
    hide Step, Lengthens, Registers;
  }

  lemma TimerOnly(p: Params, n: Node, at: nat)
    requires ValidParams(p) && n.deadline == Some(at) && n.clock <= at
    ensures PromptRun(p, n, [Timer(at, 0)], [at])
  {
    NoMoreEvents(p, Step(p, n, Timer(at, 0)));
    PulseFirst(p, n, Timer(at, 0), [], []);
    assert [Timer(at, 0)] + [] == [Timer(at, 0)] && [at] + [] == [at];
  }

  lemma NoMoreEvents(p: Params, n: Node)
    requires ValidParams(p)
    ensures PromptRun(p, n, [], [])
  {
  }

  lemma DrawnAccept(p: Params, n: Node, now: nat, rng: nat, backoff: nat)
    requires ValidParams(p) && rng < 2 * p.Delta && backoff < 2 * p.Delta
    requires Eligible(p, now - n.last) && n.clock <= now
    ensures Step(p, n, Irq(now, rng, backoff, 0)) == Accept(p, Sample(n, 0).(clock := now), now, rng, backoff)
  {
    SmallDraw(p, rng);
    SmallDraw(p, backoff);
    hide Draw, Registers, Accept, Eligible;
  }

  lemma SmallDraw(p: Params, raw: nat)
    requires p.Delta > 0 && raw < 2 * p.Delta
    ensures Draw(p, raw) == raw
  {
    DivModUnique(raw, p.Delta + p.Delta, 0, raw);
  }

  /** An accept whose draws are zero: the next pulse is due one period after it. */
  lemma PlainAccept(p: Params, n: Node, now: nat)
    requires ValidParams(p) && Eligible(p, now - n.last) && n.clock <= now
    ensures var m := Step(p, n, Irq(now, 0, 0, 0));
            && m.last == now && m.last2nd == n.last && m.clock == now + PULSE
            && m.deadline == Some(now + PULSE + 1000 * p.T)
  {
    hide Step, Draw, NextTimer, Lengthens, Registers, Eligible;
    DrawnAccept(p, n, now, 0, 0);
    ZeroDraws(p, Lengthens(p, n.last, n.last2nd));
  }

  lemma ZeroDraws(p: Params, lengthens: bool)
    requires ValidParams(p)
    ensures NextTimer(p, lengthens, 0, 0) == p.T
  {
  }

  /** Without `Timely`, a prompt run from every start-up leaves a gap beyond the meant bound. */
  lemma UntimelyRun(p: Params, start: nat, counter: nat) returns (es: seq<Event>, ts: seq<nat>)
    requires ValidParams(p) && !Timely(p)
    ensures PromptRun(p, Boot(p, start, counter), es, ts)
    ensures !GapsWithin([start] + ts, MaxGap(p))
  {
    var n0, a1 := Boot(p, start, counter), start + 500 * p.T;
    if p.T < 2 * p.Delta - 1 {
      var at;
      es, at := LatePulse(p, n0, a1, 0, p.T + 1);
      ts := [a1] + [at];
      TooFarApart(a1, at, MaxGap(p));
    } else {
      var e1, a2 := Irq(a1, 0, 0, 0), a1 + 1000 * p.T + 1;
      var e2 := Irq(a2, 0, 0, 0);
      PlainAccept(p, n0, a1);
      var n1 := Step(p, n0, e1);
      PlainAccept(p, n1, a2);
      var n2 := Step(p, n1, e2);
      assert !Lengthens(p, n2.last, n2.last2nd);
      var a3 := a2 + if 500 * p.T < PULSE then PULSE else 500 * p.T;
      var es3, at := LatePulse(p, n2, a3, p.T + 2 - 2 * p.Delta, 2 * p.Delta - 1);
      var ts3 := [a3] + [at];
      TooFarApart(a3, at, MaxGap(p));
      PulseFirst(p, n1, e2, es3, ts3);
      PrependGap(a2, ts3, MaxGap(p));
      PulseFirst(p, n0, e1, [e2] + es3, [a2] + ts3);
      PrependGap(a1, [a2] + ts3, MaxGap(p));
      es, ts := [e1] + ([e2] + es3), [a1] + ([a2] + ts3);
    }
    PrependGap(start, ts, MaxGap(p));
  }

  /** If `es` is a run from module load with no timer later than `late`, its pulses, counted from
      the load, are at most the meant bound plus `late` apart. */
  ghost predicate PulsesWithin(p: Params, start: nat, counter: nat, es: seq<Event>, late: nat)
    requires ValidParams(p)
  {
    var n := Boot(p, start, counter);
    Legal(p, n, es) && Prompt(p, n, es, late) ==> GapsWithin([start] + PulseTimes(p, n, es), MaxGap(p) + late)
  }

  /** From module load on, consecutive pulses are at most a period, the largest random offset and
      the pulse width apart, plus the timer's lateness, in every run if and only if the
      parameters are timely. */
  lemma PulsesTimelyIff(p: Params, start: nat, counter: nat)
    requires ValidParams(p)
    ensures Timely(p) <==>
              forall es: seq<Event>, late: nat :: PulsesWithin(p, start, counter, es, late)
  {
    var n := Boot(p, start, counter);
    if Timely(p) {
      forall es: seq<Event>, late: nat ensures PulsesWithin(p, start, counter, es, late) {
        if Legal(p, n, es) && Prompt(p, n, es, late) {
          KeepsPulsing(p, n, es, start, late);
        }
      }
    } else {
      var es, ts := UntimelyRun(p, start, counter);
      assert Prompt(p, Boot(p, start, counter), es, 0);
      assert !PulsesWithin(p, start, counter, es, 0);
    }
  }

  // ---------- Registers and pacing ----------

  /** `wait` in the sender: microseconds to sleep for a number of free buffers. */
  function SenderWait(free: int): int { 100 * (80 - free) }

  /** After every event the registers hold the window for the buffer counter, which is the number
      of free buffers the last event found, and the quiet bit is clear. */
  lemma {:induction false} RegistersFollowBuffers(p: Params, n: Node, es: seq<Event>)
    requires ValidParams(p) && Legal(p, n, es) && es != [] && !n.quiet
    ensures var m := After(p, n, es);
            && !m.quiet
            && m.bufCounter == es[|es| - 1].free
            && |m.regs| == 8 && (forall i :: 0 <= i < 8 ==> m.regs[i] == 1025 * Window(m.bufCounter))
    decreases |es|
  {
    var n' := Step(p, n, es[0]);
    var _ := WindowIsWellFormed(es[0].free, es[0].free);
    assert n'.regs == Registers(Window(es[0].free));
    if |es| > 1 {
      RegistersFollowBuffers(p, n', es[1..]);
    }
  }

  const POOL: nat := 80

  /** What changes the free list: transmit takes a buffer, completion gives one back, and the
      handlers count the free ones. */
  datatype PoolStep = TakeBuffer | GiveBack | Handle(event: Event)

  ghost predicate LegalPool(p: Params, n: Node, free: nat, used: nat, ss: seq<PoolStep>)
    requires ValidParams(p)
    decreases |ss|
  {
    ss != [] ==>
      match ss[0]
      case TakeBuffer => free > 0 && LegalPool(p, n, free - 1, used + 1, ss[1..])
      case GiveBack => used > 0 && LegalPool(p, n, free + 1, used - 1, ss[1..])
      case Handle(e) => Enabled(n, e) && e.free == free && LegalPool(p, Step(p, n, e), free, used, ss[1..])
  }

  ghost function Handled(ss: seq<PoolStep>): seq<Event> {
    if ss == [] then [] else (if ss[0].Handle? then [ss[0].event] else []) + Handled(ss[1..])
  }

  lemma {:induction false} PoolRunIsRun(p: Params, n: Node, free: nat, used: nat, ss: seq<PoolStep>)
    requires ValidParams(p) && LegalPool(p, n, free, used, ss)
    ensures Legal(p, n, Handled(ss))
    ensures forall i :: 0 <= i < |Handled(ss)| ==> Handled(ss)[i].free <= free + used
    decreases |ss|
  {
    if ss != [] {
      var rest := Handled(ss[1..]);
      match ss[0] {
        case TakeBuffer =>
          PoolRunIsRun(p, n, free - 1, used + 1, ss[1..]);
          assert Handled(ss) == rest;
        case GiveBack =>
          PoolRunIsRun(p, n, free + 1, used - 1, ss[1..]);
          assert Handled(ss) == rest;
        case Handle(e) =>
          PoolRunIsRun(p, Step(p, n, e), free, used, ss[1..]);
          assert Handled(ss) == [e] + rest && Handled(ss)[1..] == rest;
      }
    }
  }

  /** Buffers taken less buffers given back. */
  ghost function Taken(ss: seq<PoolStep>): int {
    if ss == [] then 0 else
      (match ss[0] case TakeBuffer => 1 case GiveBack => -1 case Handle(_) => 0) + Taken(ss[1..])
  }

  ghost predicate LastHandle(ss: seq<PoolStep>, i: nat) {
    i < |ss| && ss[i].Handle? && forall j :: i < j < |ss| ==> !ss[j].Handle?
  }

  lemma {:induction false} LastSampleCounts(p: Params, n: Node, free: nat, used: nat, ss: seq<PoolStep>) returns (i: nat)
    requires ValidParams(p) && LegalPool(p, n, free, used, ss) && Handled(ss) != []
    ensures LastHandle(ss, i) && Handled(ss)[|Handled(ss)| - 1].free == free - Taken(ss[..i])
    decreases |ss|
  {
    hide LastHandle, Taken, Step, Enabled;
    if Handled(ss[1..]) == [] {
      i := 0;
      OnlyHandle(ss);
    } else {
      match ss[0] {
        case TakeBuffer => i := LastSampleCounts(p, n, free - 1, used + 1, ss[1..]);
        case GiveBack => i := LastSampleCounts(p, n, free + 1, used - 1, ss[1..]);
        case Handle(e) => i := LastSampleCounts(p, Step(p, n, e), free, used, ss[1..]);
      }
      HandleLater(ss, i);
      i := i + 1;
    }
  }

  lemma OnlyHandle(ss: seq<PoolStep>)
    requires Handled(ss) != [] && Handled(ss[1..]) == []
    ensures ss[0].Handle? && LastHandle(ss, 0) && Taken(ss[..0]) == 0 && Handled(ss) == [ss[0].event]
  {
    NoneHandled(ss[1..]);
    assert forall j :: 0 < j < |ss| ==> ss[j] == ss[1..][j - 1];
  }

  lemma HandleLater(ss: seq<PoolStep>, i: nat)
    requires ss != [] && LastHandle(ss[1..], i) && Handled(ss[1..]) != []
    ensures LastHandle(ss, i + 1)
    ensures Taken(ss[..i + 1])
            == (match ss[0] case TakeBuffer => 1 case GiveBack => -1 case Handle(_) => 0) + Taken(ss[1..][..i])
    ensures Handled(ss)[|Handled(ss)| - 1] == Handled(ss[1..])[|Handled(ss[1..])| - 1]
  {
    assert ss[..i + 1][1..] == ss[1..][..i];
    assert forall j :: 0 < j < |ss| ==> ss[j] == ss[1..][j - 1];
  }

  lemma {:induction false} NoneHandled(ss: seq<PoolStep>)
    requires Handled(ss) == []
    ensures forall j :: 0 <= j < |ss| ==> !ss[j].Handle?
  {
    if ss != [] { NoneHandled(ss[1..]); }
  }

  /** With the driver's pool of 80 buffers, taken and given back in any legal order, the sender is
      told to wait 100 microseconds for each buffer that was in use when the last handler ran:
      never less than nothing or more than 8000. */
  lemma WaitInRange(p: Params, n: Node, ss: seq<PoolStep>) returns (i: nat)
    requires ValidParams(p) && LegalPool(p, n, POOL, 0, ss) && Handled(ss) != []
    ensures LastHandle(ss, i)
    ensures Legal(p, n, Handled(ss)) && SenderWait(After(p, n, Handled(ss)).bufCounter) == 100 * Taken(ss[..i])
    ensures 0 <= 100 * Taken(ss[..i]) <= 8000
  {
    PoolRunIsRun(p, n, POOL, 0, ss);
    CounterIsLastSample(p, n, Handled(ss));
    i := LastSampleCounts(p, n, POOL, 0, ss);
  }

  lemma {:induction false} CounterIsLastSample(p: Params, n: Node, es: seq<Event>)
    requires ValidParams(p) && Legal(p, n, es) && es != []
    ensures After(p, n, es).bufCounter == es[|es| - 1].free
    decreases |es|
  {
    if |es| > 1 { CounterIsLastSample(p, Step(p, n, es[0]), es[1..]); }
  }
}
