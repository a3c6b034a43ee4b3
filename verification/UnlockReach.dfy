/** How far a cascade reaches: the least closed set of eligible nodes, from the timer of one node,
from a pulse from outside, and in a network that is already running. */
module UnlockReach {
  import opened Unlock
  import opened UnlockFlood
  import Runs = UnlockRuns

  // ---------- How far it reaches ----------

  /** A set that holds the hearing nodes among the first targets and the neighbours of its own
      members. */
  ghost predicate Closed(wires: Wiring, hear: set<nat>, first: set<nat>, r: set<nat>) {
    && (forall v :: v in first && v in hear ==> v in r)
    && (forall u, i :: u in wires && u in r && 0 <= i < |wires[u]| && wires[u][i] in hear ==> wires[u][i] in r)
  }

  ghost predicate LeastClosed(wires: Wiring, hear: set<nat>, first: set<nat>, r: set<nat>) {
    Closed(wires, hear, first, r) && forall other :: Closed(wires, hear, first, other) ==> r <= other
  }

  ghost function Targets(ps: seq<Pulse>): set<nat> {
    set q | q in ps :: q.target
  }

  /** Everything relayed, and every target that may hear a pending pulse, lies in `r`. */
  ghost predicate Inside(may: set<nat>, net: Net, r: set<nat>) {
    Who(net.log) <= r && Targets(net.pending) * may <= r
  }

  lemma DeliverStaysInside(p: Params, wires: Wiring, on: set<nat>, nodes0: map<nat, Node>, first: set<nat>, net: Net, d: Delivery, r: set<nat>)
    requires ValidParams(p) && EchoSafe(p) && WellFormed(wires, net) && d.index < |net.pending|
    requires Cascade(p, on, net) && History(p, on, nodes0, net)
    requires Closed(wires, May(p, on, nodes0), first, r) && Inside(May(p, on, nodes0), net, r)
    ensures Inside(May(p, on, nodes0), Deliver(p, wires, net, d), r)
  {
    hide Deliver, Cascade, EchoSafe, Accepted, HandledAt, History, Who, May, Must, Narrow, Remove, Send;
    var q, net', may := net.pending[d.index], Deliver(p, wires, net, d), May(p, on, nodes0);
    DeliverKeepsFlooding(p, wires, on, nodes0, net, d);
    DeliverEffect(p, wires, net, d);
    assert q.target in Targets(net.pending);
    if Accepted(p, net, q) {
      WhoAppend(net.log, Relay(q.target, HandledAt(net, q)));
      assert q.target in r;
    }
    forall v | v in Targets(net'.pending) && v in may ensures v in r {
      var i :| 0 <= i < |net'.pending| && net'.pending[i].target == v;
      PendingAfter(p, wires, net, d, i);
      if net'.pending[i] !in net.pending {
        var k :| 0 <= k < |wires[q.target]| && wires[q.target][k] == v;
      } else {
        assert v in Targets(net.pending);
      }
    }
  }

  /** Every node that must hear the first targets' or a relaying node's pulse has relayed or has a
      pulse under way. */
  ghost predicate Covered(wires: Wiring, must: set<nat>, first: set<nat>, net: Net) {
    var reached := Who(net.log) + Targets(net.pending);
    && (forall v :: v in first && v in must ==> v in reached)
    && (forall u, i :: u in wires && u in Who(net.log) && 0 <= i < |wires[u]| && wires[u][i] in must ==> wires[u][i] in reached)
  }

  lemma TargetsRemove(ps: seq<Pulse>, index: nat, more: seq<Pulse>)
    requires index < |ps|
    ensures Targets(ps) <= Targets(Remove(ps, index) + more) + {ps[index].target}
    ensures Targets(more) <= Targets(Remove(ps, index) + more)
  {
    var after := Remove(ps, index) + more;
    forall v | v in Targets(ps) ensures v in Targets(after) + {ps[index].target} {
      var k :| 0 <= k < |ps| && ps[k].target == v;
      if k != index {
        assert after[if k < index then k else k - 1] == ps[k];
      }
    }
    forall q | q in more ensures q in after {}
  }

  lemma DeliverKeepsCovered(p: Params, wires: Wiring, on: set<nat>, nodes0: map<nat, Node>, first: set<nat>, net: Net, d: Delivery)
    requires ValidParams(p) && EchoSafe(p) && WellFormed(wires, net) && d.index < |net.pending|
    requires Cascade(p, on, net) && History(p, on, nodes0, net)
    requires Covered(wires, Must(p, on, nodes0), first, net)
    ensures Covered(wires, Must(p, on, nodes0), first, Deliver(p, wires, net, d))
  {
    hide Deliver, Cascade, EchoSafe, Accepted, HandledAt, History, Who, Targets, May, Must, Narrow, Remove, Send;
    var q, net' := net.pending[d.index], Deliver(p, wires, net, d);
    var v, x := q.target, HandledAt(net, q);
    DeliverKeepsFlooding(p, wires, on, nodes0, net, d);
    DeliverEffect(p, wires, net, d);
    if Accepted(p, net, q) {
      WhoAppend(net.log, Relay(v, x));
      TargetsRemove(net.pending, d.index, Send(wires[v], x));
      TargetsOfSend(wires[v], x);
    } else {
      TargetsRemove(net.pending, d.index, []);
      assert Remove(net.pending, d.index) + [] == Remove(net.pending, d.index);
    }
  }

  lemma TargetsOfSend(targets: seq<nat>, at: nat)
    ensures forall v :: v in Targets(Send(targets, at)) <==> v in targets
  {
    var ps := Send(targets, at);
    forall v | v in targets ensures v in Targets(ps) {
      var i :| 0 <= i < |targets| && targets[i] == v;
      assert ps[i] in ps;
    }
  }

  lemma {:induction false} RunStaysInside(p: Params, wires: Wiring, on: set<nat>, nodes0: map<nat, Node>, first: set<nat>, net: Net, ds: seq<Delivery>, r: set<nat>)
    requires ValidParams(p) && EchoSafe(p) && WellFormed(wires, net) && Legal(p, wires, net, ds)
    requires Cascade(p, on, net) && History(p, on, nodes0, net)
    requires Closed(wires, May(p, on, nodes0), first, r) && Inside(May(p, on, nodes0), net, r)
    ensures Inside(May(p, on, nodes0), After(p, wires, net, ds), r)
    decreases |ds|
  {
    if ds != [] {
      hide Deliver, Cascade, EchoSafe, History, May, Closed, Inside;
      DeliverKeepsHistory(p, wires, on, nodes0, net, ds[0]);
      DeliverStaysInside(p, wires, on, nodes0, first, net, ds[0], r);
      RunStaysInside(p, wires, on, nodes0, first, Deliver(p, wires, net, ds[0]), ds[1..], r);
    }
  }

  lemma {:induction false} RunKeepsCovered(p: Params, wires: Wiring, on: set<nat>, nodes0: map<nat, Node>, first: set<nat>, net: Net, ds: seq<Delivery>)
    requires ValidParams(p) && EchoSafe(p) && WellFormed(wires, net) && Legal(p, wires, net, ds)
    requires Cascade(p, on, net) && History(p, on, nodes0, net)
    requires Covered(wires, Must(p, on, nodes0), first, net)
    ensures Covered(wires, Must(p, on, nodes0), first, After(p, wires, net, ds))
    decreases |ds|
  {
    if ds != [] {
      hide Deliver, Cascade, EchoSafe, History, Must, Covered;
      DeliverKeepsHistory(p, wires, on, nodes0, net, ds[0]);
      DeliverKeepsCovered(p, wires, on, nodes0, first, net, ds[0]);
      RunKeepsCovered(p, wires, on, nodes0, first, Deliver(p, wires, net, ds[0]), ds[1..]);
    }
  }

  /** When no pulse is left, the nodes that relayed hold all that must hear them, and lie in every
      set closed under the nodes that may hear; so they are exactly the least closed set if every
      node that may hear must. The order of delivery makes no difference to this. Exactly the
      relaying nodes have recorded a pulse, their last one. */
  lemma CascadeReachesLeastSet(p: Params, wires: Wiring, on: set<nat>, net: Net, ds: seq<Delivery>)
    requires ValidParams(p) && EchoSafe(p) && WellFormed(wires, net) && Legal(p, wires, net, ds)
    requires Cascade(p, on, net) && net.log == [] && After(p, wires, net, ds).pending == []
    ensures var end, first := After(p, wires, net, ds), Targets(net.pending);
            var may, must, relayed := May(p, on, net.nodes), Must(p, on, net.nodes), Who(end.log);
            && Closed(wires, must, first, relayed)
            && (forall r :: Closed(wires, may, first, r) ==> relayed <= r)
            && (may == must ==> LeastClosed(wires, may, first, relayed))
            && end.nodes.Keys == net.nodes.Keys
            && (forall v :: v in net.nodes && v !in relayed ==> end.nodes[v].last == net.nodes[v].last)
            && (forall v :: v in net.nodes && v in relayed ==>
                  end.nodes[v].last in on && Relay(v, end.nodes[v].last) in end.log)
  {
    hide Cascade, History, Legal, After, EchoSafe, May, Must, Deliver;
    var first := Targets(net.pending);
    StartsClean(p, on, net);
    PulsesConserved(p, wires, on, net.nodes, net, ds);
    RunKeepsCovered(p, wires, on, net.nodes, first, net, ds);
    var end := After(p, wires, net, ds);
    EndOfHistory(p, on, net.nodes, end);
    assert Targets(end.pending) == {};
    assert Who(end.log) + Targets(end.pending) == Who(end.log);
    forall r | Closed(wires, May(p, on, net.nodes), first, r) ensures Who(end.log) <= r {
      RunStaysInside(p, wires, on, net.nodes, first, net, ds, r);
    }
  }

  lemma EndOfHistory(p: Params, on: set<nat>, nodes0: map<nat, Node>, end: Net)
    requires History(p, on, nodes0, end)
    ensures end.nodes.Keys == nodes0.Keys
    ensures forall v :: v in nodes0 && v !in Who(end.log) ==> end.nodes[v].last == nodes0[v].last
    ensures forall v :: v in nodes0 && v in Who(end.log) ==>
              end.nodes[v].last in on && Relay(v, end.nodes[v].last) in end.log
  {
    hide Who, Spread;
    forall v | v in nodes0 && v in Who(end.log)
      ensures end.nodes[v].last in on && Relay(v, end.nodes[v].last) in end.log
    {
      assert Recorded(on, end.nodes, Relay(v, end.nodes[v].last));
    }
  }

  // ---------- Starts ----------

  /** The nodes eligible at one time. */
  ghost function Hearing(p: Params, nodes: map<nat, Node>, t: nat): set<nat> {
    set v | v in nodes && Eligible(p, t - nodes[v].last)
  }

  /** A pulse that reaches idle nodes from outside. */
  lemma OutsideIsCascade(p: Params, nodes: map<nat, Node>, targets: seq<nat>, t: nat)
    requires (forall v :: v in nodes ==> nodes[v].clock <= t) && (forall v :: v in targets ==> v in nodes)
    ensures Cascade(p, {t}, Outside(nodes, targets, t)) && Narrow(p, {t})
    ensures May(p, {t}, nodes) == Must(p, {t}, nodes) == Hearing(p, nodes, t)
  {
    forall v | v in nodes ensures MayHear(p, {t}, nodes[v]) <==> Eligible(p, t - nodes[v].last) {
      assert t in {t};
    }
  }

  ghost predicate OthersIdle(nodes: map<nat, Node>, s: nat, t: nat) {
    forall v :: v in nodes && v != s ==> nodes[v].clock <= t
  }

  /** No node but the source becomes eligible, or stops being it, while the source drives its
      pulse. */
  ghost predicate Steady(p: Params, nodes: map<nat, Node>, s: nat, t: nat) {
    forall v :: v in nodes && v != s ==> (Eligible(p, t - nodes[v].last) <==> Eligible(p, t + PULSE - nodes[v].last))
  }

  lemma NarrowPulse(p: Params, on: set<nat>, t: nat)
    requires ValidParams(p) && EchoSafe(p) && forall x :: x in on ==> t <= x <= t + PULSE
    ensures Narrow(p, on)
  {
    EchoTooEarly(p, 0);
  }

  /** A node whose timer fires drives its own pulse for a microsecond, so it can hear the echo at
      the end of it. */
  lemma TimerStartIsCascade(p: Params, wires: Wiring, nodes0: map<nat, Node>, s: nat, t: nat, free: nat)
    requires ValidParams(p) && EchoSafe(p) && Wired(wires, nodes0) && s in nodes0
    requires Enabled(nodes0[s], Timer(t, free)) && OthersIdle(nodes0, s, t)
    ensures var net := TimerStart(p, wires, nodes0, s, t, free);
            Cascade(p, {t, t + PULSE}, net) && Narrow(p, {t, t + PULSE}) && net.log == []
  {
    hide Eligible, Registers, Forward;
    NarrowPulse(p, {t, t + PULSE}, t);
  }

  lemma TimerStartHears(p: Params, wires: Wiring, nodes0: map<nat, Node>, s: nat, t: nat, free: nat)
    requires ValidParams(p) && Wired(wires, nodes0) && s in nodes0
    requires Enabled(nodes0[s], Timer(t, free)) && OthersIdle(nodes0, s, t) && Steady(p, nodes0, s, t)
    ensures var net, on := TimerStart(p, wires, nodes0, s, t, free), {t, t + PULSE};
            && May(p, on, net.nodes) == Must(p, on, net.nodes) == Hearing(p, nodes0, t + PULSE)
            && (forall v :: v in nodes0 ==> net.nodes[v].last == nodes0[v].last)
  {
    hide Eligible, Registers, Forward, MayHear, MustHear;
    var net, on := TimerStart(p, wires, nodes0, s, t, free), {t, t + PULSE};
    forall v | v in nodes0
      ensures MayHear(p, on, net.nodes[v]) <==> Eligible(p, t + PULSE - nodes0[v].last)
      ensures MustHear(p, on, net.nodes[v]) <==> Eligible(p, t + PULSE - nodes0[v].last)
    {
      if v == s { HearsAfterPulse(p, net.nodes[v], t); } else { HearsThroughout(p, net.nodes[v], t); }
    }
  }

  lemma HearsThroughout(p: Params, n: Node, t: nat)
    requires n.clock <= t && (Eligible(p, t - n.last) <==> Eligible(p, t + PULSE - n.last))
    ensures MayHear(p, {t, t + PULSE}, n) <==> Eligible(p, t + PULSE - n.last)
    ensures MustHear(p, {t, t + PULSE}, n) <==> Eligible(p, t + PULSE - n.last)
  {
    hide Eligible;
    var on := {t, t + PULSE};
    assert t in on && t + PULSE in on;
  }

  lemma HearsAfterPulse(p: Params, n: Node, t: nat)
    requires n.clock == t + PULSE
    ensures MayHear(p, {t, t + PULSE}, n) <==> Eligible(p, t + PULSE - n.last)
    ensures MustHear(p, {t, t + PULSE}, n) <==> Eligible(p, t + PULSE - n.last)
  {
    hide Eligible;
    var on := {t, t + PULSE};
    assert t in on && t + PULSE in on;
  }

  // ---------- The flood ----------

  function Neighbours(wires: Wiring, s: nat): set<nat>
    requires s in wires
  {
    set w | w in wires[s]
  }

  /** A cascade that starts with the timer of one node: each node, the source too, relays at most
      once, and the deliveries are bounded by the number of pulses sent. */
  lemma FloodTerminates(p: Params, wires: Wiring, nodes0: map<nat, Node>, s: nat, t: nat, free: nat, ds: seq<Delivery>, most: nat)
    requires ValidParams(p) && EchoSafe(p) && Wired(wires, nodes0) && s in nodes0
    requires Enabled(nodes0[s], Timer(t, free)) && OthersIdle(nodes0, s, t)
    requires Legal(p, wires, TimerStart(p, wires, nodes0, s, t, free), ds)
    requires forall v :: v in wires ==> |wires[v]| <= most
    ensures var end := After(p, wires, TimerStart(p, wires, nodes0, s, t, free), ds);
            && Once(end.log)
            && (forall r :: r in end.log ==> r.node in wires && t <= r.at <= t + PULSE)
            && |ds| + |end.pending| == |wires[s]| + Lines(wires, end.log)
            && |ds| <= |wires[s]| + most * |nodes0|
  {
    hide Cascade, Narrow, May, Must, EchoSafe, Once, Spread, Lines, Legal, After;
    TimerStartIsCascade(p, wires, nodes0, s, t, free);
    var net := TimerStart(p, wires, nodes0, s, t, free);
    CascadeTerminates(p, wires, {t, t + PULSE}, net, ds, most);
    assert |net.nodes.Keys| == |nodes0.Keys|;
  }

  lemma FloodCompletes(p: Params, wires: Wiring, nodes0: map<nat, Node>, s: nat, t: nat, free: nat, ds: seq<Delivery>, most: nat)
    returns (full: seq<Delivery>)
    requires ValidParams(p) && EchoSafe(p) && Wired(wires, nodes0) && s in nodes0
    requires Enabled(nodes0[s], Timer(t, free)) && OthersIdle(nodes0, s, t)
    requires Legal(p, wires, TimerStart(p, wires, nodes0, s, t, free), ds)
    requires forall v :: v in wires ==> |wires[v]| <= most
    ensures ds <= full && Legal(p, wires, TimerStart(p, wires, nodes0, s, t, free), full)
    ensures After(p, wires, TimerStart(p, wires, nodes0, s, t, free), full).pending == []
  {
    hide Cascade, Narrow, May, Must, EchoSafe, Legal, After;
    TimerStartIsCascade(p, wires, nodes0, s, t, free);
    full := CascadeCompletes(p, wires, {t, t + PULSE}, TimerStart(p, wires, nodes0, s, t, free), ds, most);
  }

  /** When no pulse of it is left, the nodes that relayed are exactly the least set that holds the
      eligible neighbours of the source and of its own members, whatever the order of delivery;
      the source is one of them if it hears an echo at the end of its pulse. */
  lemma FloodReachesLeastSet(p: Params, wires: Wiring, nodes0: map<nat, Node>, s: nat, t: nat, free: nat, ds: seq<Delivery>)
    requires ValidParams(p) && EchoSafe(p) && Wired(wires, nodes0) && s in nodes0
    requires Enabled(nodes0[s], Timer(t, free)) && OthersIdle(nodes0, s, t) && Steady(p, nodes0, s, t)
    requires Legal(p, wires, TimerStart(p, wires, nodes0, s, t, free), ds)
    requires After(p, wires, TimerStart(p, wires, nodes0, s, t, free), ds).pending == []
    ensures var end := After(p, wires, TimerStart(p, wires, nodes0, s, t, free), ds);
            var relayed := Who(end.log);
            && LeastClosed(wires, Hearing(p, nodes0, t + PULSE), Neighbours(wires, s), relayed)
            && end.nodes.Keys == nodes0.Keys
            && (forall v :: v in nodes0 && v !in relayed ==> end.nodes[v].last == nodes0[v].last)
            && (forall v :: v in nodes0 && v in relayed ==> t <= end.nodes[v].last <= t + PULSE)
  {
    hide Cascade, Narrow, May, Must, Hearing, EchoSafe, Legal, After, LeastClosed, Closed, Steady, Who, Targets, Step, Enabled;
    var net, on := TimerStart(p, wires, nodes0, s, t, free), {t, t + PULSE};
    TimerStartIsCascade(p, wires, nodes0, s, t, free);
    TimerStartHears(p, wires, nodes0, s, t, free);
    CascadeReachesLeastSet(p, wires, on, net, ds);
    TargetsOfSend(wires[s], t);
    assert Targets(net.pending) == Neighbours(wires, s);
  }

  /** From this start every cascade on the wiring ends at the least closed set. */
  ghost predicate ReachesLeast(p: Params, wires: Wiring, nodes0: map<nat, Node>, s: nat, t: nat, free: nat)
    requires ValidParams(p) && Wired(wires, nodes0) && s in nodes0 && Enabled(nodes0[s], Timer(t, free))
  {
    var net := TimerStart(p, wires, nodes0, s, t, free);
    forall ds :: Legal(p, wires, net, ds) && After(p, wires, net, ds).pending == [] ==>
                   LeastClosed(wires, Hearing(p, nodes0, t + PULSE), Neighbours(wires, s), Who(After(p, wires, net, ds).log))
  }

  /** The condition is exact: on every wiring the cascade ends at the least closed set if and only
      if no node's eligibility changes during the pulse. */
  lemma SteadyIff(p: Params, nodes0: map<nat, Node>, s: nat, t: nat, free: nat)
    requires ValidParams(p) && EchoSafe(p) && s in nodes0
    requires Enabled(nodes0[s], Timer(t, free)) && OthersIdle(nodes0, s, t)
    ensures Steady(p, nodes0, s, t) <==>
              forall wires :: Wired(wires, nodes0) ==> ReachesLeast(p, wires, nodes0, s, t, free)
  {
    if Steady(p, nodes0, s, t) {
      forall wires | Wired(wires, nodes0) ensures ReachesLeast(p, wires, nodes0, s, t, free) {
        var net := TimerStart(p, wires, nodes0, s, t, free);
        forall ds | Legal(p, wires, net, ds) && After(p, wires, net, ds).pending == []
          ensures LeastClosed(wires, Hearing(p, nodes0, t + PULSE), Neighbours(wires, s), Who(After(p, wires, net, ds).log))
        {
          FloodReachesLeastSet(p, wires, nodes0, s, t, free, ds);
        }
      }
    } else {
      var v :| v in nodes0 && v != s
               && !(Eligible(p, t - nodes0[v].last) <==> Eligible(p, t + PULSE - nodes0[v].last));
      var wires: Wiring := map u | u in nodes0 :: if u == s then [v] else [];
      OneLine(p, wires, nodes0, s, v, t, free);
      assert !ReachesLeast(p, wires, nodes0, s, t, free);
    }
  }

  /** A single line to a node whose eligibility changes during the pulse. */
  lemma OneLine(p: Params, wires: Wiring, nodes0: map<nat, Node>, s: nat, v: nat, t: nat, free: nat)
    requires ValidParams(p) && Wired(wires, nodes0) && s in nodes0 && v in nodes0 && v != s
    requires wires[s] == [v] && wires[v] == []
    requires Enabled(nodes0[s], Timer(t, free)) && nodes0[v].clock <= t
    requires !(Eligible(p, t - nodes0[v].last) <==> Eligible(p, t + PULSE - nodes0[v].last))
    ensures !ReachesLeast(p, wires, nodes0, s, t, free)
  {
    hide Eligible, Step, Interrupt, Draw, Enabled;
    var net, d := TimerStart(p, wires, nodes0, s, t, free), Delivery(0, 0, 0, 0);
    var end, hear := Deliver(p, wires, net, d), Hearing(p, nodes0, t + PULSE);
    DeliverEffect(p, wires, net, d);
    assert Accepted(p, net, net.pending[0]) <==> Eligible(p, t - nodes0[v].last);
    OneDelivery(p, wires, net, d);
    assert end.pending == [];
    assert v in Neighbours(wires, s);
    if v in hear {
      assert end.log == [];
      assert v !in Who(end.log);
    } else {
      assert end.log == [Relay(v, t)];
      assert end.log[0] in end.log;
      assert v in Who(end.log);
      assert Closed(wires, hear, Neighbours(wires, s), {});
    }
    assert !LeastClosed(wires, hear, Neighbours(wires, s), Who(end.log));
  }

  // ---------- Snapshots of running networks ----------

  ghost predicate RunUpTo(p: Params, start: nat, counter: nat, es: seq<Event>, t: nat, n: Node)
    requires ValidParams(p)
  {
    && start <= t && Runs.Legal(p, Boot(p, start, counter), es)
    && (forall i :: 0 <= i < |es| ==> es[i].now <= t)
    && Runs.After(p, Boot(p, start, counter), es) == n
  }

  /** Some run from module load, with events up to `t`, leaves the node as it is. */
  ghost predicate Reached(p: Params, n: Node, t: nat)
    requires ValidParams(p)
  {
    exists start, counter, es :: RunUpTo(p, start, counter, es, t, n)
  }

  /** A handler that started by time `t` ends within the pulse width, or leaves the node deaf. */
  predicate EndsSoon(p: Params, n: Node, t: nat) {
    n.clock <= t + PULSE || Deaf(p, n)
  }

  lemma {:induction false} HandlersEndSoon(p: Params, n: Node, es: seq<Event>, t: nat)
    requires ValidParams(p) && EchoSafe(p) && Runs.Legal(p, n, es) && EndsSoon(p, n, t)
    requires forall i :: 0 <= i < |es| ==> es[i].now <= t
    ensures EndsSoon(p, Runs.After(p, n, es), t)
    decreases |es|
  {
    if es != [] {
      StepEndsSoon(p, n, es[0], t);
      HandlersEndSoon(p, Step(p, n, es[0]), es[1..], t);
    }
  }

  lemma StepEndsSoon(p: Params, n: Node, e: Event, t: nat)
    requires ValidParams(p) && EchoSafe(p) && Enabled(n, e) && e.now <= t
    ensures EndsSoon(p, Step(p, n, e), t)
  {
    hide Registers, Forward, Interrupt, Draw, EchoSafe;
    if e.Irq? {
      HandlerEffect(p, n, e.now, Delivery(0, e.rawRng, e.rawBackoff, e.free));
      EchoTooEarly(p, Draw(p, e.rawBackoff));
    }
  }

  /** A network of running nodes, caught at any time with any pulses on its lines, is a cascade on
      narrow instants, so the results on cascades hold for it. No node needs to be idle: pulses
      may be waiting for handlers that are still running. */
  lemma SnapshotIsCascade(p: Params, net: Net, t: nat) returns (on: set<nat>)
    requires ValidParams(p) && EchoSafe(p)
    requires forall v :: v in net.nodes ==> Reached(p, net.nodes[v], t)
    requires forall q :: q in net.pending ==>
               q.target in net.nodes && (q.at == t || q.at < t <= net.nodes[q.target].clock)
    ensures Cascade(p, on, net) && Narrow(p, on)
    ensures t in on && forall x :: x in on ==> t <= x <= t + PULSE
  {
    hide Eligible, EchoSafe, Reached, Done, Before, EndsSoon, Deaf;
    on := {t} + set v | v in net.nodes && t < net.nodes[v].clock <= t + PULSE :: net.nodes[v].clock;
    NarrowPulse(p, on, t);
    forall v | v in net.nodes
      ensures Done(p, on, net.nodes[v]) || Before(on, net.nodes[v])
      ensures t <= net.nodes[v].clock ==> Done(p, on, net.nodes[v])
    {
      ReachedEndsSoon(p, net.nodes[v], t);
      EndsInTime(p, on, net.nodes[v], t);
    }
    forall i | 0 <= i < |net.pending|
      ensures net.pending[i].target in net.nodes && Due(p, on, net.pending[i], net.nodes[net.pending[i].target])
    {
      assert net.pending[i] in net.pending;
    }
  }

  lemma EndsInTime(p: Params, on: set<nat>, n: Node, t: nat)
    requires EndsSoon(p, n, t) && t in on && forall x :: x in on ==> t <= x
    requires t < n.clock <= t + PULSE ==> n.clock in on
    ensures Done(p, on, n) || Before(on, n)
    ensures t <= n.clock ==> Done(p, on, n)
  {
    hide Eligible;
  }

  lemma ReachedEndsSoon(p: Params, n: Node, t: nat)
    requires ValidParams(p) && EchoSafe(p) && Reached(p, n, t)
    ensures EndsSoon(p, n, t)
  {
    var start, counter, es :| RunUpTo(p, start, counter, es, t, n);
    HandlersEndSoon(p, Boot(p, start, counter), es, t);
  }
}
