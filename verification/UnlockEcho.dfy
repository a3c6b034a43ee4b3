/** When cascades end: for every network exactly under echo safety, and otherwise with starts, reached
by steps of the protocol, from which a pulse bounces for ever. */
module UnlockEcho {
  import opened Unlock
  import opened UnlockFlood
  import opened UnlockReach
  import Runs = UnlockRuns

  // ---------- Every network ----------

  /** Some run of the network from here makes more than `k` relays. */
  ghost predicate Exceeds(p: Params, wires: Wiring, net: Net, k: nat)
    requires ValidParams(p) && WellFormed(wires, net)
  {
    exists ds :: Legal(p, wires, net, ds) && |After(p, wires, net, ds).log| > k
  }

  ghost predicate Endless(p: Params, wires: Wiring, net: Net)
    requires ValidParams(p) && WellFormed(wires, net)
  {
    forall k: nat :: Exceeds(p, wires, net, k)
  }

  lemma CascadeIsNotEndless(p: Params, wires: Wiring, on: set<nat>, net: Net)
    requires ValidParams(p) && EchoSafe(p) && WellFormed(wires, net) && Cascade(p, on, net) && net.log == []
    ensures !Exceeds(p, wires, net, |net.nodes| * |on|)
  {
    forall ds | Legal(p, wires, net, ds) ensures |After(p, wires, net, ds).log| <= |net.nodes| * |on| {
      StartsClean(p, on, net);
      PulsesConserved(p, wires, on, net.nodes, net, ds);
      RelaysFit(p, on, net.nodes, After(p, wires, net, ds));
    }
  }

  /** The times at which pulses were sent and handlers end. */
  ghost function Instants(net: Net): set<nat> {
    (set q | q in net.pending :: q.at) + (set v | v in net.nodes :: net.nodes[v].clock)
  }

  lemma AnyNetIsCascade(p: Params, wires: Wiring, net: Net)
    requires WellFormed(wires, net)
    ensures Cascade(p, Instants(net), net)
  {
    forall i | 0 <= i < |net.pending| ensures net.pending[i].at in Instants(net) {
      assert net.pending[i] in net.pending;
    }
  }

  /** From every state of every network, reachable or not, the number of relays is bounded, if and
      only if the parameters are echo safe. */
  lemma CascadesEndIff(p: Params)
    requires ValidParams(p)
    ensures EchoSafe(p) <==>
              forall wires, net :: WellFormed(wires, net) && net.log == [] ==> !Endless(p, wires, net)
  {
    hide EchoSafe, Cascade, TimerStart, Step, Enabled, Fresh;
    if EchoSafe(p) {
      forall wires, net | WellFormed(wires, net) && net.log == [] ensures !Endless(p, wires, net) {
        AnyNetIsCascade(p, wires, net);
        CascadeIsNotEndless(p, wires, Instants(net), net);
      }
    } else {
      var nodes0, t := EchoUnsafeNeverEnds(p);
      assert Endless(p, LOOP, TimerStart(p, LOOP, nodes0, 2, t, 0));
    }
  }

  // ---------- Bouncing ----------

  /** Two nodes wired to each other, alone or with a third that is wired to one of them. */
  const PAIR: Wiring := map[0 := [1], 1 := [0]]
  const LOOP: Wiring := map[0 := [1], 1 := [0], 2 := [1]]

  /** A pulse that node 1 will accept at `x`, and node 0 after it at `y`. */
  ghost predicate Volley(p: Params, net: Net, x: nat, y: nat) {
    && 0 in net.nodes && 1 in net.nodes
    && |net.pending| == 1 && net.pending[0].target == 1 && HandledAt(net, net.pending[0]) == x
    && y == Max(x, net.nodes[0].clock)
    && Eligible(p, x - net.nodes[1].last) && Eligible(p, y - net.nodes[0].last)
  }

  ghost predicate Bouncing(wires: Wiring) {
    0 in wires && 1 in wires && wires[0] == [1] && wires[1] == [0]
  }

  /** A delivery that draws a backoff after which the node accepts. */
  ghost predicate Ready(p: Params, d: Delivery, g: nat)
    requires ValidParams(p)
  {
    d.index == 0 && g == PULSE + 1000 * Draw(p, d.rawBackoff) && Eligible(p, g)
  }

  lemma VolleyReturns(p: Params, wires: Wiring, net: Net, x: nat, y: nat, d: Delivery, g: nat)
    requires ValidParams(p) && WellFormed(wires, net) && Bouncing(wires)
    requires Volley(p, net, x, y) && Ready(p, d, g) && y <= x + g
    ensures var net1 := Deliver(p, wires, net, d);
            && |net1.pending| == 1
            && var net2 := Deliver(p, wires, net1, d);
               && Volley(p, net2, x + g, y + g)
               && |net2.log| == |net.log| + 2
  {
    hide Eligible, Draw, Deliver;
    DeliverEffect(p, wires, net, d);
    var net1 := Deliver(p, wires, net, d);
    assert net1.pending == [Pulse(0, x)];
    DeliverEffect(p, wires, net1, d);
    var net2 := Deliver(p, wires, net1, d);
    assert net2.pending == [Pulse(1, y)];
  }

  lemma {:induction false} VolleyGoesOn(p: Params, wires: Wiring, net: Net, x: nat, y: nat, d: Delivery, g: nat, k: nat)
    returns (ds: seq<Delivery>)
    requires ValidParams(p) && WellFormed(wires, net) && Bouncing(wires)
    requires Volley(p, net, x, y) && Ready(p, d, g) && y <= x + g
    ensures Legal(p, wires, net, ds) && |After(p, wires, net, ds).log| == |net.log| + 2 * k
    decreases k
  {
    if k == 0 {
      ds := [];
    } else {
      hide Deliver, Volley, Bouncing;
      VolleyReturns(p, wires, net, x, y, d, g);
      var net1 := Deliver(p, wires, net, d);
      var net2 := Deliver(p, wires, net1, d);
      var rest := VolleyGoesOn(p, wires, net2, x + g, y + g, d, g, k - 1);
      var tail := [d] + rest;
      assert tail[1..] == rest;
      assert Legal(p, wires, net1, tail) && After(p, wires, net1, tail) == After(p, wires, net2, rest);
      ds := [d] + tail;
      assert ds[1..] == tail;
      assert |net.pending| > 0 by { assert Volley(p, net, x, y) by {} }
      assert Legal(p, wires, net, ds);
    }
  }

  lemma VolleyIsEndless(p: Params, wires: Wiring, net: Net, x: nat, y: nat)
    requires ValidParams(p) && !EchoSafe(p) && WellFormed(wires, net) && Bouncing(wires)
    requires Volley(p, net, x, y) && y <= x + PULSE && net.log == []
    ensures Endless(p, wires, net)
  {
    EchoSafeIff(p);
    var raw: nat :| Eligible(p, PULSE + 1000 * Draw(p, raw));
    var d, g: nat := Delivery(0, 0, raw, 0), PULSE + 1000 * Draw(p, raw);
    forall k: nat ensures Exceeds(p, wires, net, k) {
      var ds := VolleyGoesOn(p, wires, net, x, y, d, g, k + 1);
      assert |After(p, wires, net, ds).log| > k;
    }
  }

  /** A node as module load left it, by time `t`, with no timer overdue. */
  predicate Fresh(p: Params, n: Node, t: nat) {
    n == Boot(p, n.last, n.bufCounter) && n.last <= t
  }

  /** If the parameters are not echo safe, two nodes wired to each other can bounce the pulse of a
      third for ever: it comes when the timer of the third is due, and no other timer is. */
  lemma EchoUnsafeNeverEnds(p: Params) returns (nodes0: map<nat, Node>, t: nat)
    requires ValidParams(p) && !EchoSafe(p)
    ensures Wired(LOOP, nodes0) && 2 in nodes0 && Enabled(nodes0[2], Timer(t, 0))
    ensures forall v :: v in nodes0 ==> Fresh(p, nodes0[v], t) && nodes0[v].deadline.value >= t
    ensures Endless(p, LOOP, TimerStart(p, LOOP, nodes0, 2, t, 0))
  {
    hide Registers;
    t := 1000 * p.T;
    var half: nat := 500 * p.T;
    nodes0 := map[0 := Boot(p, half, 0), 1 := Boot(p, half, 0), 2 := Boot(p, 0, 0)];
    assert nodes0.Keys == {0, 1, 2};
    var net := TimerStart(p, LOOP, nodes0, 2, t, 0);
    assert net.pending == [Pulse(1, t)];
    VolleyIsEndless(p, LOOP, net, t, t);
  }

  // ---------- The closed pair ----------

  /** The first timer to fire in a pair of freshly loaded nodes is that of node 0. */
  ghost predicate FirstFire(p: Params, nodes0: map<nat, Node>, t: nat, free: nat) {
    && nodes0.Keys == {0, 1} && Fresh(p, nodes0[0], t) && Fresh(p, nodes0[1], t)
    && Enabled(nodes0[0], Timer(t, free))
  }

  /** Node 0 accepts nothing any more, and node 1 accepts at most the pulse under way. */
  ghost predicate StarvedPair(p: Params, net: Net) {
    && net.nodes.Keys == {0, 1} && net.nodes[0].clock - net.nodes[0].last >= SECOND
    && |net.pending| <= 1 && |net.log| <= 1
    && (|net.pending| == 1 && net.pending[0].target == 1 ==> net.log == [])
  }

  lemma {:induction false} StarvedPairStops(p: Params, net: Net, ds: seq<Delivery>)
    requires ValidParams(p) && WellFormed(PAIR, net) && Legal(p, PAIR, net, ds) && StarvedPair(p, net)
    ensures |After(p, PAIR, net, ds).log| <= 1
    decreases |ds|
  {
    if ds != [] {
      hide Deliver, Draw;
      DeliverEffect(p, PAIR, net, ds[0]);
      assert PAIR[1] == [0];
      StarvedPairStops(p, Deliver(p, PAIR, net, ds[0]), ds[1..]);
    }
  }

  ghost predicate PairBounces(p: Params, nodes0: map<nat, Node>, t: nat, free: nat)
    requires ValidParams(p)
  {
    FirstFire(p, nodes0, t, free) && Wired(PAIR, nodes0) && Endless(p, PAIR, TimerStart(p, PAIR, nodes0, 0, t, free))
  }

  /** A closed pair can bounce a pulse for ever if and only if the parameters are not echo safe and
      the first timer, and its own pulse, are over before the node is a second old. */
  lemma PairBouncesIff(p: Params)
    requires ValidParams(p)
    ensures (exists nodes0, t, free :: PairBounces(p, nodes0, t, free)) <==>
              !EchoSafe(p) && 1000 * p.T + PULSE < SECOND
  {
    if !EchoSafe(p) && 1000 * p.T + PULSE < SECOND {
      PairBouncing(p);
    } else {
      forall nodes0, t, free ensures !PairBounces(p, nodes0, t, free) {
        if FirstFire(p, nodes0, t, free) && Wired(PAIR, nodes0) {
          PairStops(p, nodes0, t, free);
        }
      }
    }
  }

  lemma PairBouncing(p: Params)
    requires ValidParams(p) && !EchoSafe(p) && 1000 * p.T + PULSE < SECOND
    ensures exists nodes0, t, free :: PairBounces(p, nodes0, t, free)
  {
    hide Registers;
    var t: nat, half: nat := 1000 * p.T, 500 * p.T;
    var nodes0 := map[0 := Boot(p, 0, 0), 1 := Boot(p, half, 0)];
    assert nodes0.Keys == {0, 1};
    var net := TimerStart(p, PAIR, nodes0, 0, t, 0);
    assert net.pending == [Pulse(1, t)];
    VolleyIsEndless(p, PAIR, net, t, t + PULSE);
    assert PairBounces(p, nodes0, t, 0);
  }

  lemma PairStops(p: Params, nodes0: map<nat, Node>, t: nat, free: nat)
    requires ValidParams(p) && FirstFire(p, nodes0, t, free) && Wired(PAIR, nodes0)
    requires EchoSafe(p) || 1000 * p.T + PULSE >= SECOND
    ensures !Endless(p, PAIR, TimerStart(p, PAIR, nodes0, 0, t, free))
  {
    hide Step, Enabled, EchoSafe, Cascade, StarvedPair, Narrow, Registers, Eligible;
    var net := TimerStart(p, PAIR, nodes0, 0, t, free);
    if EchoSafe(p) {
      TimerStartIsCascade(p, PAIR, nodes0, 0, t, free);
      CascadeIsNotEndless(p, PAIR, {t, t + PULSE}, net);
    } else {
      PairStarves(p, nodes0, t, free);
      StarvedPairIsNotEndless(p, net);
    }
  }

  lemma StarvedPairIsNotEndless(p: Params, net: Net)
    requires ValidParams(p) && WellFormed(PAIR, net) && StarvedPair(p, net)
    ensures !Exceeds(p, PAIR, net, 1)
  {
    forall ds | Legal(p, PAIR, net, ds) ensures |After(p, PAIR, net, ds).log| <= 1 {
      StarvedPairStops(p, net, ds);
    }
  }

  lemma PairStarves(p: Params, nodes0: map<nat, Node>, t: nat, free: nat)
    requires ValidParams(p) && FirstFire(p, nodes0, t, free) && Wired(PAIR, nodes0)
    requires 1000 * p.T + PULSE >= SECOND
    ensures StarvedPair(p, TimerStart(p, PAIR, nodes0, 0, t, free))
  {
    hide Registers, Forward;
    assert PAIR[0] == [1];
  }

  // ---------- Overlapping cascades ----------

  /** Longest time a handler keeps a node busy: the pulse and the largest backoff. */
  function BusyTime(p: Params): nat { 2000 * p.Delta }

  ghost function Span(lo: nat, hi: nat): (s: set<nat>)
    ensures forall x :: x in s <==> lo <= x <= hi
    decreases hi + 1 - lo
  {
    if lo > hi then {} else {lo} + Span(lo + 1, hi)
  }

  /** Cascades started within one busy time: pulses are sent, and handlers under way end, by then. */
  ghost predicate Overlapping(p: Params, t: nat, net: Net) {
    && net.log == []
    && (forall i :: 0 <= i < |net.pending| ==> t <= net.pending[i].at <= t + BusyTime(p))
    && (forall v :: v in net.nodes ==> net.nodes[v].clock <= t + BusyTime(p))
  }

  ghost predicate OverlapRun(p: Params, wires: Wiring, t: nat, net: Net, ds: seq<Delivery>)
    requires ValidParams(p)
  {
    WellFormed(wires, net) && Overlapping(p, t, net) && Legal(p, wires, net, ds)
  }

  /** However many cascades start within one busy time, each node relays at most once in all of
      them, if and only if half a period is longer than the busy time or than a second. */
  lemma OverlapRelaysOnceIff(p: Params)
    requires ValidParams(p)
    ensures p.T > 4 * p.Delta || 500 * p.T >= SECOND <==>
              forall wires, t: nat, net, ds :: OverlapRun(p, wires, t, net, ds) ==> Once(After(p, wires, net, ds).log)
  {
    if p.T > 4 * p.Delta || 500 * p.T >= SECOND {
      forall wires, t: nat, net, ds | OverlapRun(p, wires, t, net, ds) ensures Once(After(p, wires, net, ds).log) {
        OverlapIsCascade(p, wires, t, net);
        var on := Span(t, t + BusyTime(p));
        StartsClean(p, on, net);
        RunStaysOnce(p, wires, on, net.nodes, net, ds);
      }
    } else {
      var wires, t, net, ds := RelaysTwice(p);
    }
  }

  lemma OverlapIsCascade(p: Params, wires: Wiring, t: nat, net: Net)
    requires ValidParams(p) && WellFormed(wires, net) && Overlapping(p, t, net)
    ensures var on := Span(t, t + BusyTime(p));
            && Cascade(p, on, net)
            && (p.T > 4 * p.Delta || 500 * p.T >= SECOND ==> EchoSafe(p) && Narrow(p, on))
  {
  }

  /** A node that two cascades reach half a period apart. */
  lemma RelaysTwice(p: Params) returns (wires: Wiring, t: nat, net: Net, ds: seq<Delivery>)
    requires ValidParams(p) && p.T <= 4 * p.Delta && 500 * p.T < SECOND
    ensures OverlapRun(p, wires, t, net, ds) && !Once(After(p, wires, net, ds).log)
  {
    hide Registers, Draw, Deliver;
    t := 500 * p.T;
    wires := map[0 := []];
    net := Net(map[0 := Boot(p, 0, 0)], [Pulse(0, t), Pulse(0, t + Max(t, PULSE))], []);
    var d := Delivery(0, 0, 0, 0);
    Runs.SmallDraw(p, 0);
    DeliverEffect(p, wires, net, d);
    var net1 := Deliver(p, wires, net, d);
    assert net1.pending == [Pulse(0, t + Max(t, PULSE))];
    DeliverEffect(p, wires, net1, d);
    var net2 := Deliver(p, wires, net1, d);
    ds := [d, d];
    assert ds[1..] == [d];
    OneDelivery(p, wires, net1, d);
    assert Legal(p, wires, net, ds) && After(p, wires, net, ds) == net2;
    assert net2.log[0].node == net2.log[1].node;
  }
}
