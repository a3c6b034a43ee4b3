/** A pulse spreading through a network of unlock nodes.

Lines are instantaneous: a relayed pulse reaches the neighbours at the time the relaying
handler read its clock. A pulse that arrives while a node's handler is still running stays
pending and is handled when that handler ends. Pending pulses are delivered in any order and
every random draw is free. */
module UnlockFlood {
  import opened Bits
  import opened Unlock

  type Wiring = map<nat, seq<nat>>

  datatype Pulse = Pulse(target: nat, at: nat)
  datatype Relay = Relay(node: nat, at: nat)
  datatype Net = Net(nodes: map<nat, Node>, pending: seq<Pulse>, log: seq<Relay>)
  datatype Delivery = Delivery(index: nat, rawRng: nat, rawBackoff: nat, free: nat)

  predicate Wired(wires: Wiring, nodes: map<nat, Node>) {
    && wires.Keys == nodes.Keys
    && forall u, i :: u in wires && 0 <= i < |wires[u]| ==> wires[u][i] in nodes
  }

  predicate WellFormed(wires: Wiring, net: Net) {
    && Wired(wires, net.nodes)
    && forall i :: 0 <= i < |net.pending| ==> net.pending[i].target in net.nodes
  }

  function Max(a: nat, b: nat): nat { if a < b then b else a }

  function Send(targets: seq<nat>, at: nat): (ps: seq<Pulse>)
    ensures |ps| == |targets| && forall i :: 0 <= i < |ps| ==> ps[i] == Pulse(targets[i], at)
  {
    seq(|targets|, i requires 0 <= i < |targets| => Pulse(targets[i], at))
  }

  function Remove(ps: seq<Pulse>, i: nat): seq<Pulse>
    requires i < |ps|
  {
    ps[..i] + ps[i + 1..]
  }

  /** When a pulse is handled: on arrival, or when the running handler ends. */
  function HandledAt(net: Net, q: Pulse): nat
    requires q.target in net.nodes
  {
    Max(q.at, net.nodes[q.target].clock)
  }

  predicate Accepted(p: Params, net: Net, q: Pulse)
    requires q.target in net.nodes
  {
    Eligible(p, HandledAt(net, q) - net.nodes[q.target].last)
  }

  /** Deliver one pending pulse: run the interrupt handler of its target and put the pulses it
      relays on the lines. */
  function Deliver(p: Params, wires: Wiring, net: Net, d: Delivery): (r: Net)
    requires ValidParams(p) && WellFormed(wires, net) && d.index < |net.pending|
    ensures WellFormed(wires, r)
  {
    var q := net.pending[d.index];
    var v, now := q.target, HandledAt(net, q);
    var node := Interrupt(p, net.nodes[v], now, d.rawRng, d.rawBackoff, d.free);
    var hit := Accepted(p, net, q);
    Net(net.nodes[v := node],
        Remove(net.pending, d.index) + (if hit then Send(wires[v], now) else []),
        net.log + (if hit then [Relay(v, now)] else []))
  }

  ghost predicate Legal(p: Params, wires: Wiring, net: Net, ds: seq<Delivery>)
    requires ValidParams(p) && WellFormed(wires, net)
    decreases |ds|
  {
    ds != [] ==> ds[0].index < |net.pending| && Legal(p, wires, Deliver(p, wires, net, ds[0]), ds[1..])
  }

  ghost function After(p: Params, wires: Wiring, net: Net, ds: seq<Delivery>): Net
    requires ValidParams(p) && WellFormed(wires, net) && Legal(p, wires, net, ds)
    decreases |ds|
  {
    if ds == [] then net else After(p, wires, Deliver(p, wires, net, ds[0]), ds[1..])
  }

  /** The network after a pulse from outside has reached the given nodes. */
  function Outside(nodes: map<nat, Node>, targets: seq<nat>, t: nat): Net {
    Net(nodes, Send(targets, t), [])
  }

  /** The network after the timer of node `s` has fired. */
  function TimerStart(p: Params, wires: Wiring, nodes: map<nat, Node>, s: nat, t: nat, free: nat): (r: Net)
    requires ValidParams(p) && Wired(wires, nodes) && s in nodes && Enabled(nodes[s], Timer(t, free))
    ensures WellFormed(wires, r) && r.nodes.Keys == nodes.Keys && r.log == []
  {
    Net(nodes[s := Step(p, nodes[s], Timer(t, free))], Send(wires[s], t), [])
  }

  lemma OneDelivery(p: Params, wires: Wiring, net: Net, d: Delivery)
    requires ValidParams(p) && WellFormed(wires, net) && d.index < |net.pending|
    ensures Legal(p, wires, net, [d]) && After(p, wires, net, [d]) == Deliver(p, wires, net, d)
  {
    var ds, next := [d], Deliver(p, wires, net, d);
    assert ds[1..] == [];
    assert Legal(p, wires, next, []) && After(p, wires, next, []) == next;
  }

  // ---------- Echoes ----------

  /** No node can accept the echo of a pulse it has just relayed. */
  predicate EchoSafe(p: Params) {
    p.T > 4 * p.Delta || p.T >= 1_999_999
  }

  lemma EchoSafeIff(p: Params)
    requires ValidParams(p)
    ensures EchoSafe(p) <==> forall raw: nat :: !Eligible(p, PULSE + 1000 * Draw(p, raw))
  {
    if EchoSafe(p) {
      forall raw: nat ensures !Eligible(p, PULSE + 1000 * Draw(p, raw)) {
        EchoTooEarly(p, Draw(p, raw));
      }
    } else {
      var b: nat := (p.T + 1) / 2 - 1;
      assert Draw(p, b) == b by { DivModUnique(b, p.Delta + p.Delta, 0, b); }
      assert Eligible(p, PULSE + 1000 * b);
    }
  }

  lemma EchoTooEarly(p: Params, backoff: nat)
    requires EchoSafe(p) && backoff < 2 * p.Delta
    ensures !Eligible(p, PULSE + 1000 * backoff)
  {
  }

  // ---------- One delivery ----------

  /** What the interrupt handler does to the fields that decide about pulses. */
  lemma HandlerEffect(p: Params, n: Node, now: nat, d: Delivery)
    requires p.Delta > 0
    ensures var m := Interrupt(p, n, now, d.rawRng, d.rawBackoff, d.free);
            if Eligible(p, now - n.last) then m.last == now && m.clock == now + PULSE + 1000 * Draw(p, d.rawBackoff)
            else m.last == n.last && m.clock == now
  {
    hide Registers, NextTimer, Lengthens, Draw;
  }

  /** What a delivery does: its target handles the pulse, and relays it if it accepts. */
  lemma DeliverEffect(p: Params, wires: Wiring, net: Net, d: Delivery)
    requires ValidParams(p) && WellFormed(wires, net) && d.index < |net.pending|
    ensures var q, net' := net.pending[d.index], Deliver(p, wires, net, d);
            var v, x := q.target, HandledAt(net, q);
            && v in net'.nodes && net'.nodes == net.nodes[v := net'.nodes[v]]
            && if Accepted(p, net, q) then
                 && net'.nodes[v].last == x && net'.nodes[v].clock == x + PULSE + 1000 * Draw(p, d.rawBackoff)
                 && net'.log == net.log + [Relay(v, x)]
                 && net'.pending == Remove(net.pending, d.index) + Send(wires[v], x)
               else
                 && net'.nodes[v].last == net.nodes[v].last && net'.nodes[v].clock == x
                 && net'.log == net.log
                 && net'.pending == Remove(net.pending, d.index)
  {
    var q := net.pending[d.index];
    HandlerEffect(p, net.nodes[q.target], HandledAt(net, q), d);
    hide Interrupt, Draw, Eligible;
  }

  /** A pulse pending after a delivery was pending before, or has just been relayed. */
  lemma PendingAfter(p: Params, wires: Wiring, net: Net, d: Delivery, i: nat)
    requires ValidParams(p) && WellFormed(wires, net) && d.index < |net.pending|
    requires i < |Deliver(p, wires, net, d).pending|
    ensures var q, r := net.pending[d.index], Deliver(p, wires, net, d).pending[i];
            || r in net.pending
            || (Accepted(p, net, q) && r.target in wires[q.target] && r.at == HandledAt(net, q))
  {
    hide Interrupt, Eligible;
    var kept, net' := Remove(net.pending, d.index), Deliver(p, wires, net, d);
    if i < |kept| {
      assert net'.pending[i] == net.pending[if i < d.index then i else i + 1];
    } else {
      var q := net.pending[d.index];
      assert net'.pending[i] == Send(wires[q.target], HandledAt(net, q))[i - |kept|];
    }
  }

  // ---------- The instants at which pulses can be accepted ----------

  /** When its handler ends, the node rejects what has been waiting. */
  predicate Deaf(p: Params, n: Node) {
    !Eligible(p, n.clock - n.last)
  }

  /** The node's handler ends at one of the instants `on`, or it ends later and leaves it deaf. */
  ghost predicate Done(p: Params, on: set<nat>, n: Node) {
    n.clock in on || (Deaf(p, n) && exists x :: x in on && x < n.clock)
  }

  ghost predicate Before(on: set<nat>, n: Node) {
    forall x :: x in on ==> n.clock <= x
  }

  /** The pulse was sent at one of the instants, or has been waiting for a running handler. */
  ghost predicate Due(p: Params, on: set<nat>, q: Pulse, n: Node) {
    q.at in on || (q.at <= n.clock && Done(p, on, n))
  }

  /** Pulses are accepted at the instants `on` only. */
  ghost predicate Cascade(p: Params, on: set<nat>, net: Net) {
    && (forall v :: v in net.nodes ==> Done(p, on, net.nodes[v]) || Before(on, net.nodes[v]))
    && (forall i :: 0 <= i < |net.pending| ==>
          net.pending[i].target in net.nodes && Due(p, on, net.pending[i], net.nodes[net.pending[i].target]))
  }

  /** A pulse is handled at one of the instants, or rejected without any change; in both cases its
      target is done. This is where echo safety is needed. */
  lemma HandledOnTime(p: Params, on: set<nat>, n: Node, q: Pulse, m: Node, backoff: nat)
    requires EchoSafe(p) && backoff < 2 * p.Delta
    requires (Done(p, on, n) || Before(on, n)) && Due(p, on, q, n)
    requires var x := Max(q.at, n.clock);
             if Eligible(p, x - n.last) then m.last == x && m.clock == x + PULSE + 1000 * backoff
             else m.last == n.last && m.clock == x
    ensures var x := Max(q.at, n.clock);
            && Done(p, on, m) && n.clock <= x <= m.clock
            && (x in on || (!Eligible(p, x - n.last) && x == n.clock && !Before(on, n)))
  {
    EchoTooEarly(p, backoff);
  }

  lemma DeliverKeepsCascade(p: Params, wires: Wiring, on: set<nat>, net: Net, d: Delivery)
    requires ValidParams(p) && EchoSafe(p) && WellFormed(wires, net) && d.index < |net.pending|
    requires Cascade(p, on, net)
    ensures Cascade(p, on, Deliver(p, wires, net, d))
    ensures var q := net.pending[d.index];
            var x, n := HandledAt(net, q), net.nodes[q.target];
            && n.clock <= x && Done(p, on, Deliver(p, wires, net, d).nodes[q.target])
            && (x in on || (!Accepted(p, net, q) && x == n.clock && !Before(on, n)))
  {
    var q, net' := net.pending[d.index], Deliver(p, wires, net, d);
    DeliverEffect(p, wires, net, d);
    HandledOnTime(p, on, net.nodes[q.target], q, net'.nodes[q.target], Draw(p, d.rawBackoff));
    hide Deliver, Draw, EchoSafe, Eligible, Done, Before;
    forall i | 0 <= i < |net'.pending|
      ensures net'.pending[i].target in net'.nodes && Due(p, on, net'.pending[i], net'.nodes[net'.pending[i].target])
    {
      PendingAfter(p, wires, net, d, i);
    }
  }

  // ---------- What the log says ----------

  ghost function Who(log: seq<Relay>): set<nat> {
    set r | r in log :: r.node
  }

  /** Relays of one node are at least half a period apart. */
  ghost predicate Spread(p: Params, log: seq<Relay>) {
    forall i, j :: 0 <= i < j < |log| && log[i].node == log[j].node ==> log[j].at >= log[i].at + 500 * p.T
  }

  /** A node that has not relayed has rejected at most; one that has remembers its last relay. */
  ghost predicate Traced(on: set<nat>, n0: Node, n: Node, v: nat, log: seq<Relay>) {
    && n0.clock <= n.clock
    && (v !in Who(log) ==> n.last == n0.last && (n.clock == n0.clock || n.clock in on))
    && (v in Who(log) ==> Relay(v, n.last) in log)
  }

  ghost predicate Recorded(on: set<nat>, nodes: map<nat, Node>, r: Relay) {
    r.node in nodes && r.at in on && r.at <= nodes[r.node].last && nodes[r.node].last + PULSE <= nodes[r.node].clock
  }

  ghost predicate History(p: Params, on: set<nat>, nodes0: map<nat, Node>, net: Net) {
    && net.nodes.Keys == nodes0.Keys
    && (forall v :: v in nodes0 ==> Traced(on, nodes0[v], net.nodes[v], v, net.log))
    && (forall r :: r in net.log ==> Recorded(on, net.nodes, r))
    && Spread(p, net.log)
  }

  lemma WhoAppend(log: seq<Relay>, r: Relay)
    ensures Who(log + [r]) == Who(log) + {r.node}
  {
    var longer := log + [r];
    assert longer[|log|] == r;
    forall v ensures v in Who(longer) <==> v in Who(log) || v == r.node {
      if v in Who(log) {
        var earlier :| earlier in log && earlier.node == v;
        assert earlier in longer;
      }
    }
  }

  lemma RejectKeepsHistory(p: Params, wires: Wiring, on: set<nat>, nodes0: map<nat, Node>, net: Net, d: Delivery)
    requires ValidParams(p) && EchoSafe(p) && WellFormed(wires, net) && d.index < |net.pending|
    requires Cascade(p, on, net) && History(p, on, nodes0, net) && !Accepted(p, net, net.pending[d.index])
    ensures History(p, on, nodes0, Deliver(p, wires, net, d))
  {
    hide Deliver, Draw, EchoSafe, Eligible, Done, Before, Due, Who, Spread, Cascade, HandledAt, Accepted;
    DeliverEffect(p, wires, net, d);
    DeliverKeepsCascade(p, wires, on, net, d);
  }

  lemma AcceptKeepsHistory(p: Params, wires: Wiring, on: set<nat>, nodes0: map<nat, Node>, net: Net, d: Delivery)
    requires ValidParams(p) && EchoSafe(p) && WellFormed(wires, net) && d.index < |net.pending|
    requires Cascade(p, on, net) && History(p, on, nodes0, net) && Accepted(p, net, net.pending[d.index])
    ensures History(p, on, nodes0, Deliver(p, wires, net, d))
  {
    hide Deliver, Draw, EchoSafe, Eligible, Done, Before, Due, Who, Spread, Cascade, HandledAt;
    var q, net' := net.pending[d.index], Deliver(p, wires, net, d);
    var v, x := q.target, HandledAt(net, q);
    var relay := Relay(v, x);
    DeliverEffect(p, wires, net, d);
    DeliverKeepsCascade(p, wires, on, net, d);
    WhoAppend(net.log, relay);
    SpreadAppend(p, on, net, relay);
    assert net'.log[|net.log|] == relay;
    forall r | r in net'.log ensures Recorded(on, net'.nodes, r) {}
    forall u | u in nodes0 ensures Traced(on, nodes0[u], net'.nodes[u], u, net'.log) {}
  }

  lemma SpreadAppend(p: Params, on: set<nat>, net: Net, relay: Relay)
    requires Spread(p, net.log) && forall r :: r in net.log ==> Recorded(on, net.nodes, r)
    requires relay.node in net.nodes && Eligible(p, relay.at - net.nodes[relay.node].last)
    ensures Spread(p, net.log + [relay])
  {
    var longer := net.log + [relay];
    forall i, j | 0 <= i < j < |longer| && longer[i].node == longer[j].node
      ensures longer[j].at >= longer[i].at + 500 * p.T
    {
      if j == |net.log| {
        assert Recorded(on, net.nodes, net.log[i]);
      }
    }
  }

  lemma DeliverKeepsHistory(p: Params, wires: Wiring, on: set<nat>, nodes0: map<nat, Node>, net: Net, d: Delivery)
    requires ValidParams(p) && EchoSafe(p) && WellFormed(wires, net) && d.index < |net.pending|
    requires Cascade(p, on, net) && History(p, on, nodes0, net)
    ensures Cascade(p, on, Deliver(p, wires, net, d)) && History(p, on, nodes0, Deliver(p, wires, net, d))
  {
    hide Cascade, History, Deliver, EchoSafe, Accepted;
    DeliverKeepsCascade(p, wires, on, net, d);
    if Accepted(p, net, net.pending[d.index]) {
      AcceptKeepsHistory(p, wires, on, nodes0, net, d);
    } else {
      RejectKeepsHistory(p, wires, on, nodes0, net, d);
    }
  }

  // ---------- Who accepts ----------

  /** No two of the instants are a full eligible age apart. */
  ghost predicate Narrow(p: Params, on: set<nat>) {
    forall x, y :: x in on && y in on && x + PULSE <= y ==> !Eligible(p, y - x)
  }

  /** The node would accept a pulse at some instant that is left to it. */
  ghost predicate MayHear(p: Params, on: set<nat>, n: Node) {
    exists x :: x in on && n.clock <= x && Eligible(p, x - n.last)
  }

  /** The node would accept a pulse at every instant that is left to it. */
  ghost predicate MustHear(p: Params, on: set<nat>, n: Node) {
    && (n.clock in on || Before(on, n))
    && forall x :: x in on && n.clock <= x ==> Eligible(p, x - n.last)
  }

  ghost function May(p: Params, on: set<nat>, nodes: map<nat, Node>): set<nat> {
    set v | v in nodes && MayHear(p, on, nodes[v])
  }

  ghost function Must(p: Params, on: set<nat>, nodes: map<nat, Node>): set<nat> {
    set v | v in nodes && MustHear(p, on, nodes[v])
  }

  /** A node that has not relayed yet, facing a pulse handled at `x`. */
  lemma FirstPulse(p: Params, on: set<nat>, n0: Node, n: Node, x: nat)
    requires n.last == n0.last && n0.clock <= n.clock <= x && (n.clock == n0.clock || n.clock in on)
    requires x in on || (!Eligible(p, x - n.last) && x == n.clock && !Before(on, n))
    ensures Eligible(p, x - n.last) ==> MayHear(p, on, n0)
    ensures MustHear(p, on, n0) ==> Eligible(p, x - n.last)
  {
    hide Eligible;
  }

  lemma SecondPulse(p: Params, on: set<nat>, n: Node, x: nat)
    requires Narrow(p, on) && n.last in on && n.last + PULSE <= n.clock <= x
    requires x in on || !Eligible(p, x - n.last)
    ensures !Eligible(p, x - n.last)
  {
    hide Eligible;
  }

  /** A node accepts its first pulse only if it may, surely if it must, and no second pulse while
      the instants are narrow; every delivery keeps the invariants. */
  lemma DeliverKeepsFlooding(p: Params, wires: Wiring, on: set<nat>, nodes0: map<nat, Node>, net: Net, d: Delivery)
    requires ValidParams(p) && EchoSafe(p) && WellFormed(wires, net) && d.index < |net.pending|
    requires Cascade(p, on, net) && History(p, on, nodes0, net)
    ensures Cascade(p, on, Deliver(p, wires, net, d)) && History(p, on, nodes0, Deliver(p, wires, net, d))
    ensures var v, hit := net.pending[d.index].target, Accepted(p, net, net.pending[d.index]);
            && (v !in Who(net.log) && hit ==> v in May(p, on, nodes0))
            && (v !in Who(net.log) && v in Must(p, on, nodes0) ==> hit)
            && (v in Who(net.log) && Narrow(p, on) ==> !hit)
  {
    hide Deliver, Cascade, EchoSafe, Done, Before, Eligible, Who, Spread, MayHear, MustHear, Narrow, HandledAt;
    var v, n, x := net.pending[d.index].target, net.nodes[net.pending[d.index].target], HandledAt(net, net.pending[d.index]);
    DeliverKeepsHistory(p, wires, on, nodes0, net, d);
    DeliverKeepsCascade(p, wires, on, net, d);
    assert Traced(on, nodes0[v], n, v, net.log);
    if v !in Who(net.log) {
      FirstPulse(p, on, nodes0[v], n, x);
    } else if Narrow(p, on) {
      assert Recorded(on, net.nodes, Relay(v, n.last));
      SecondPulse(p, on, n, x);
    }
  }

  // ---------- Conservation ----------

  /** Lines driven by the relays in the log. */
  ghost function Lines(wires: Wiring, log: seq<Relay>): nat
    requires forall r :: r in log ==> r.node in wires
  {
    if log == [] then 0 else Lines(wires, log[..|log| - 1]) + |wires[log[|log| - 1].node]|
  }

  lemma LinesAppend(wires: Wiring, log: seq<Relay>, relay: Relay)
    requires (forall r :: r in log ==> r.node in wires) && relay.node in wires
    ensures forall r :: r in log + [relay] ==> r.node in wires
    ensures Lines(wires, log + [relay]) == Lines(wires, log) + |wires[relay.node]|
  {
    assert (log + [relay])[..|log + [relay]| - 1] == log;
  }

  lemma {:induction false} LinesBound(wires: Wiring, log: seq<Relay>, most: nat)
    requires forall r :: r in log ==> r.node in wires
    requires forall v :: v in wires ==> |wires[v]| <= most
    ensures Lines(wires, log) <= most * |log|
  {
    if log != [] {
      LinesBound(wires, log[..|log| - 1], most);
      assert most * |log| == most * (|log| - 1) + most;
    }
  }

  /** Deliveries made plus pulses under way equal the pulses under way at the start and those the
      relaying nodes have put on their lines. */
  lemma {:induction false} PulsesConserved(p: Params, wires: Wiring, on: set<nat>, nodes0: map<nat, Node>, net: Net, ds: seq<Delivery>)
    requires ValidParams(p) && EchoSafe(p) && WellFormed(wires, net) && Legal(p, wires, net, ds)
    requires Cascade(p, on, net) && History(p, on, nodes0, net) && wires.Keys == nodes0.Keys
    ensures var end := After(p, wires, net, ds);
            && Cascade(p, on, end) && History(p, on, nodes0, end)
            && (forall r :: r in net.log ==> r.node in wires) && (forall r :: r in end.log ==> r.node in wires)
            && |ds| + |end.pending| + Lines(wires, net.log) == |net.pending| + Lines(wires, end.log)
    decreases |ds|
  {
    hide Deliver, Cascade, EchoSafe, Accepted, HandledAt, Who, Spread, Traced;
    assert forall r :: r in net.log ==> Recorded(on, net.nodes, r);
    if ds != [] {
      var q, net' := net.pending[ds[0].index], Deliver(p, wires, net, ds[0]);
      DeliverKeepsHistory(p, wires, on, nodes0, net, ds[0]);
      PulsesConserved(p, wires, on, nodes0, net', ds[1..]);
      DeliverEffect(p, wires, net, ds[0]);
      if Accepted(p, net, q) {
        LinesAppend(wires, net.log, Relay(q.target, HandledAt(net, q)));
      }
    }
  }

  // ---------- How many relays ----------

  ghost predicate Distinct<A>(s: seq<A>) {
    forall i, j :: 0 <= i < j < |s| ==> s[i] != s[j]
  }

  lemma {:induction false} DistinctFit<A>(s: seq<A>, all: set<A>)
    requires Distinct(s) && forall a :: a in s ==> a in all
    ensures |s| <= |all|
  {
    if s != [] {
      var a := s[|s| - 1];
      assert a in all;
      DistinctFit(s[..|s| - 1], all - {a});
    }
  }

  ghost function Grid(keys: set<nat>, on: set<nat>): set<Relay> {
    set v, x | v in keys && x in on :: Relay(v, x)
  }

  lemma {:induction false} GridSize(keys: set<nat>, on: set<nat>)
    ensures |Grid(keys, on)| == |keys| * |on|
    decreases keys
  {
    if keys == {} {
      assert Grid(keys, on) == {};
    } else {
      var v :| v in keys;
      var rest := keys - {v};
      GridSize(rest, on);
      RowSize(v, on);
      assert Grid(keys, on) == Grid(rest, on) + Grid({v}, on);
      assert Grid(rest, on) !! Grid({v}, on);
      assert |keys| * |on| == (|keys| - 1) * |on| + |on|;
    }
  }

  lemma {:induction false} RowSize(v: nat, on: set<nat>)
    ensures |Grid({v}, on)| == |on|
    decreases on
  {
    if on == {} {
      assert Grid({v}, on) == {};
    } else {
      var x :| x in on;
      RowSize(v, on - {x});
      assert Grid({v}, on) == Grid({v}, on - {x}) + {Relay(v, x)};
    }
  }

  /** No node relays twice. */
  ghost predicate Once(log: seq<Relay>) {
    forall i, j :: 0 <= i < j < |log| ==> log[i].node != log[j].node
  }

  lemma RelaysFit(p: Params, on: set<nat>, nodes0: map<nat, Node>, net: Net)
    requires ValidParams(p) && History(p, on, nodes0, net)
    ensures |net.log| <= |nodes0| * |on|
    ensures Once(net.log) ==> |net.log| <= |nodes0|
  {
    forall r | r in net.log ensures r in Grid(nodes0.Keys, on) && r.node in nodes0.Keys {
      assert Recorded(on, net.nodes, r);
    }
    DistinctFit(net.log, Grid(nodes0.Keys, on));
    GridSize(nodes0.Keys, on);
    assert |nodes0.Keys| == |nodes0|;
    if Once(net.log) {
      var who := seq(|net.log|, i requires 0 <= i < |net.log| => net.log[i].node);
      DistinctFit(who, nodes0.Keys);
    }
  }

  lemma {:induction false} RunStaysOnce(p: Params, wires: Wiring, on: set<nat>, nodes0: map<nat, Node>, net: Net, ds: seq<Delivery>)
    requires ValidParams(p) && EchoSafe(p) && WellFormed(wires, net) && Legal(p, wires, net, ds)
    requires Cascade(p, on, net) && History(p, on, nodes0, net) && Narrow(p, on) && Once(net.log)
    ensures Once(After(p, wires, net, ds).log)
    decreases |ds|
  {
    hide Deliver, Cascade, EchoSafe, Accepted, HandledAt, Narrow, History, Who;
    if ds != [] {
      var q, net' := net.pending[ds[0].index], Deliver(p, wires, net, ds[0]);
      DeliverKeepsFlooding(p, wires, on, nodes0, net, ds[0]);
      DeliverEffect(p, wires, net, ds[0]);
      if Accepted(p, net, q) {
        NewRelayer(net.log, Relay(q.target, HandledAt(net, q)));
      }
      RunStaysOnce(p, wires, on, nodes0, net', ds[1..]);
    }
  }

  lemma NewRelayer(log: seq<Relay>, relay: Relay)
    requires Once(log) && relay.node !in Who(log)
    ensures Once(log + [relay])
  {
    assert forall i :: 0 <= i < |log| ==> log[i].node in Who(log);
  }

  lemma StartsClean(p: Params, on: set<nat>, net: Net)
    requires net.log == []
    ensures History(p, on, net.nodes, net)
  {
  }

  lemma Product(most: nat, pending: nat, lines: nat, relays: nat, bound: nat, ds: nat)
    requires ds <= pending + lines && lines <= most * relays && relays <= bound
    ensures ds <= pending + most * bound
  {
    assert most * (bound - relays) >= 0;
  }

  /** Under echo safety every cascade ends. Whatever the wiring and the order of delivery, every
      node relays at the instants `on` only, with half a period between its relays, so at most
      once if the instants are narrow; and no pulse gets lost. */
  lemma CascadeTerminates(p: Params, wires: Wiring, on: set<nat>, net: Net, ds: seq<Delivery>, most: nat)
    requires ValidParams(p) && EchoSafe(p) && WellFormed(wires, net) && Legal(p, wires, net, ds)
    requires Cascade(p, on, net) && net.log == []
    requires forall v :: v in wires ==> |wires[v]| <= most
    ensures var end := After(p, wires, net, ds);
            && (forall r :: r in end.log ==> r.node in wires && r.at in on)
            && Spread(p, end.log) && (Narrow(p, on) ==> Once(end.log))
            && |end.log| <= |net.nodes| * |on|
            && |ds| + |end.pending| == |net.pending| + Lines(wires, end.log)
            && |ds| <= |net.pending| + most * (|net.nodes| * |on|)
            && (Narrow(p, on) ==> |ds| <= |net.pending| + most * |net.nodes|)
  {
    StartsClean(p, on, net);
    PulsesConserved(p, wires, on, net.nodes, net, ds);
    var end := After(p, wires, net, ds);
    assert forall r :: r in end.log ==> Recorded(on, end.nodes, r);
    RelaysFit(p, on, net.nodes, end);
    LinesBound(wires, end.log, most);
    Product(most, |net.pending|, Lines(wires, end.log), |end.log|, |net.nodes| * |on|, |ds|);
    if Narrow(p, on) {
      RunStaysOnce(p, wires, on, net.nodes, net, ds);
      Product(most, |net.pending|, Lines(wires, end.log), |end.log|, |net.nodes|, |ds|);
    }
  }

  lemma {:induction false} RunExtends(p: Params, wires: Wiring, net: Net, ds: seq<Delivery>, d: Delivery)
    requires ValidParams(p) && WellFormed(wires, net) && Legal(p, wires, net, ds)
    requires d.index < |After(p, wires, net, ds).pending|
    ensures Legal(p, wires, net, ds + [d])
    decreases |ds|
  {
    if ds != [] {
      RunExtends(p, wires, Deliver(p, wires, net, ds[0]), ds[1..], d);
      assert (ds + [d])[1..] == ds[1..] + [d];
    }
  }

  /** Every cascade can be, and if deliveries go on will be, carried to its end. */
  lemma {:induction false} CascadeCompletes(p: Params, wires: Wiring, on: set<nat>, net: Net, ds: seq<Delivery>, most: nat)
    returns (full: seq<Delivery>)
    requires ValidParams(p) && EchoSafe(p) && WellFormed(wires, net) && Legal(p, wires, net, ds)
    requires Cascade(p, on, net) && net.log == []
    requires forall v :: v in wires ==> |wires[v]| <= most
    ensures ds <= full && Legal(p, wires, net, full) && After(p, wires, net, full).pending == []
    decreases |net.pending| + most * (|net.nodes| * |on|) - |ds|
  {
    hide Cascade, EchoSafe, Lines, Once, Spread, Narrow, Deliver;
    CascadeTerminates(p, wires, on, net, ds, most);
    if After(p, wires, net, ds).pending == [] {
      full := ds;
    } else {
      var d := Delivery(0, 0, 0, 0);
      RunExtends(p, wires, net, ds, d);
      CascadeTerminates(p, wires, on, net, ds + [d], most);
      full := CascadeCompletes(p, wires, on, net, ds + [d], most);
    }
  }
}
