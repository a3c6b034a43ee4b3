/** One node of the U-CSMA unlock protocol (`unlock.c`).

A node sends a pulse when its timer fires and relays a pulse it receives, unless the last
one it accepted is less than half a period or at least a second old. Time is in nanoseconds
on one monotone clock; `udelay` and `ndelay` take exactly the time asked for, and every
other instruction takes none. `clock` is the time at which the node's last handler ended.
 */
module Unlock {
  import opened Bits
  import opened Common

  const SECOND: nat := 1_000_000_000
  const PULSE: nat := 1000

  /** Module parameters, in microseconds. */
  datatype Params = Params(T: nat, Delta: nat)

  /** Both parameters are positive and the products the source forms from them fit in 32 bits. */
  predicate ValidParams(p: Params) {
    0 < p.T && 0 < p.Delta && (p.T + 2 * p.Delta) * 1000 < U32
  }

  datatype Node = Node(
    last: nat,
    last2nd: nat,
    deadline: Option<nat>,
    quiet: bool,
    regs: seq<nat>,
    bufCounter: nat,
    clock: nat)

  /** Inputs: the timer fires, or the interrupt line falls. The random words and the length of
      the free-buffer list are whatever the environment supplies. */
  datatype Event =
    | Timer(now: nat, free: nat)
    | Irq(now: nat, rawRng: nat, rawBackoff: nat, free: nat)

  // ---------- Contention window ----------

  /** The window the handlers choose for a given number of free buffers. */
  function Window(free: nat): nat {
    if free > 70 then 1023
    else if free > 65 then 511
    else if free > 60 then 511
    else if free > 50 then 255
    else if free > 40 then 63
    else if free > 20 then 15
    else if free > 10 then 7
    else if free > 5 then 3
    else 1
  }

  /** Fields of a local IFS register: minimum window, maximum window, and the rest. */
  function CwMin(reg: nat): nat { reg % 1024 }
  function CwMax(reg: nat): nat { reg / 1024 % 1024 }
  function Rest(reg: nat): nat { reg / 0x100000 }

  /** What `edit_contentionWindow` leaves in every register. */
  function RegisterValue(window: nat): nat {
    window % 1024 + 1024 * Or(window / 1024 % 1024, window % 1024)
  }

  function Fill(value: nat, n: nat): (s: seq<nat>)
    ensures |s| == n && forall i :: 0 <= i < n ==> s[i] == value
  {
    if n == 0 then [] else Fill(value, n - 1) + [value]
  }

  /** All eight registers after `edit_contentionWindow(window)`. */
  function Registers(window: nat): seq<nat> {
    Fill(RegisterValue(window), 8)
  }

  /** One turn of the loop: oring the word with itself shifted up by ten bits leaves the
      low twenty bits of the register as they will stay. */
  lemma Widen(w: nat, wider: nat)
    requires wider == Or(w, (w * 1024) % U32)
    ensures wider % 0x100000 == RegisterValue(w) == RegisterValue(wider)
  {
    var w0, w1, t := w % 1024, w / 1024, w % (U32 / 1024);
    var h := Or(w1, t);
    assert wider == w0 + 1024 * h by {
      Pow2Values();
      ShiftUp(w);
      OrAbove(10, w0, w1, t);
      ShlTen(w1);
      ShlTen(t);
      ShlTen(h);
    }
    assert h % 1024 == Or(w1 % 1024, w0) by {
      Pow2Values();
      ShiftUp(w);
      OrLow(10, w1, t);
    }
    FieldsOf(wider, w0, h);
    OrOnto(w1 % 1024, w0);
  }

  lemma ShiftUp(w: nat)
    ensures (w * 1024) % U32 == 1024 * (w % (U32 / 1024)) && (w % (U32 / 1024)) % 1024 == w % 1024
  {
    var q, r := w / 0x400000, w % 0x400000;
    assert w == q * 0x400000 + r;
    DivModUnique(w * 1024, U32, q, 1024 * r);
    assert w % 1024 == r % 1024 by {
      DivModUnique(w, 1024, 4096 * q + r / 1024, r % 1024);
    }
  }

  lemma FieldsOf(x: nat, low: nat, high: nat)
    requires x == low + 1024 * high && low < 1024
    ensures x % 1024 == low && x / 1024 == high && x % 0x100000 == low + 1024 * (high % 1024)
  {
  }

  lemma {:induction false} OrOnto(a: nat, b: nat)
    ensures Or(Or(a, b), b) == Or(a, b)
    decreases a + b
  {
    if a == 0 {
      OrSelf(b);
    } else if b > 0 {
      OrOnto(a / 2, b / 2);
      OrStep(Or(a, b), b);
    }
  }

  /** The source widens `window_size` again for every register; the truncation to 20 bits
      makes all eight values the same. */
  method EditContentionWindow(window: nat) returns (regs: seq<nat>)
    ensures regs == Registers(window)
  {
    var windowSize: nat := window;
    regs := [];
    var qnum := 0;
    while qnum < 8
      invariant 0 <= qnum <= 8 && regs == Fill(RegisterValue(window), qnum)
      invariant RegisterValue(windowSize) == RegisterValue(window)
    {
      var tmp := (windowSize * 1024) % U32;
      Widen(windowSize, Or(windowSize, tmp));
      windowSize := Or(windowSize, tmp);
      regs := regs + [windowSize % 0x100000];
      qnum := qnum + 1;
    }
  }

  /** The chosen windows grow with the number of free buffers, have the form 2^k - 1 with k at
      most 10, and land unchanged in both window fields of the register. */
  lemma WindowIsWellFormed(free: nat, more: nat) returns (k: nat)
    requires free <= more
    ensures Window(free) <= Window(more)
    ensures 1 <= k <= 10 && Window(free) == Pow2(k) - 1
    ensures var r := RegisterValue(Window(free));
            CwMin(r) == CwMax(r) == Window(free) && Rest(r) == 0 && r == 1025 * Window(free)
  {
    k := WindowShape(free);
    SmallWindow(Window(free));
  }

  lemma WindowShape(free: nat) returns (k: nat)
    ensures 1 <= k <= 10 && Window(free) == Pow2(k) - 1
  {
    Pow2Values();
    k := if free > 70 then 10 else if free > 60 then 9 else if free > 50 then 8 else if free > 40 then 6
         else if free > 20 then 4 else if free > 10 then 3 else if free > 5 then 2 else 1;
  }

  /** Which counts of free buffers give which window. */
  lemma WindowTable(free: nat)
    ensures Window(free) == 1 <==> free <= 5
    ensures Window(free) == 3 <==> 6 <= free <= 10
    ensures Window(free) == 7 <==> 11 <= free <= 20
    ensures Window(free) == 15 <==> 21 <= free <= 40
    ensures Window(free) == 63 <==> 41 <= free <= 50
    ensures Window(free) == 255 <==> 51 <= free <= 60
    ensures Window(free) == 511 <==> 61 <= free <= 70
    ensures Window(free) == 1023 <==> 71 <= free
  {
  }

  lemma SmallWindow(w: nat)
    requires w < 1024
    ensures var r := RegisterValue(w); CwMin(r) == CwMax(r) == w && Rest(r) == 0 && r == 1025 * w
  {
    assert w / 1024 == 0 && w % 1024 == w && Or(0, w) == w;
    FieldsOf(w + 1024 * w, w, w);
  }

  // ---------- Handlers ----------

  /** The interrupt handler accepts a pulse this long after the last accepted one. */
  predicate Eligible(p: Params, age: int) {
    500 * p.T <= age < SECOND
  }

  /** The period adjustment adds the random offset, rather than subtracting it. */
  predicate Lengthens(p: Params, last: nat, last2nd: nat) {
    var diff := last - last2nd;
    diff >= SECOND || diff <= 1000 * p.T
  }

  function Draw(p: Params, raw: nat): (d: nat)
    requires p.Delta > 0
    ensures d < 2 * p.Delta
  {
    raw % (p.Delta + p.Delta)
  }

  function Wrap(x: int): (r: nat)
    ensures r < U32
  {
    x % U32
  }

  /** The relative timer, in microseconds, computed in 32-bit unsigned arithmetic. */
  function NextTimer(p: Params, lengthens: bool, rng: nat, backoff: nat): nat {
    Wrap(Wrap(if lengthens then p.T + rng else p.T - rng) - backoff)
  }

  function Sample(n: Node, free: nat): Node {
    n.(bufCounter := free, regs := Registers(Window(free)))
  }

  function Accept(p: Params, n: Node, now: nat, rng: nat, backoff: nat): Node {
    var done := now + PULSE + 1000 * backoff;
    var next := NextTimer(p, Lengthens(p, n.last, n.last2nd), rng, backoff);
    n.(last := now, last2nd := n.last, quiet := false, clock := done,
       deadline := Some(done + Wrap(1000 * next)))
  }

  function Interrupt(p: Params, n: Node, now: nat, rawRng: nat, rawBackoff: nat, free: nat): Node
    requires p.Delta > 0
  {
    var s := Sample(n, free).(clock := now);
    if Eligible(p, now - n.last) then Accept(p, s, now, Draw(p, rawRng), Draw(p, rawBackoff)) else s
  }

  /** `hrtimer_forward_now`: add the interval until the expiry lies in the future. */
  function Forward(expiry: nat, now: nat, interval: nat): nat
    requires interval > 0
  {
    if now < expiry then expiry else expiry + ((now - expiry) / interval + 1) * interval
  }

  lemma ForwardLandsAhead(expiry: nat, now: nat, interval: nat) returns (k: nat)
    requires interval > 0 && expiry <= now
    ensures now < Forward(expiry, now, interval) <= now + interval
    ensures k > 0 && Forward(expiry, now, interval) == expiry + k * interval
  {
    k := (now - expiry) / interval + 1;
    assert k * interval == (k - 1) * interval + interval;
  }

  function FireTimer(p: Params, n: Node, now: nat, free: nat): Node
    requires p.T > 0 && n.deadline.Some?
  {
    var s := Sample(n, free);
    s.(clock := now + PULSE, deadline := Some(Forward(n.deadline.value, now + PULSE, 1000 * p.T)))
  }

  /** State after `unlock_init` at time `now`. */
  function Boot(p: Params, now: nat, bufCounter: nat): Node {
    Node(now, 0, Some(now + 1000 * p.T), false, Registers(15), bufCounter, now)
  }

  /** A handler starts after the previous one ended, and the timer fires only when armed and due. */
  predicate Enabled(n: Node, e: Event) {
    && n.clock <= e.now
    && (e.Timer? ==> n.deadline.Some? && n.deadline.value <= e.now)
  }

  function Step(p: Params, n: Node, e: Event): Node
    requires ValidParams(p) && Enabled(n, e)
  {
    match e
    case Timer(now, free) => FireTimer(p, n, now, free)
    case Irq(now, rawRng, rawBackoff, free) => Interrupt(p, n, now, rawRng, rawBackoff, free)
  }

  /** The event is an interrupt the node accepts, and so relays. */
  predicate Relays(p: Params, n: Node, e: Event) {
    e.Irq? && Eligible(p, e.now - n.last)
  }

  /** The event makes the node send a pulse. */
  predicate Pulses(p: Params, n: Node, e: Event) {
    e.Timer? || Relays(p, n, e)
  }

  // ---------- What a step does ----------

  /** A timer event moves the deadline by whole periods, at least one, to the first such time after
      the pulse: the timer keeps its beat however late it was. */
  lemma TimerKeepsBeat(p: Params, n: Node, now: nat, free: nat) returns (k: nat)
    requires ValidParams(p) && Enabled(n, Timer(now, free))
    ensures var m := Step(p, n, Timer(now, free));
            && k > 0 && m.deadline.Some? && Apart(m.deadline.value, n.deadline.value, 1000 * p.T, k)
            && now + PULSE < m.deadline.value <= now + PULSE + 1000 * p.T
            && m.clock == now + PULSE && m.last == n.last && m.last2nd == n.last2nd
  {
    hide Registers, Forward;
    k := ForwardLandsAhead(n.deadline.value, now + PULSE, 1000 * p.T);
  }

  /** The deadline an accept leaves: a relative time of less than 2^32 ns after the backoff, which
      up to multiples of 2^32 makes it the random offset more or less than a period after the
      pulse. */
  ghost predicate Rearmed(p: Params, sent: nat, gap: int, rng: nat, from: nat, deadline: Option<nat>) {
    && deadline.Some? && from <= deadline.value < from + U32
    && Congruent(deadline.value, sent + 1000 * (if gap >= SECOND || gap <= 1000 * p.T then p.T + rng else p.T - rng), U32)
  }

  lemma TimerModulo(p: Params, lengthens: bool, rng: nat, backoff: nat)
    ensures Congruent(Wrap(1000 * NextTimer(p, lengthens, rng, backoff)),
                      1000 * ((if lengthens then p.T + rng else p.T - rng) - backoff), U32)
  {
    var a := if lengthens then p.T + rng else p.T - rng;
    var next := Wrap(a) - backoff;
    CongruentWrap(1000 * Wrap(next), U32, 1);
    CongruentWrap(next, U32, 1000);
    CongruentSum(Wrap(1000 * Wrap(next)), 1000 * Wrap(next), 1000 * next, U32);
    CongruentWrap(a, U32, 1000);
    CongruentShift(1000 * Wrap(a), 1000 * a, -1000 * backoff, U32);
    CongruentSum(Wrap(1000 * Wrap(next)), 1000 * next, 1000 * a - 1000 * backoff, U32);
  }

  lemma RearmModulo(p: Params, last: nat, last2nd: nat, rng: nat, backoff: nat, sent: nat)
    ensures var from := sent + 1000 * backoff;
            Rearmed(p, sent, last - last2nd, rng, from,
                    Some(from + Wrap(1000 * NextTimer(p, Lengthens(p, last, last2nd), rng, backoff))))
  {
    hide NextTimer, Wrap;
    var a := if Lengthens(p, last, last2nd) then p.T + rng else p.T - rng;
    var w := Wrap(1000 * NextTimer(p, Lengthens(p, last, last2nd), rng, backoff));
    TimerModulo(p, Lengthens(p, last, last2nd), rng, backoff);
    CongruentShift(w, 1000 * (a - backoff), sent + 1000 * backoff, U32);
  }

  /** Within less than 2^32 ns there is only one such deadline. */
  lemma RearmedExactly(p: Params, sent: nat, gap: int, rng: nat, backoff: nat, deadline: Option<nat>)
    requires ValidParams(p) && p.T >= 4 * p.Delta - 2 && rng < 2 * p.Delta && backoff < 2 * p.Delta
    requires Rearmed(p, sent, gap, rng, sent + 1000 * backoff, deadline)
    ensures deadline == Some(sent + 1000 * (if gap >= SECOND || gap <= 1000 * p.T then p.T + rng else p.T - rng))
  {
    var d := sent + 1000 * (if gap >= SECOND || gap <= 1000 * p.T then p.T + rng else p.T - rng);
    var k :| Apart(deadline.value, d, U32, k);
    assert d < sent + 1000 * backoff + U32;
    if k > 0 { MulOrder(1, k, U32); }
    if k < 0 { MulOrder(k, -1, U32); }
  }

  /** An accepted pulse: the two random words are reduced modulo 2*Delta, the times of the last two
      accepts are kept, and the deadline lies the reduced offset more or less than a period after
      the pulse, exactly so for T >= 4*Delta - 2. */
  lemma AcceptEffect(p: Params, n: Node, e: Event, rng: nat, backoff: nat)
    requires ValidParams(p) && Enabled(n, e) && Relays(p, n, e)
    requires Leaves(e.rawRng, 2 * p.Delta, rng) && Leaves(e.rawBackoff, 2 * p.Delta, backoff)
    ensures var m := Step(p, n, e);
            && m.last == e.now && m.last2nd == n.last
            && m.clock == e.now + PULSE + 1000 * backoff
            && Rearmed(p, e.now + PULSE, n.last - n.last2nd, rng, m.clock, m.deadline)
            && (p.T >= 4 * p.Delta - 2 ==>
                  m.deadline == Some(e.now + PULSE + 1000 * (
                    if n.last - n.last2nd >= SECOND || n.last - n.last2nd <= 1000 * p.T then p.T + rng else p.T - rng)))
  {
    DrawLeaves(p, e.rawRng, rng);
    DrawLeaves(p, e.rawBackoff, backoff);
    RearmModulo(p, n.last, n.last2nd, rng, backoff, e.now + PULSE);
    hide Registers, NextTimer, Wrap, Lengthens, Draw, Leaves, Rearmed;
    if p.T >= 4 * p.Delta - 2 {
      RearmedExactly(p, e.now + PULSE, n.last - n.last2nd, rng, backoff, Step(p, n, e).deadline);
    }
  }

  /** A random word is reduced to what a division by 2*Delta leaves. */
  lemma DrawLeaves(p: Params, raw: nat, d: nat)
    requires ValidParams(p)
    ensures Leaves(raw, 2 * p.Delta, Draw(p, raw))
    ensures Leaves(raw, 2 * p.Delta, d) ==> Draw(p, raw) == d && d < 2 * p.Delta
  {
    LeavesOne(raw, 2 * p.Delta, d);
  }

  // ---------- The relative timer ----------

  /** For every draw the relative timer is exact, so the new deadline lies T plus or minus the
      random offset after the pulse whatever the backoff, if and only if T is at least
      4*Delta - 2. Below that, some draw wraps the unsigned subtraction, and the test for a
      negative value that follows it in the source can never see it. */
  lemma TimerExactIffPeriodLong(p: Params)
    requires ValidParams(p)
    ensures p.T >= 4 * p.Delta - 2 <==>
              forall lengthens: bool, rng: nat, backoff: nat :: rng < 2 * p.Delta && backoff < 2 * p.Delta ==>
                NextTimer(p, lengthens, rng, backoff) == (if lengthens then p.T + rng else p.T - rng) - backoff
  {
    if p.T >= 4 * p.Delta - 2 {
      forall lengthens: bool, rng: nat, backoff: nat | rng < 2 * p.Delta && backoff < 2 * p.Delta
        ensures NextTimer(p, lengthens, rng, backoff) == (if lengthens then p.T + rng else p.T - rng) - backoff
      {}
    } else {
      var worst: nat := 2 * p.Delta - 1;
      assert (p.T - worst) - worst < 0;
      assert NextTimer(p, false, worst, worst) != (p.T - worst) - worst;
    }
  }

  lemma DeadlineAfterAccept(p: Params, n: Node, now: nat, rng: nat, backoff: nat)
    requires ValidParams(p) && p.T >= 4 * p.Delta - 2
    requires rng < 2 * p.Delta && backoff < 2 * p.Delta
    ensures Accept(p, n, now, rng, backoff).deadline
            == Some(now + PULSE + 1000 * (if Lengthens(p, n.last, n.last2nd) then p.T + rng else p.T - rng))
  {
    TimerExactIffPeriodLong(p);
  }

  /** The period adjustment, in the source's unsigned arithmetic. */
  method AdjustPeriod(p: Params, last: nat, last2nd: nat, rng: nat) returns (nextTimer: int)
    ensures nextTimer == Wrap(if Lengthens(p, last, last2nd) then p.T + rng else p.T - rng)
  {
    var diff := last - last2nd;
    if diff >= SECOND || diff <= p.T * 1000 {
      nextTimer := Wrap(p.T + rng);
    } else {
      nextTimer := Wrap(p.T - rng);
    }
  }

  // ---------- The module's global state ----------

  class UnlockModule {
    const params: Params
    var last: nat
    var last2nd: nat
    var deadline: Option<nat>
    var quiet: bool
    var regs: seq<nat>
    var bufCounter: nat
    var clock: nat

    function State(): Node
      reads this
    {
      Node(last, last2nd, deadline, quiet, regs, bufCounter, clock)
    }

    constructor (p: Params, now: nat, counter: nat)
      requires ValidParams(p)
      ensures params == p && State() == Boot(p, now, counter)
    {
      params := p;
      last, last2nd, clock := now, 0, now;
      quiet, bufCounter := false, counter;
      deadline := Some(now + p.T * 1000);
      var r := EditContentionWindow(15);
      regs := r;
    }

    /** The list walk, the counter and the window registers, as both handlers do them. */
    method SampleBuffers(txbuf: seq<nat>)
      modifies this`bufCounter, this`regs
      ensures State() == Sample(old(State()), |txbuf|)
    {
      var size := 0;
      while size < |txbuf|
        invariant 0 <= size <= |txbuf|
      {
        size := size + 1;
      }
      bufCounter := size;
      regs := EditContentionWindow(Window(size));
    }

    method TimerHandler(now: nat, txbuf: seq<nat>)
      requires ValidParams(params) && Enabled(State(), Timer(now, |txbuf|))
      modifies this
      ensures State() == Step(params, old(State()), Timer(now, |txbuf|))
      ensures deadline.Some? && now + PULSE < deadline.value <= now + PULSE + 1000 * params.T
      ensures Congruent(deadline.value, old(deadline.value), 1000 * params.T)
    {
      hide Registers, Forward;
      ghost var k := TimerKeepsBeat(params, State(), now, |txbuf|);
      clock := now + PULSE;
      SampleBuffers(txbuf);
      deadline := Some(Forward(deadline.value, clock, params.T * 1000));
    }

    /** `relayed` tells whether the output pin was pulsed and `quietTime` how long the
        quiet bit was set. */
    method IrqHandler(now: nat, rawRng: nat, rawBackoff: nat, txbuf: seq<nat>) returns (relayed: bool, quietTime: nat)
      requires ValidParams(params) && Enabled(State(), Irq(now, rawRng, rawBackoff, |txbuf|))
      modifies this
      ensures State() == Step(params, old(State()), Irq(now, rawRng, rawBackoff, |txbuf|))
      ensures relayed == old(Relays(params, State(), Irq(now, rawRng, rawBackoff, |txbuf|)))
      ensures relayed <==> 500 * params.T <= now - old(last) < SECOND
      ensures !relayed ==> quietTime == 0 && clock == now
      ensures relayed ==> clock == now + PULSE + quietTime
      ensures relayed ==> exists backoff: nat :: Leaves(rawBackoff, 2 * params.Delta, backoff) && quietTime == 1000 * backoff
      ensures relayed ==> forall rng: nat :: Leaves(rawRng, 2 * params.Delta, rng) ==>
                            Rearmed(params, now + PULSE, old(last - last2nd), rng, clock, deadline)
    {
      hide Wrap, Draw, Lengthens, Registers, Leaves, Rearmed;
      clock := now;
      SampleBuffers(txbuf);
      var diff := now - last;
      if diff >= SECOND || diff < params.T * 500 {
        return false, 0;
      }
      deadline := None;
      clock := clock + PULSE;
      var rng := Draw(params, rawRng);
      var nextTimer := AdjustPeriod(params, last, last2nd, rng);
      last2nd := last;
      last := now;
      var backoff := Draw(params, rawBackoff);
      quiet := true;
      var quietFrom := clock;
      clock := clock + backoff * 1000;
      quietTime := clock - quietFrom;
      quiet := false;
      nextTimer := Wrap(nextTimer - backoff);
      deadline := Some(clock + Wrap(nextTimer * 1000));
      DrawLeaves(params, rawBackoff, backoff);
      DrawLeaves(params, rawRng, rng);
      RearmModulo(params, old(last), old(last2nd), rng, backoff, now + PULSE);
      forall r: nat | Leaves(rawRng, 2 * params.Delta, r) ensures r == rng {
        DrawLeaves(params, rawRng, r);
      }
      return true, quietTime;
    }
  }
}
