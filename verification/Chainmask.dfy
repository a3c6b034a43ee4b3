/** Spreading an antenna selection over the chains a chip has (`fill_chainmask`). */
module Chainmask {
  import opened Bits

  /** Bits of `chosen`, lowest first, put at the set positions of `cap`, lowest first. */
  function Deposit(cap: nat, chosen: nat): nat
    decreases cap
  {
    if cap == 0 then 0
    else if cap % 2 == 0 then 2 * Deposit(cap / 2, chosen)
    else chosen % 2 + 2 * Deposit(cap / 2, chosen / 2)
  }

  /** The inverse: the bits of `x` at the set positions of `cap`, packed together. */
  function Extract(cap: nat, x: nat): nat
    decreases cap
  {
    if cap == 0 then 0
    else if cap % 2 == 0 then Extract(cap / 2, x / 2)
    else x % 2 + 2 * Extract(cap / 2, x / 2)
  }

  /** Set positions of `cap` below `i`. */
  function Rank(cap: nat, i: nat): nat
    decreases i
  {
    if i == 0 then 0 else cap % 2 + Rank(cap / 2, i - 1)
  }

  function PopCount(cap: nat): nat {
    if cap == 0 then 0 else cap % 2 + PopCount(cap / 2)
  }

  lemma {:induction false} DepositZero(cap: nat)
    ensures Deposit(cap, 0) == 0
  {
    if cap > 0 { DepositZero(cap / 2); }
  }

  /** Position by position: bit `i` of the result is the bit of `chosen` whose number is the rank of
      `i` among the set positions of `cap`, and clear where `cap` is clear. */
  lemma {:induction false} DepositBits(cap: nat, chosen: nat, i: nat)
    ensures Bit(Deposit(cap, chosen), i) <==> Bit(cap, i) && Bit(chosen, Rank(cap, i))
    decreases cap, i
  {
    if cap == 0 {
      ZeroBits(i);
    } else if i > 0 {
      var d := Deposit(cap, chosen);
      if cap % 2 == 0 {
        assert d / 2 == Deposit(cap / 2, chosen);
        DepositBits(cap / 2, chosen, i - 1);
      } else {
        assert d / 2 == Deposit(cap / 2, chosen / 2);
        DepositBits(cap / 2, chosen / 2, i - 1);
      }
    } else if cap % 2 == 0 {
      assert Deposit(cap, chosen) % 2 == 0;
    } else {
      assert Deposit(cap, chosen) % 2 == chosen % 2;
    }
  }

  lemma {:induction false} DepositAtMost(cap: nat, chosen: nat)
    ensures Deposit(cap, chosen) <= cap
  {
    if cap > 0 {
      DepositAtMost(cap / 2, if cap % 2 == 0 then chosen else chosen / 2);
    }
  }

  /** Extracting what was deposited gives back as many bits as the mask has room for. */
  lemma {:induction false} RoundTrip(cap: nat, chosen: nat)
    ensures Extract(cap, Deposit(cap, chosen)) == chosen % Pow2(PopCount(cap))
    decreases cap
  {
    if cap > 0 {
      var d := Deposit(cap, chosen);
      if cap % 2 == 0 {
        assert d / 2 == Deposit(cap / 2, chosen);
        RoundTrip(cap / 2, chosen);
      } else {
        RoundTrip(cap / 2, chosen / 2);
        OddRoundTrip(cap, chosen);
      }
    }
  }

  lemma OddRoundTrip(cap: nat, chosen: nat)
    requires cap % 2 == 1
    requires Extract(cap / 2, Deposit(cap / 2, chosen / 2)) == (chosen / 2) % Pow2(PopCount(cap / 2))
    ensures Extract(cap, Deposit(cap, chosen)) == chosen % Pow2(PopCount(cap))
  {
    var d, k := Deposit(cap, chosen), PopCount(cap / 2);
    OddSteps(cap, chosen);
    assert Extract(cap, d) == chosen % 2 + 2 * ((chosen / 2) % Pow2(k));
    LowStep(k + 1, chosen);
  }

  lemma OddSteps(cap: nat, chosen: nat)
    requires cap % 2 == 1
    ensures PopCount(cap) == PopCount(cap / 2) + 1
    ensures Deposit(cap, chosen) % 2 == chosen % 2 && Deposit(cap, chosen) / 2 == Deposit(cap / 2, chosen / 2)
    ensures Extract(cap, Deposit(cap, chosen)) == chosen % 2 + 2 * Extract(cap / 2, Deposit(cap / 2, chosen / 2))
  {
  }

  /** The loop of the source. Its result is fixed bit by bit, without reference to how it is
      computed: subset of `cap`, k-th set position of `cap` set exactly when bit k of `chosen` is. */
  method FillChainmask(cap0: nat, chosen0: nat) returns (filled: nat)
    ensures forall i: nat :: Bit(filled, i) <==> Bit(cap0, i) && Bit(chosen0, Rank(cap0, i))
    ensures filled <= cap0
    ensures Extract(cap0, filled) == chosen0 % Pow2(PopCount(cap0))
  {
    var cap, chosen := cap0, chosen0;
    filled := 0;
    var i := 0;
    while cap != 0 && chosen != 0
      invariant 0 <= cap && 0 <= chosen && 0 <= filled < Pow2(i)
      invariant Deposit(cap0, chosen0) == filled + Pow2(i) * Deposit(cap, chosen)
      decreases cap
    {
      DepositTurn(filled, i, cap, chosen);
      if cap % 2 == 1 {
        if chosen % 2 == 1 {
          filled := Or(filled, Pow2(i));
        }
        chosen := chosen / 2;
      }
      i, cap := i + 1, cap / 2;
    }
    DepositZero(cap);
    assert filled == Deposit(cap0, chosen0);
    forall k: nat ensures Bit(filled, k) <==> Bit(cap0, k) && Bit(chosen0, Rank(cap0, k)) {
      DepositBits(cap0, chosen0, k);
    }
    DepositAtMost(cap0, chosen0);
    RoundTrip(cap0, chosen0);
  }

  /** One turn of the loop, in both of its branches. */
  lemma DepositTurn(filled: nat, i: nat, cap: nat, chosen: nat)
    requires filled < Pow2(i) && cap > 0
    ensures Or(filled, Pow2(i)) == filled + Pow2(i) < Pow2(i + 1)
    ensures cap % 2 == 0 ==> Pow2(i) * Deposit(cap, chosen) == Pow2(i + 1) * Deposit(cap / 2, chosen)
    ensures cap % 2 == 1 ==>
              Pow2(i) * Deposit(cap, chosen)
              == (if chosen % 2 == 1 then Pow2(i) else 0) + Pow2(i + 1) * Deposit(cap / 2, chosen / 2)
  {
    SetAbove(filled, i);
    var p, p2, d := Pow2(i), Pow2(i + 1), Deposit(cap, chosen);
    if cap % 2 == 0 {
      Spread(p, p2, d, 0, Deposit(cap / 2, chosen));
    } else {
      Spread(p, p2, d, chosen % 2, Deposit(cap / 2, chosen / 2));
    }
  }

  lemma SetAbove(filled: nat, i: nat)
    requires filled < Pow2(i)
    ensures Or(filled, Pow2(i)) == filled + Pow2(i)
  {
    ShlZero(i);
    ShlOne(i);
    OrAbove(i, filled, 0, 1);
  }

  lemma Spread(p: nat, p2: nat, d: nat, bit: nat, rest: nat)
    requires bit <= 1 && p2 == 2 * p && d == bit + 2 * rest
    ensures p * d == (if bit == 1 then p else 0) + p2 * rest
  {
    assert p * (2 * rest) == 2 * (p * rest) == p2 * rest;
  }
}
