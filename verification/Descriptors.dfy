/** The DMA descriptor allocator of the ath9k driver (`ath_descdma_setup`).

A buffer's descriptor must not start in the last 128 bytes of a 4 KB page, because
the hardware fetches 32 double words at once. The driver first guesses how much extra
memory the skipped addresses will cost, then places the buffers greedily. This module
models both loops, with the 32-bit length of the source, and settles exactly when the
guess is large enough.
 */
module Descriptors {
  import opened Bits

  const PAGE := 4096

  datatype Buffer = Buffer(desc: nat, daddr: nat)
  datatype Status = Success | NoMemory | BugOn

  // ---------- Over-allocation ----------

  lemma NextSkipShrinks(skipped: nat, descLen: nat)
    requires descLen < PAGE
    ensures skipped != 0 ==> skipped * descLen / PAGE < skipped
    ensures PAGE * (skipped * descLen / PAGE) <= skipped * descLen <= skipped * PAGE
  {
    assert skipped * descLen <= skipped * PAGE;
    if skipped != 0 {
      assert skipped * descLen < skipped * PAGE;
    }
  }

  /** How many extra descriptors the over-allocation loop grants in all, when the
      first estimate is `skipped`. */
  function Extra(skipped: nat, descLen: nat): nat
    requires descLen < PAGE
    decreases skipped
  {
    NextSkipShrinks(skipped, descLen);
    if skipped == 0 then 0 else skipped + Extra(skipped * descLen / PAGE, descLen)
  }

  /** The allocation length in exact arithmetic. */
  function TotalLength(initial: nat, descLen: nat): nat
    requires descLen < PAGE
  {
    initial + descLen * Extra(initial / PAGE, descLen)
  }

  lemma ModAbsorbs(a: int, b: int)
    ensures (a % U32 + b) % U32 == (a + b) % U32
  {
    var q := a / U32;
    assert a + b == (a % U32 + b) + q * U32;
    ModShift(a % U32 + b, q);
  }

  lemma ModShift(a: int, q: int)
    ensures (a + q * U32) % U32 == a % U32
  {
    var k := a / U32;
    assert a + q * U32 == (k + q) * U32 + a % U32;
  }

  /** The loop of the source on its 32-bit variables: it terminates and leaves the
      exact total, reduced to 32 bits. */
  method OverAllocate(initial: nat, descLen: nat) returns (len: nat)
    requires descLen < PAGE && initial < U32
    ensures len == TotalLength(initial, descLen) % U32
  {
    len := initial;
    var skipped := initial / PAGE;
    while skipped != 0
      invariant 0 <= skipped <= U32 / PAGE && 0 <= len < U32
      invariant Remaining(len, skipped, descLen) == Remaining(initial, initial / PAGE, descLen)
      decreases skipped
    {
      OverAllocateStep(len, skipped, descLen);
      var dmaLen := (skipped * descLen) % U32;
      len := (len + dmaLen) % U32;
      skipped := dmaLen / PAGE;
    }
  }

  /** What the loop will have computed once the remaining estimates are added. */
  ghost function Remaining(len: nat, skipped: nat, descLen: nat): nat
    requires descLen < PAGE
  {
    (len + descLen * Extra(skipped, descLen)) % U32
  }

  lemma OverAllocateStep(len: nat, skipped: nat, descLen: nat)
    requires descLen < PAGE && 0 < skipped <= U32 / PAGE
    ensures (skipped * descLen) % U32 == skipped * descLen
    ensures skipped * descLen / PAGE < skipped
    ensures Remaining((len + skipped * descLen) % U32, skipped * descLen / PAGE, descLen)
            == Remaining(len, skipped, descLen)
  {
    hide Extra;
    NextSkipShrinks(skipped, descLen);
    var grant := skipped * descLen;
    assert grant < U32 by { assert grant < skipped * PAGE <= U32; }
    ExtraStep(skipped, descLen);
    var rest := Extra(grant / PAGE, descLen);
    MulDistributes(descLen, skipped, rest);
    ModAbsorbs(len + grant, descLen * rest);
  }

  lemma ExtraStep(skipped: nat, descLen: nat)
    requires descLen < PAGE && skipped > 0
    ensures Extra(skipped, descLen) == skipped + Extra(skipped * descLen / PAGE, descLen)
  {
  }

  lemma MulDistributes(a: int, b: int, c: int)
    ensures a * (b + c) == a * b + a * c && a * b == b * a
  {
  }

  /** With descriptors of a whole page the estimate never shrinks: once it is positive the loop of
      the source goes on for ever. */
  lemma PageSizedNeverEnds(skipped: nat)
    requires skipped < U32 / PAGE
    ensures (skipped * PAGE) % U32 / PAGE == skipped
  {
  }

  /** The loop never grants more than one extra descriptor per page of the final length. */
  lemma {:induction false} ExtraAtMostOnePerPage(initial: nat, descLen: nat)
    requires descLen < PAGE
    ensures PAGE * Extra(initial / PAGE, descLen) <= TotalLength(initial, descLen)
  {
    ExtraBound(initial / PAGE, descLen);
  }

  lemma {:induction false} ExtraBound(skipped: nat, descLen: nat)
    requires descLen < PAGE
    ensures PAGE * Extra(skipped, descLen) <= PAGE * skipped + descLen * Extra(skipped, descLen)
    decreases skipped
  {
    if skipped != 0 {
      NextSkipShrinks(skipped, descLen);
      var next := skipped * descLen / PAGE;
      ExtraBound(next, descLen);
      var rest := Extra(next, descLen);
      assert Extra(skipped, descLen) == skipped + rest;
      assert descLen * (skipped + rest) == descLen * skipped + descLen * rest;
    }
  }

  // ---------- Placement ----------

  /** ATH_DESC_4KB_BOUND_CHECK: a 128-byte fetch at this address would leave its page. */
  predicate Crosses(addr: nat) {
    addr % PAGE > 0xF7F
  }

  /** The check looks at 129 bytes: it refuses one address more than a 128-byte fetch needs, the last
      one from which such a fetch just stays in its page. */
  lemma CrossesIff(addr: nat)
    ensures Crosses(addr) <==> addr / PAGE != (addr + 128) / PAGE
    ensures Crosses(addr) && addr / PAGE == (addr + 127) / PAGE <==> addr % PAGE == PAGE - 128
  {
    var p, r := addr / PAGE, addr % PAGE;
    assert addr == p * PAGE + r;
    OffsetPage(p, r, 127);
    OffsetPage(p, r, 128);
  }

  lemma OffsetPage(p: nat, r: nat, d: nat)
    requires r < PAGE && d < PAGE
    ensures (p * PAGE + r + d) / PAGE == if r + d < PAGE then p else p + 1
  {
  }

  /** Slot number `s`, counted in strides from the start of the region, may hold a buffer. */
  predicate Usable(split: bool, base: nat, stride: nat, s: nat) {
    split || !Crosses(base + s * stride)
  }

  ghost predicate Increasing(s: seq<nat>) {
    forall i, j :: 0 <= i < j < |s| ==> s[i] < s[j]
  }

  /** `slots` lists, in order, exactly the usable slots below `next`. */
  ghost predicate Greedy(split: bool, base: nat, stride: nat, slots: seq<nat>, next: nat) {
    && Increasing(slots)
    && (forall i :: 0 <= i < |slots| ==> slots[i] < next && Usable(split, base, stride, slots[i]))
    && (forall s: nat :: s < next && Usable(split, base, stride, s) ==> s in slots)
  }

  ghost predicate BuffersAt(base: nat, stride: nat, slots: seq<nat>, bufs: seq<Buffer>) {
    && |bufs| == |slots|
    && forall i :: 0 <= i < |bufs| ==> bufs[i] == Buffer(slots[i] * stride, base + slots[i] * stride)
  }

  /** What placing `nbuf` buffers in a region of `len` bytes must leave behind. The loop
      hits its BUG_ON when it stands on a forbidden address at or past the end. */
  ghost predicate Placed(split: bool, base: nat, stride: nat, nbuf: nat, len: nat,
                         slots: seq<nat>, next: nat, bug: bool)
  {
    && Greedy(split, base, stride, slots, next)
    && (forall s: nat :: s < next && !Usable(split, base, stride, s) ==> s * stride < len)
    && (!bug ==> |slots| == nbuf && (if nbuf == 0 then next == 0 else next == slots[nbuf - 1] + 1))
    && (bug ==> |slots| < nbuf && !Usable(split, base, stride, next) && next * stride >= len)
  }

  lemma GreedyEmpty(split: bool, base: nat, stride: nat)
    ensures Greedy(split, base, stride, [], 0)
  {
  }

  lemma GreedySkip(split: bool, base: nat, stride: nat, slots: seq<nat>, next: nat)
    requires Greedy(split, base, stride, slots, next) && !Usable(split, base, stride, next)
    ensures Greedy(split, base, stride, slots, next + 1)
  {
    forall s: nat | s < next + 1 && Usable(split, base, stride, s) ensures s in slots {
      assert s != next;
    }
  }

  lemma GreedyTake(split: bool, base: nat, stride: nat, slots: seq<nat>, next: nat)
    requires Greedy(split, base, stride, slots, next) && Usable(split, base, stride, next)
    ensures Greedy(split, base, stride, slots + [next], next + 1)
  {
    var taken := slots + [next];
    forall s: nat | s < next + 1 && Usable(split, base, stride, s) ensures s in taken {
      if s == next { assert taken[|slots|] == next; }
    }
  }

  /** The placement loop: `ds` walks the region one stride at a time. */
  method PlaceBuffers(split: bool, base: nat, stride: nat, nbuf: nat, len: nat)
    returns (bufs: seq<Buffer>, bug: bool, ghost slots: seq<nat>, ghost next: nat)
    requires stride > 0
    ensures BuffersAt(base, stride, slots, bufs)
    ensures Placed(split, base, stride, nbuf, len, slots, next, bug)
  {
    hide Greedy, Crosses;
    bufs, bug, slots, next := [], false, [], 0;
    GreedyEmpty(split, base, stride);
    var ds := 0;
    var i := 0;
    while i < nbuf
      invariant 0 <= i <= nbuf && i == |bufs| && ds == next * stride && !bug
      invariant BuffersAt(base, stride, slots, bufs)
      invariant Placed(split, base, stride, i, len, slots, next, false)
      decreases nbuf - i
    {
      var bf := Buffer(ds, base + ds);
      if !split {
        while Crosses(bf.daddr)
          invariant ds == next * stride && bf == Buffer(ds, base + ds)
          invariant Greedy(split, base, stride, slots, next)
          invariant forall s: nat :: s < next && !Usable(split, base, stride, s) ==> s * stride < len
          decreases len + 1 - ds
        {
          assert !Usable(split, base, stride, next);
          if bf.desc >= len {
            return bufs, true, slots, next;
          }
          GreedySkip(split, base, stride, slots, next);
          assert (next + 1) * stride == ds + stride;
          ds, next := ds + stride, next + 1;
          bf := Buffer(ds, base + ds);
        }
      }
      GreedyTake(split, base, stride, slots, next);
      bufs, slots := bufs + [bf], slots + [next];
      assert (next + 1) * stride == ds + stride;
      ds, next, i := ds + stride, next + 1, i + 1;
    }
  }

  /** For strides of 128 to 3968 bytes two neighbouring slots are never both forbidden. */
  lemma NoTwoForbidden(base: nat, stride: nat, s: nat)
    requires 128 <= stride <= 3968
    ensures Usable(false, base, stride, s) || Usable(false, base, stride, s + 1)
  {
    var a := base + s * stride;
    assert base + (s + 1) * stride == a + stride by { assert (s + 1) * stride == s * stride + stride; }
    if Crosses(a) {
      var p := a / PAGE;
      var r := a % PAGE + stride - PAGE;
      assert a + stride == (p + 1) * PAGE + r;
      assert (a + stride) % PAGE == r;
    }
  }

  lemma FetchStaysInPage(addr: nat)
    requires !Crosses(addr)
    ensures addr / PAGE == (addr + 127) / PAGE
  {
    assert addr + 127 == (addr / PAGE) * PAGE + (addr % PAGE + 127);
  }

  lemma SlotsApart(a: nat, b: nat, stride: nat)
    requires a < b
    ensures a * stride + stride <= b * stride
  {
    MulDistributes(stride, a, b - a);
    MulDistributes(stride, 1, b - a - 1);
    MulDistributes(stride, b, 0);
  }

  lemma AtMostOneSkip(base: nat, stride: nat, slots: seq<nat>, next: nat, i: nat)
    requires 128 <= stride <= 3968 && Greedy(false, base, stride, slots, next) && i < |slots|
    ensures 0 <= slots[i] - (if i == 0 then 0 else slots[i - 1] + 1) <= 1
  {
    var from := if i == 0 then 0 else slots[i - 1] + 1;
    NoTwoForbidden(base, stride, from);
    if Usable(false, base, stride, from) {
      NothingBetween(false, base, stride, slots, next, i, from);
    } else {
      NothingBetween(false, base, stride, slots, next, i, from + 1);
    }
  }

  /** What the source promises of every placement: buffers in address order, at most one
      address skipped before each, none overlapping, and each fetch inside one page. */
  lemma PlacementIsSafe(base: nat, stride: nat, slots: seq<nat>, next: nat, bufs: seq<Buffer>)
    requires 128 <= stride <= 3968
    requires Greedy(false, base, stride, slots, next) && BuffersAt(base, stride, slots, bufs)
    ensures forall i :: 0 <= i < |slots| ==> 0 <= slots[i] - (if i == 0 then 0 else slots[i - 1] + 1) <= 1
    ensures forall i, j :: 0 <= i < j < |bufs| ==> bufs[i].desc + stride <= bufs[j].desc
    ensures forall i :: 0 <= i < |bufs| ==> bufs[i].daddr / PAGE == (bufs[i].daddr + 127) / PAGE
  {
    forall i | 0 <= i < |slots|
      ensures 0 <= slots[i] - (if i == 0 then 0 else slots[i - 1] + 1) <= 1
    {
      AtMostOneSkip(base, stride, slots, next, i);
    }
    forall i, j | 0 <= i < j < |bufs| ensures bufs[i].desc + stride <= bufs[j].desc {
      SlotsApart(slots[i], slots[j], stride);
    }
    forall i | 0 <= i < |bufs| ensures bufs[i].daddr / PAGE == (bufs[i].daddr + 127) / PAGE {
      FetchStaysInPage(bufs[i].daddr);
    }
  }

  /** No usable slot lies strictly between consecutive placements. */
  lemma NothingBetween(split: bool, base: nat, stride: nat, slots: seq<nat>, next: nat, i: nat, s: nat)
    requires Greedy(split, base, stride, slots, next) && i < |slots|
    requires i > 0 ==> slots[i - 1] < s
    requires Usable(split, base, stride, s)
    ensures slots[i] <= s
  {
    assert s < slots[i] ==> s in slots;
  }

  /** The usable slots below `next` fix the placement: two greedy placements of the same
      number of buffers are the same. */
  lemma {:induction false} GreedyUnique(split: bool, base: nat, stride: nat, a: seq<nat>, na: nat, b: seq<nat>, nb: nat, i: nat)
    requires Greedy(split, base, stride, a, na) && Greedy(split, base, stride, b, nb)
    requires i < |a| && i < |b|
    ensures a[i] == b[i]
  {
    if i > 0 { GreedyUnique(split, base, stride, a, na, b, nb, i - 1); }
    NothingBetween(split, base, stride, a, na, i, b[i]);
    NothingBetween(split, base, stride, b, nb, i, a[i]);
  }

  // ---------- 128-byte descriptors on a page-aligned region ----------

  lemma Usable128(base: nat, s: nat)
    requires base % PAGE == 0
    ensures Usable(false, base, 128, s) <==> s % 32 != 31
  {
    PageOffset(base / PAGE, s / 32, s % 32);
  }

  lemma PageOffset(page: nat, q: nat, r: nat)
    requires r < 32
    ensures (PAGE * page + 128 * (32 * q + r)) % PAGE == 128 * r
  {
    var a := PAGE * page + 128 * (32 * q + r);
    assert a == PAGE * (page + q) + 128 * r;
  }

  /** 31 buffers per page: buffer `i` sits in slot `i + i/31`. */
  lemma {:induction false} Slot128(base: nat, slots: seq<nat>, next: nat, i: nat)
    requires base % PAGE == 0 && Greedy(false, base, 128, slots, next) && i < |slots|
    ensures slots[i] == i + i / 31
  {
    var s := i + i / 31;
    SlotArithmetic(i);
    Usable128(base, s);
    Usable128(base, slots[i]);
    if i == 0 {
      NothingBetween(false, base, 128, slots, next, i, s);
    } else {
      Slot128(base, slots, next, i - 1);
      NothingBetween(false, base, 128, slots, next, i, s);
    }
  }

  /** Consecutive slots are neighbours, except that the last slot of a page is left out. */
  lemma SlotArithmetic(i: nat)
    ensures (i + i / 31) % 32 != 31
    ensures i > 0 ==> var before := i - 1 + (i - 1) / 31;
                      i + i / 31 == before + 1 || (i + i / 31 == before + 2 && (before + 1) % 32 == 31)
  {
    var q, r := i / 31, i % 31;
    assert i == 31 * q + r && i + q == 32 * q + r;
    if i > 0 {
      if r > 0 {
        assert (i - 1) / 31 == q;
      } else {
        assert i - 1 == 31 * (q - 1) + 30 && (i - 1) / 31 == q - 1;
      }
    }
  }

  /** Sum of the digits of `n` written in base 32. */
  function DigitSum(n: nat): nat {
    if n == 0 then 0 else n % 32 + DigitSum(n / 32)
  }

  lemma {:induction false} DigitSumPositive(n: nat)
    requires n > 0
    ensures DigitSum(n) > 0
  {
    if n >= 32 { DigitSumPositive(n / 32); }
  }

  /** Legendre's formula in base 32, for the sum the over-allocation loop computes. */
  lemma {:induction false} Legendre(n: nat)
    ensures 31 * Extra(n / 32, 128) == n - DigitSum(n)
    decreases n
  {
    var m := n / 32;
    if n != 0 {
      if m == 0 {
        assert DigitSum(n) == n % 32 + DigitSum(0);
      } else {
        Legendre(m);
        assert m * 128 / PAGE == m / 32;
      }
    }
  }

  lemma Length128(n: nat)
    ensures TotalLength(128 * n, 128) == 128 * (n + Extra(n / 32, 128))
  {
    PagesOf(n);
  }

  /** For every pool whose descriptors fit an `int`, the 32-bit length is the exact one. */
  lemma LengthDoesNotWrap(n: nat)
    requires 128 * n < U32 / 2
    ensures TotalLength(128 * n, 128) < U32 && TotalLength(128 * n, 128) % U32 == TotalLength(128 * n, 128)
  {
    Length128(n);
    Legendre(n);
  }

  lemma PagesOf(n: nat)
    ensures 128 * n / PAGE == n / 32
  {
    var q, r := n / 32, n % 32;
    assert 128 * n == PAGE * q + 128 * r;
  }

  /** The allocation guess is large enough for `n` buffers exactly when the base-32 digits
      of `n` add up to at most 31. */
  lemma GuessSuffices(base: nat, slots: seq<nat>, next: nat, bufs: seq<Buffer>)
    requires base % PAGE == 0
    requires Greedy(false, base, 128, slots, next) && BuffersAt(base, 128, slots, bufs)
    ensures (forall i :: 0 <= i < |bufs| ==> bufs[i].desc + 128 <= TotalLength(128 * |bufs|, 128))
            <==> DigitSum(|bufs|) <= 31
  {
    var n := |bufs|;
    if n > 0 {
      Slot128(base, slots, next, n - 1);
      LastSlotFits(n);
      assert bufs[n - 1].desc + 128 == 128 * (n + (n - 1) / 31);
      forall i | 0 <= i < n ensures bufs[i].desc <= bufs[n - 1].desc {
        assert slots[i] <= slots[n - 1];
      }
    }
  }

  lemma LastSlotFits(n: nat)
    requires n > 0
    ensures 128 * (n + (n - 1) / 31) <= TotalLength(128 * n, 128) <==> DigitSum(n) <= 31
  {
    Length128(n);
    Legendre(n);
    LastSlotArithmetic(n, Extra(n / 32, 128), DigitSum(n));
  }

  lemma LastSlotArithmetic(n: nat, extra: nat, sum: nat)
    requires n > 0 && 31 * extra == n - sum
    ensures 128 * (n + (n - 1) / 31) <= 128 * (n + extra) <==> sum <= 31
  {
    var q, r := (n - 1) / 31, (n - 1) % 31;
    assert n - 1 == 31 * q + r;
  }

  /** When the guess falls short, the BUG_ON in the skip loop catches it exactly for these
      digit sums; for every other sum above 31 the last buffers lie past the end unnoticed. */
  predicate Caught(digitSum: nat) {
    digitSum > 0 && (digitSum - 1) / 31 >= (digitSum - 1) % 31 + 2
  }

  lemma CaughtArithmetic(n: nat)
    requires n > 0
    ensures Caught(DigitSum(n)) <==> 128 * (32 * ((n - 1) / 31) - 1) >= TotalLength(128 * n, 128)
  {
    Length128(n);
    Legendre(n);
    DigitSumPositive(n);
    CaughtOnNumbers(n, Extra(n / 32, 128), DigitSum(n));
  }

  lemma CaughtOnNumbers(n: nat, extra: nat, sum: nat)
    requires n > 0 && sum > 0 && 31 * extra == n - sum
    ensures Caught(sum) <==> 128 * (32 * ((n - 1) / 31) - 1) >= 128 * (n + extra)
  {
    var q, r := (n - 1) / 31, (n - 1) % 31;
    assert n - 1 == 31 * q + r;
    assert sum - 1 == 31 * (q - extra) + r;
    assert (sum - 1) / 31 == q - extra && (sum - 1) % 31 == r;
  }

  lemma BugMeansLate(n: nat, placed: nat, next: nat)
    requires placed < n && placed == next - next / 32 && next % 32 == 31
    ensures next <= 32 * ((n - 1) / 31) - 1
  {
    assert placed == 31 * (next / 32 + 1);
  }

  lemma BugExactlyWhenCaught(base: nat, n: nat, slots: seq<nat>, next: nat, bug: bool)
    requires base % PAGE == 0
    requires Placed(false, base, 128, n, TotalLength(128 * n, 128), slots, next, bug)
    ensures bug <==> Caught(DigitSum(n))
  {
    if n == 0 {
    } else if bug {
      CaughtArithmetic(n);
      Usable128(base, next);
      NextAfter(base, slots, next);
      BugMeansLate(n, |slots|, next);
    } else {
      NoBugWhenOnTime(base, n, TotalLength(128 * n, 128), slots, next);
      CaughtArithmetic(n);
    }
  }

  lemma NoBugWhenOnTime(base: nat, n: nat, len: nat, slots: seq<nat>, next: nat)
    requires base % PAGE == 0 && n > 0
    requires Placed(false, base, 128, n, len, slots, next, false)
    ensures 128 * (32 * ((n - 1) / 31) - 1) < len || n <= 31
  {
    var q := (n - 1) / 31;
    if q > 0 {
      Slot128(base, slots, next, n - 1);
      var f: nat := 32 * q - 1;
      assert f % 32 == 31 && f < next by { assert f == 32 * (q - 1) + 31; }
      Usable128(base, f);
    }
  }

  /** Every slot below `next` is either used or the last of its page. */
  lemma {:induction false} NextAfter(base: nat, slots: seq<nat>, next: nat)
    requires base % PAGE == 0 && Greedy(false, base, 128, slots, next)
    ensures |slots| == next - next / 32
  {
    var k := |slots|;
    var s := k + k / 31;
    SlotArithmetic(k);
    Usable128(base, s);
    forall j | 0 <= j < k ensures slots[j] < s {
      Slot128(base, slots, next, j);
    }
    if k > 0 { Slot128(base, slots, next, k - 1); }
    CountBelow(k, next);
  }

  lemma CountBelow(k: nat, next: nat)
    requires k > 0 ==> k - 1 + (k - 1) / 31 < next
    requires next <= k + k / 31
    ensures k == next - next / 32
  {
    var q, r := k / 31, k % 31;
    assert k == 31 * q + r;
    if r > 0 {
      assert (k - 1) / 31 == q;
      assert next == 32 * q + r;
    } else if k > 0 {
      assert k - 1 == 31 * (q - 1) + 30 && (k - 1) / 31 == q - 1;
    }
  }

  /** The pool sizes that matter: the driver's 80 transmit buffers and the default 512 fit. 63 is the
      smallest pool that does not fit, and its overrun goes unnoticed, as does every other one
      below 2047, the smallest pool the BUG_ON stops. */
  lemma PoolSizes()
    ensures DigitSum(80) <= 31 && DigitSum(512) <= 31
    ensures forall n: nat :: n < 63 ==> DigitSum(n) <= 31
    ensures DigitSum(63) > 31
    ensures forall n: nat :: n < 2047 ==> !Caught(DigitSum(n))
    ensures Caught(DigitSum(2047))
  {
    forall n: nat | n < 63 ensures DigitSum(n) <= 31 { ShortSums(n); }
    ShortSums(80);
    ShortSums(512);
    ShortSums(63);
    ShortSums(2047);
    forall n: nat | n < 2047 ensures !Caught(DigitSum(n)) { ShortSums(n); }
  }

  lemma ShortSums(n: nat)
    requires n <= 2047
    ensures n < 1024 ==> DigitSum(n) == n % 32 + n / 32
    ensures n >= 1024 ==> DigitSum(n) == n % 32 + (n / 32 - 32) + 1
  {
    var m := n / 32;
    OneDigit(m % 32);
    if n < 1024 {
      OneDigit(m);
    } else {
      assert m / 32 == 1 && m % 32 == m - 32;
      OneDigit(1);
    }
  }

  lemma OneDigit(n: nat)
    requires n < 32
    ensures DigitSum(n) == n
  {
  }

  // ---------- The whole set-up ----------

  ghost predicate LaidAs(split: bool, base: nat, stride: nat, nbuf: nat, len: nat,
                         bufs: seq<Buffer>, bug: bool, slots: seq<nat>, next: nat)
  {
    BuffersAt(base, stride, slots, bufs) && Placed(split, base, stride, nbuf, len, slots, next, bug)
  }

  /** The verdict on a whole set-up with 128-byte descriptors, one per buffer, on a page-aligned
      region: where every buffer lands, when the source stops on its own check, and when all
      buffers lie inside the region. */
  lemma SetupVerdict(base: nat, n: nat, bufs: seq<Buffer>, bug: bool, slots: seq<nat>, next: nat)
    requires base % PAGE == 0
    requires LaidAs(false, base, 128, n, TotalLength(128 * n, 128), bufs, bug, slots, next)
    ensures forall i :: 0 <= i < |bufs| ==> bufs[i] == Buffer(128 * (i + i / 31), base + 128 * (i + i / 31))
    ensures bug <==> Caught(DigitSum(n))
    ensures !bug ==> |bufs| == n
    ensures DigitSum(n) <= 31 <==>
              !bug && forall i :: 0 <= i < |bufs| ==> bufs[i].desc + 128 <= TotalLength(128 * n, 128)
  {
    Positions128(base, slots, next, bufs);
    BugExactlyWhenCaught(base, n, slots, next, bug);
    NotCaughtWhenSmall(DigitSum(n));
    if !bug {
      GuessSuffices(base, slots, next, bufs);
    }
  }

  lemma NotCaughtWhenSmall(digitSum: nat)
    ensures digitSum <= 31 ==> !Caught(digitSum)
  {
  }

  lemma Positions128(base: nat, slots: seq<nat>, next: nat, bufs: seq<Buffer>)
    requires base % PAGE == 0
    requires Greedy(false, base, 128, slots, next) && BuffersAt(base, 128, slots, bufs)
    ensures forall i :: 0 <= i < |bufs| ==> bufs[i] == Buffer(128 * (i + i / 31), base + 128 * (i + i / 31))
  {
    forall i | 0 <= i < |bufs|
      ensures bufs[i] == Buffer(128 * (i + i / 31), base + 128 * (i + i / 31))
    {
      Slot128(base, slots, next, i);
    }
  }

  /** `struct ath_descdma` and the list the caller hands in. */
  class DescDma {
    var descLen: nat
    var paddr: nat
    var buffers: seq<Buffer>

    constructor ()
      ensures descLen == 0 && paddr == 0 && buffers == []
    {
      descLen, paddr, buffers := 0, 0, [];
    }

    /** `ath_descdma_setup` once the descriptor length is known. `dma` and `kzallocOk` are the
        outcomes of the two allocations. */
    method Setup(split: bool, descLen0: nat, nbuf: nat, ndesc: nat, dma: bool, dmaAddr: nat, kzallocOk: bool)
      returns (status: Status, ghost slots: seq<nat>, ghost next: nat)
      requires 0 < descLen0 && 0 < ndesc && descLen0 * nbuf * ndesc < U32 / 2
      requires split || descLen0 < PAGE
      modifies this
      ensures descLen0 % 4 != 0 ==> status == BugOn && buffers == [] && descLen == old(descLen) && paddr == old(paddr)
      ensures descLen0 % 4 == 0 ==>
                descLen == (if split then descLen0 * nbuf * ndesc else TotalLength(descLen0 * nbuf * ndesc, descLen0) % U32)
      ensures descLen0 % 4 == 0 ==> (status == NoMemory <==> !dma || !kzallocOk)
      ensures status == NoMemory ==> buffers == []
      ensures descLen0 % 4 == 0 && status != NoMemory ==>
                && paddr == dmaAddr
                && LaidAs(split, dmaAddr, descLen0 * ndesc, nbuf, descLen, buffers, status == BugOn, slots, next)
    {
      buffers, slots, next := [], [], 0;
      if descLen0 % 4 != 0 {
        return BugOn, slots, next;
      }
      var total := descLen0 * nbuf * ndesc;
      descLen := total;
      if !split {
        descLen := OverAllocate(total, descLen0);
      }
      if !dma {
        return NoMemory, slots, next;
      }
      paddr := dmaAddr;
      if !kzallocOk {
        return NoMemory, slots, next;
      }
      assert descLen0 * ndesc > 0;
      var bufs, bug;
      bufs, bug, slots, next := PlaceBuffers(split, dmaAddr, descLen0 * ndesc, nbuf, descLen);
      buffers := bufs;
      status := if bug then BugOn else Success;
    }
  }

  /** Setting up a pool of `n` transmit buffers with 128-byte descriptors, one each, on a region the
      allocator has placed on a page: the source's own 32-bit run and its verdict. */
  method SetupPool(n: nat, dmaAddr: nat) returns (dd: DescDma, status: Status)
    requires 128 * n < U32 / 2 && dmaAddr % PAGE == 0
    ensures fresh(dd) && status != NoMemory
    ensures status == BugOn <==> Caught(DigitSum(n))
    ensures forall i :: 0 <= i < |dd.buffers| ==>
              dd.buffers[i] == Buffer(128 * (i + i / 31), dmaAddr + 128 * (i + i / 31))
    ensures status == Success ==> |dd.buffers| == n
    ensures DigitSum(n) <= 31 <==>
              status == Success && forall i :: 0 <= i < |dd.buffers| ==> dd.buffers[i].desc + 128 <= dd.descLen
  {
    dd := new DescDma();
    ghost var slots, next;
    status, slots, next := dd.Setup(false, 128, n, 1, true, dmaAddr, true);
    RunVerdict(dmaAddr, n, dd.descLen, dd.buffers, status == BugOn, slots, next);
    hide *;
  }

  lemma RunVerdict(base: nat, n: nat, len: nat, bufs: seq<Buffer>, bug: bool, slots: seq<nat>, next: nat)
    requires base % PAGE == 0 && 128 * n < U32 / 2
    requires len == TotalLength(128 * n * 1, 128) % U32
    requires LaidAs(false, base, 128 * 1, n, len, bufs, bug, slots, next)
    ensures forall i :: 0 <= i < |bufs| ==> bufs[i] == Buffer(128 * (i + i / 31), base + 128 * (i + i / 31))
    ensures bug <==> Caught(DigitSum(n))
    ensures !bug ==> |bufs| == n
    ensures DigitSum(n) <= 31 <==> !bug && forall i :: 0 <= i < |bufs| ==> bufs[i].desc + 128 <= len
  {
    hide LaidAs, TotalLength, DigitSum, Caught;
    LengthDoesNotWrap(n);
    assert 128 * n * 1 == 128 * n && 128 * 1 == 128;
    assert len == TotalLength(128 * n, 128);
    SetupVerdict(base, n, bufs, bug, slots, next);
  }
}
