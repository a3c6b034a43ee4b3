/** The radiotap header iterator (`packetspammer/radiotap.c`).

Offsets are counted from the start of the header. `memory` gives the byte at every offset, so
reads past the stated length have a value too. */
module Radiotap {
  import opened Common

  type Memory = nat -> byte

  /** Alignment in the upper nybble, length in the lower, for fields 0 to 13. */
  const RT_SIZES: seq<nat> :=
    [0x88, 0x11, 0x11, 0x24, 0x22, 0x11, 0x11, 0x22, 0x22, 0x22, 0x11, 0x11, 0x11, 0x11]

  const FIELDS: nat := 14
  const HEADER: nat := 8

  function Align(i: nat): (a: nat)
    requires i < FIELDS
    ensures a == 1 || a == 2 || a == 8
  {
    if i == 0 then 8 else if i == 3 || i == 4 || i == 7 || i == 8 || i == 9 then 2 else 1
  }

  function Size(i: nat): (n: nat)
    requires i < FIELDS
    ensures 1 <= n <= 8
  {
    if i == 0 then 8 else if i == 3 then 4 else if i == 4 || i == 7 || i == 8 || i == 9 then 2 else 1
  }

  /** Alignment and size are the nybbles of the source's table. */
  lemma TableEntries(i: nat)
    requires i < FIELDS
    ensures RT_SIZES[i] / 16 == Align(i) && RT_SIZES[i] % 16 == Size(i)
  {
  }

  /** The low bits of an offset that an alignment masks out: `arg & (align - 1)`. */
  function Pad(offset: nat, align: nat): (r: nat)
    requires align == 1 || align == 2 || align == 8
    ensures r < align
  {
    if align == 1 then 0 else if align == 2 then offset % 2 else offset % 8
  }

  function Half(m: Memory, o: nat): nat { m(o) + 256 * m(o + 1) }
  function Word(m: Memory, o: nat): nat { Half(m, o) + 0x10000 * Half(m, o + 2) }

  /** Bit 31 of a presence word: another presence word follows. */
  predicate Extends(word: nat) { word / 0x8000_0000 % 2 == 1 }

  /** The low `n` bits of a word, lowest first: what the shifter still holds. */
  function BitsOf(word: nat, n: nat): (s: seq<bool>)
    ensures |s| == n
  {
    if n == 0 then [] else [word % 2 == 1] + BitsOf(word / 2, n - 1)
  }

  /** Bit 0 of the shifter, and the shifter moved down by one bit. */
  predicate Low(s: seq<bool>) { |s| > 0 && s[0] }
  function Down(s: seq<bool>): seq<bool> { if |s| > 0 then s[1..] else [] }

  datatype Result = Field(index: nat, offset: nat) | NoEntry | Invalid

  datatype Iter = Iter(
    maxLength: nat,
    argIndex: nat,
    arg: nat,
    shifter: seq<bool>,
    thisIndex: nat,
    thisArg: nat)

  // ---------- One call ----------

  /** The index the iterator moves to when the field at `i` is not aligned at `arg`. The source
      adds the padding to the index instead of the argument pointer. */
  function Jump(i: nat, arg: nat): (j: nat)
    requires i < FIELDS
    ensures i <= j < FIELDS && (j > i ==> j <= 10)
    ensures j == i <==> Pad(arg, Align(i)) == 0
  {
    var pad := Pad(arg, Align(i));
    if pad != 0 then i + Align(i) - pad else i
  }

  /** `ieee80211_radiotap_iterator_next`. */
  function Next(it: Iter): (r: (Iter, Result))
    decreases FIELDS - it.argIndex
  {
    if it.argIndex >= FIELDS then (it, NoEntry)
    else if !Low(it.shifter) then Next(it.(argIndex := it.argIndex + 1, shifter := Down(it.shifter)))
    else
      var j := Jump(it.argIndex, it.arg);
      var end := it.arg + Size(j);
      var hit := it.(argIndex := j, thisIndex := j, thisArg := it.arg, arg := end);
      if end > it.maxLength then (hit, Invalid)
      else (hit.(argIndex := j + 1, shifter := Down(it.shifter)), Field(j, it.arg))
  }

  /** The iterator has run past the header: it sits on a present field beyond the end. */
  predicate Broken(it: Iter) {
    it.argIndex < FIELDS && Low(it.shifter) && it.arg > it.maxLength
  }

  /** What one call does, for every header and every state. */
  lemma {:induction false} NextIsSafe(it: Iter)
    requires it.argIndex <= FIELDS
    ensures var (it', r) := Next(it);
            && it'.maxLength == it.maxLength && it'.argIndex <= FIELDS
            && (r.Field? ==>
                  && r == Field(it'.thisIndex, it'.thisArg)
                  && it.argIndex <= r.index < it'.argIndex
                  && r.offset == it.arg && it'.arg == r.offset + Size(r.index) <= it.maxLength)
            && (r.Invalid? ==> Broken(it'))
            && (r.NoEntry? ==> it'.argIndex == FIELDS && it'.arg == it.arg)
            && (Broken(it) ==> r.Invalid?)
    decreases FIELDS - it.argIndex
  {
    if it.argIndex < FIELDS && !Low(it.shifter) {
      NextIsSafe(it.(argIndex := it.argIndex + 1, shifter := Down(it.shifter)));
    }
  }

  /** Field `i` is the first present one. */
  ghost predicate FirstPresent(it: Iter, i: nat) {
    && it.argIndex <= i < FIELDS && i - it.argIndex < |it.shifter| && it.shifter[i - it.argIndex]
    && forall k :: 0 <= k < i - it.argIndex ==> !it.shifter[k]
  }

  /** Where a call goes from there: the index moves on by exactly the bytes that would align the
      argument, less than its alignment, while the argument stays where it is; the size is that of
      the index reached, and only the bits up to the present one are used up. */
  lemma {:induction false} NextTakesFirst(it: Iter, i: nat)
    requires FirstPresent(it, i)
    ensures var (it', r) := Next(it);
            var j, used := it'.thisIndex, i - it.argIndex;
            && i <= j < i + Align(i) && j < FIELDS && (it.arg + (j - i)) % Align(i) == 0
            && it'.thisArg == it.arg && it'.arg == it.arg + Size(j) && it'.maxLength == it.maxLength
            && (if it'.arg <= it.maxLength
                then r == Field(j, it.arg) && it'.argIndex == j + 1 && it'.shifter == it.shifter[used + 1..]
                else r == Invalid && it'.argIndex == j && it'.shifter == it.shifter[used..])
    decreases i - it.argIndex
  {
    if i == it.argIndex {
      JumpAligns(i, it.arg);
    } else {
      hide Jump;
      assert !Low(it.shifter);
      var next := it.(argIndex := it.argIndex + 1, shifter := Down(it.shifter));
      assert Next(it) == Next(next);
      NextTakesFirst(next, i);
    }
  }

  lemma JumpAligns(i: nat, arg: nat)
    requires i < FIELDS
    ensures i <= Jump(i, arg) < i + Align(i) && (arg + (Jump(i, arg) - i)) % Align(i) == 0
  {
    hide Align;
    match Align(i) {
      case 1 =>
      case 2 => assert Pad(arg, 2) == arg % 2;
      case _ => assert Align(i) == 8 && Pad(arg, 8) == arg % 8;
    }
  }

  /** Without a present field a call finds the end and moves nothing but the index and the bits. */
  lemma {:induction false} NextFindsEnd(it: Iter)
    requires it.argIndex <= FIELDS
    requires forall i :: !FirstPresent(it, i)
    ensures var (it', r) := Next(it);
            r == NoEntry && it'.argIndex == FIELDS && it' == it.(argIndex := FIELDS, shifter := it'.shifter)
    decreases FIELDS - it.argIndex
  {
    if it.argIndex < FIELDS {
      assert !FirstPresent(it, it.argIndex);
      var next := it.(argIndex := it.argIndex + 1, shifter := Down(it.shifter));
      forall i: nat ensures !FirstPresent(next, i) {
        assert !FirstPresent(it, i);
      }
      NextFindsEnd(next);
    }
  }

  // ---------- Every sequence of calls ----------

  ghost function Calls(it: Iter, n: nat): (rs: seq<Result>)
    ensures |rs| == n
    decreases n
  {
    if n == 0 then [] else var (it', r) := Next(it); [r] + Calls(it', n - 1)
  }

  /** Fields number `from` and up, between `lo` and `hi`, the i-th at least `from + i`. */
  ghost predicate InRange(rs: seq<Result>, from: nat, lo: nat, hi: nat) {
    forall i :: 0 <= i < |rs| && rs[i].Field? ==>
      && from + i <= rs[i].index < FIELDS
      && lo <= rs[i].offset && rs[i].offset + Size(rs[i].index) <= hi
  }

  /** Later fields have higher numbers and lie behind earlier ones. */
  ghost predicate Ordered(rs: seq<Result>) {
    forall i, j :: 0 <= i < j < |rs| && rs[i].Field? && rs[j].Field? ==>
      && rs[i].index < rs[j].index < FIELDS
      && rs[i].offset + Size(rs[i].index) <= rs[j].offset
  }

  /** The first result that is no field is the result of every later call. */
  ghost predicate Sticky(rs: seq<Result>) {
    forall i, j :: 0 <= i < j < |rs| && !rs[i].Field? ==> rs[j] == rs[i]
  }

  /** However often the iterator is called: fields come in strictly increasing order, without
      overlap, inside the header length, at most 14 times, and a stop is final. */
  lemma CallsAreSafe(it: Iter, n: nat)
    requires it.argIndex <= FIELDS
    ensures var rs := Calls(it, n);
            && InRange(rs, it.argIndex, it.arg, it.maxLength) && Ordered(rs) && Sticky(rs)
            && forall i :: 0 <= i < n && rs[i].Field? ==> i < FIELDS
  {
    CallsInRange(it, n);
    CallsOrdered(it, n);
    CallsSticky(it, n);
  }

  lemma {:induction false} CallsInRange(it: Iter, n: nat)
    requires it.argIndex <= FIELDS
    ensures InRange(Calls(it, n), it.argIndex, it.arg, it.maxLength)
    decreases n
  {
    if n > 0 {
      var (it', r) := Next(it);
      NextIsSafe(it);
      var rest := Calls(it', n - 1);
      if r.Field? {
        CallsInRange(it', n - 1);
      } else {
        StopsForGood(it', r, n - 1);
      }
      assert forall j :: 0 < j < n ==> Calls(it, n)[j] == rest[j - 1];
    }
  }

  lemma {:induction false} CallsOrdered(it: Iter, n: nat)
    requires it.argIndex <= FIELDS
    ensures Ordered(Calls(it, n))
    decreases n
  {
    if n > 0 {
      var (it', r) := Next(it);
      NextIsSafe(it);
      CallsOrdered(it', n - 1);
      CallsInRange(it', n - 1);
      var rest := Calls(it', n - 1);
      assert forall j :: 0 < j < n ==> Calls(it, n)[j] == rest[j - 1];
    }
  }

  lemma {:induction false} CallsSticky(it: Iter, n: nat)
    requires it.argIndex <= FIELDS
    ensures Sticky(Calls(it, n))
    decreases n
  {
    if n > 0 {
      var (it', r) := Next(it);
      NextIsSafe(it);
      CallsSticky(it', n - 1);
      if !r.Field? { StopsForGood(it', r, n - 1); }
      var rest := Calls(it', n - 1);
      assert forall j :: 0 < j < n ==> Calls(it, n)[j] == rest[j - 1];
    }
  }

  lemma {:induction false} StopsForGood(it: Iter, r: Result, n: nat)
    requires (r.Invalid? && Broken(it)) || (r.NoEntry? && it.argIndex == FIELDS)
    ensures forall i :: 0 <= i < n ==> Calls(it, n)[i] == r
    decreases n
  {
    if n > 0 {
      NextIsSafe(it);
      StopsForGood(Next(it).0, r, n - 1);
    }
  }

  // ---------- Initialisation ----------

  /** Moving from offset `arg` over presence words that extend: whether they end inside the stated
      length, and where the argument pointer is then. */
  function SkipExtensions(m: Memory, arg: nat, maxLength: nat): (r: (bool, nat))
    ensures arg + 4 <= r.1
    decreases maxLength + 4 - arg
  {
    if !Extends(Word(m, arg)) then (true, arg + 4)
    else if arg + 4 > maxLength then (false, arg + 4)
    else SkipExtensions(m, arg + 4, maxLength)
  }

  /** The arguments start right after the first presence word that does not extend; the header is
      refused when the words still extend where the stated length ends. */
  lemma {:induction false} ExtensionsAreSkipped(m: Memory, arg: nat, maxLength: nat) returns (k: nat)
    ensures forall j :: 0 <= j < k ==> Extends(Word(m, arg + 4 * j))
    ensures k > 0 ==> arg + 4 * k <= maxLength
    ensures var (ok, at) := SkipExtensions(m, arg, maxLength);
            && at == arg + 4 * (k + 1)
            && (ok <==> !Extends(Word(m, arg + 4 * k)))
            && (!ok ==> at > maxLength)
    decreases maxLength + 4 - arg
  {
    hide Extends, Word;
    if !Extends(Word(m, arg)) || arg + 4 > maxLength {
      k := 0;
    } else {
      var k' := ExtensionsAreSkipped(m, arg + 4, maxLength);
      k := k' + 1;
      forall j | 0 <= j < k ensures Extends(Word(m, arg + 4 * j)) {
        if j > 0 { assert Extends(Word(m, arg + 4 + 4 * (j - 1))); }
      }
    }
  }

  /** `ieee80211_radiotap_iterator_init` on an iterator whose fields were `was`: the fields it
      leaves, and whether the header is accepted. A refused header is left where the refusal
      found it. */
  function Init(m: Memory, maxLength: int, was: Iter): (r: (Iter, bool)) {
    var len, present := Half(m, 2), Word(m, 4);
    var it := Iter(len, 0, HEADER, BitsOf(present, 32), was.thisIndex, 0);
    if m(0) != 0 || maxLength < len then (was, false)
    else if !Extends(present) then (it, true)
    else
      var (ok, at) := SkipExtensions(m, HEADER, len);
      (it.(arg := at), ok)
  }

  // ---------- Bytes read ----------

  /** How many bytes from the start of the header initialisation looks at. */
  function ReadsUpTo(m: Memory, maxLength: int): nat {
    if m(0) != 0 then 1
    else if maxLength < Half(m, 2) then 4
    else if !Extends(Word(m, 4)) then HEADER
    else SkipExtensions(m, HEADER, Half(m, 2)).1
  }

  ghost predicate SameUpTo(m: Memory, other: Memory, n: nat) {
    forall i :: 0 <= i < n ==> m(i) == other(i)
  }

  lemma {:induction false} SkipReads(m: Memory, other: Memory, arg: nat, maxLength: nat)
    requires SameUpTo(m, other, SkipExtensions(m, arg, maxLength).1)
    ensures SkipExtensions(other, arg, maxLength) == SkipExtensions(m, arg, maxLength)
    ensures SkipExtensions(m, arg, maxLength).1 <= (if arg < maxLength then maxLength else arg) + 4
    ensures !SkipExtensions(m, arg, maxLength).0 ==> SkipExtensions(m, arg, maxLength).1 > maxLength
    decreases maxLength + 4 - arg
  {
    hide Extends;
    if Extends(Word(m, arg)) && arg + 4 <= maxLength {
      SkipReads(m, other, arg + 4, maxLength);
    }
  }

  /** Initialisation depends on the first `ReadsUpTo` bytes only. A header it accepts is read up to
      its first argument, so within the stated length exactly when the first argument is; one it
      refuses for its extensions is read past the stated length. Never are more than four bytes
      past the stated length and the fixed header read. */
  lemma InitReads(m: Memory, other: Memory, maxLength: int, was: Iter)
    requires SameUpTo(m, other, ReadsUpTo(m, maxLength))
    ensures Init(other, maxLength, was) == Init(m, maxLength, was)
    ensures var len, upTo := Half(m, 2), ReadsUpTo(m, maxLength);
            var (it, ok) := Init(m, maxLength, was);
            && upTo <= (if HEADER < len then len else HEADER) + 4
            && (ok ==> upTo == it.arg)
            && (if m(0) != 0 || maxLength < len then !ok && it == was
                else it == Iter(len, 0, it.arg, BitsOf(Word(m, 4), 32), was.thisIndex, 0))
            && (!ok && m(0) == 0 && len <= maxLength ==> upTo > len)
  {
    hide Extends, BitsOf;
    if m(0) == 0 && Half(m, 2) <= maxLength && Extends(Word(m, 4)) {
      SkipReads(m, other, HEADER, Half(m, 2));
    }
  }

  /** The header with the top bit of one byte turned over. */
  ghost function Turned(m: Memory, i: nat): Memory {
    k => if k == i then (m(k) + 128) % 256 else m(k)
  }

  lemma TopBitExtends(m: Memory, o: nat)
    ensures Extends(Word(m, o)) <==> m(o + 3) >= 128
  {
    var low := Half(m, o) + 0x10000 * m(o + 2);
    assert Word(m, o) == low + 0x100_0000 * m(o + 3) && low < 0x100_0000;
  }

  lemma {:induction false} SkipReadsLast(m: Memory, arg: nat, maxLength: nat)
    ensures var (ok, at) := SkipExtensions(m, arg, maxLength);
            SkipExtensions(Turned(m, at - 1), arg, maxLength) != (ok, at)
    decreases maxLength + 4 - arg
  {
    hide Extends, Word;
    var (ok, at) := SkipExtensions(m, arg, maxLength);
    var other := Turned(m, at - 1);
    TopBitExtends(m, arg);
    TopBitExtends(other, arg);
    if Extends(Word(m, arg)) && arg + 4 <= maxLength {
      SkipReadsLast(m, arg + 4, maxLength);
    }
  }

  /** The last of these bytes is needed: with its top bit turned over the outcome is another. */
  lemma LastByteMatters(m: Memory, maxLength: int, was: Iter)
    requires m(0) == 0 && Half(m, 2) <= maxLength
    ensures Init(Turned(m, ReadsUpTo(m, maxLength) - 1), maxLength, was) != Init(m, maxLength, was)
  {
    hide BitsOf, Extends, Word;
    var other := Turned(m, ReadsUpTo(m, maxLength) - 1);
    assert Half(other, 2) == Half(m, 2);
    TopBitExtends(m, 4);
    TopBitExtends(other, 4);
    if Extends(Word(m, 4)) {
      SkipReadsLast(m, HEADER, Half(m, 2));
      assert other(7) == m(7);
    }
  }

  /** The extension loop: the argument pointer moves over presence words until one ends them. */
  method FindPayload(m: Memory, from: nat, maxLength: nat) returns (ok: bool, at: nat)
    ensures (ok, at) == SkipExtensions(m, from, maxLength)
  {
    at := from;
    while Extends(Word(m, at))
      invariant from <= at && (at <= maxLength || at == from)
      invariant SkipExtensions(m, at, maxLength) == SkipExtensions(m, from, maxLength)
      decreases maxLength + 4 - at
    {
      at := at + 4;
      if at > maxLength {
        return false, at;
      }
    }
    return true, at + 4;
  }

  // ---------- The iterator object ----------

  class Iterator {
    var maxLength: nat
    var argIndex: nat
    var arg: nat
    var shifter: seq<bool>
    var thisIndex: nat
    var thisArg: nat

    function State(): Iter
      reads this
    {
      Iter(maxLength, argIndex, arg, shifter, thisIndex, thisArg)
    }

    constructor ()
      ensures State() == Iter(0, 0, 0, [], 0, 0)
    {
      maxLength, argIndex, arg, shifter, thisIndex, thisArg := 0, 0, 0, [], 0, 0;
    }

    /** Returns 0 (true) or -EINVAL. */
    method Initialise(m: Memory, max: int) returns (ok: bool)
      modifies this
      ensures (State(), ok) == Init(m, max, old(State()))
    {
      if m(0) != 0 {
        return false;
      }
      var len, present := Half(m, 2), Word(m, 4);
      if max < len {
        return false;
      }
      maxLength := len;
      argIndex := 0;
      shifter := BitsOf(present, 32);
      arg := HEADER;
      thisArg := 0;
      ok := true;
      if Extends(present) {
        ok, arg := FindPayload(m, HEADER, len);
      }
    }

    /** The loop of the source. Its branch for a completed presence word is never reached. */
    method Advance() returns (r: Result)
      requires argIndex <= FIELDS
      modifies this
      ensures (State(), r) == Next(old(State()))
    {
      while argIndex < FIELDS
        invariant argIndex <= FIELDS
        invariant Next(State()) == Next(old(State()))
        decreases FIELDS - argIndex
      {
        var hit := false;
        if Low(shifter) {
          var pad := Pad(arg, Align(argIndex));
          if pad != 0 {
            argIndex := argIndex + (Align(argIndex) - pad);
          }
          thisIndex := argIndex;
          thisArg := arg;
          hit := true;
          arg := arg + Size(argIndex);
          if arg > maxLength {
            return Invalid;
          }
        }
        argIndex := argIndex + 1;
        if argIndex % 32 == 0 {
          assert false;
        }
        shifter := Down(shifter);
        if hit {
          return Field(thisIndex, thisArg);
        }
      }
      return NoEntry;
    }
  }
}
