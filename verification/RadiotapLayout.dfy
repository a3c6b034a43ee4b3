/** The iterator against the radiotap layout: fields in bit order, each at the next offset that
is a multiple of its alignment, counted from the start of the header. */
module RadiotapLayout {
  import opened Common
  import opened Radiotap
  import Bits

  /** The next offset that meets an alignment. */
  function AlignUp(offset: nat, a: nat): (r: nat)
    requires a == 1 || a == 2 || a == 8
    ensures offset <= r < offset + a && Pad(r, a) == 0
    ensures r == offset <==> Pad(offset, a) == 0
  {
    var pad := Pad(offset, a);
    if pad == 0 then offset else offset + a - pad
  }

  /** What a reader of the format finds from field `i` at `offset` on: the known fields present
      in `bits`, then the end, or an error when a field does not fit. */
  function Layout(bits: seq<bool>, i: nat, offset: nat, maxLength: nat): seq<Result>
    decreases FIELDS - i
  {
    if i >= FIELDS then [NoEntry]
    else if !Low(bits) then Layout(Down(bits), i + 1, offset, maxLength)
    else
      var at := AlignUp(offset, Align(i));
      if at + Size(i) > maxLength then [Invalid]
      else [Field(i, at)] + Layout(Down(bits), i + 1, at + Size(i), maxLength)
  }

  /** What calling the iterator until it stops yields. */
  function Walk(it: Iter): (rs: seq<Result>)
    ensures |rs| > 0
    decreases FIELDS - it.argIndex
  {
    if it.argIndex >= FIELDS then [NoEntry] else
      NextIsSafe(it);
      var (it', r) := Next(it);
      if r.Field? then [r] + Walk(it') else [r]
  }

  /** Where the iterator stands once it has stopped. */
  function WalkEnd(it: Iter): Iter
    decreases FIELDS - it.argIndex
  {
    if it.argIndex >= FIELDS then it else
      NextIsSafe(it);
      var (it', r) := Next(it);
      if r.Field? then WalkEnd(it') else it'
  }

  /** The first present field that needs padding is one the iterator still fits, under the wrong
      index, into the header. */
  predicate Misplaces(bits: seq<bool>, i: nat, offset: nat, maxLength: nat)
    decreases FIELDS - i
  {
    i < FIELDS &&
    if !Low(bits) then Misplaces(Down(bits), i + 1, offset, maxLength)
    else if Pad(offset, Align(i)) != 0 then offset + Size(Jump(i, offset)) <= maxLength
    else offset + Size(i) <= maxLength && Misplaces(Down(bits), i + 1, offset + Size(i), maxLength)
  }

  lemma SkipAbsent(it: Iter)
    requires it.argIndex < FIELDS && !Low(it.shifter)
    ensures Walk(it) == Walk(it.(argIndex := it.argIndex + 1, shifter := Down(it.shifter)))
    ensures WalkEnd(it) == WalkEnd(it.(argIndex := it.argIndex + 1, shifter := Down(it.shifter)))
  {
    var it2 := it.(argIndex := it.argIndex + 1, shifter := Down(it.shifter));
    assert Next(it) == Next(it2);
  }

  /** A misplaced field always ends no later than the padded one would. */
  lemma JumpEndsEarlier(i: nat, offset: nat)
    requires i < FIELDS && Pad(offset, Align(i)) != 0
    ensures offset + Size(Jump(i, offset)) <= AlignUp(offset, Align(i)) + Size(i)
  {
  }

  /** The iterator's walk as one recursion over the fields. */
  function Scan(bits: seq<bool>, i: nat, arg: nat, maxLength: nat): seq<Result>
    decreases FIELDS - i
  {
    if i >= FIELDS then [NoEntry]
    else if !Low(bits) then Scan(Down(bits), i + 1, arg, maxLength)
    else
      var j := Jump(i, arg);
      if arg + Size(j) > maxLength then [Invalid]
      else [Field(j, arg)] + Scan(Down(bits), j + 1, arg + Size(j), maxLength)
  }

  lemma {:induction false} WalkIsScan(it: Iter)
    requires it.argIndex <= FIELDS
    ensures Walk(it) == Scan(it.shifter, it.argIndex, it.arg, it.maxLength)
    decreases FIELDS - it.argIndex
  {
    hide Align, Size, Pad, Low, Down, Jump;
    if it.argIndex < FIELDS {
      if !Low(it.shifter) {
        SkipAbsent(it);
        WalkIsScan(it.(argIndex := it.argIndex + 1, shifter := Down(it.shifter)));
      } else if it.arg + Size(Jump(it.argIndex, it.arg)) <= it.maxLength {
        WalkIsScan(Next(it).0);
      }
    }
  }

  /** An absent field changes nothing but the index. */
  lemma AbsentField(bits: seq<bool>, i: nat, arg: nat, maxLength: nat)
    requires i < FIELDS && !Low(bits)
    ensures Scan(bits, i, arg, maxLength) == Scan(Down(bits), i + 1, arg, maxLength)
    ensures Layout(bits, i, arg, maxLength) == Layout(Down(bits), i + 1, arg, maxLength)
    ensures Misplaces(bits, i, arg, maxLength) <==> Misplaces(Down(bits), i + 1, arg, maxLength)
  {
    hide Align, Size, Pad, Low, Down, Jump, AlignUp;
  }

  /** A present field that needs padding: either it is misplaced, or neither reader can fit it. */
  lemma PaddedField(bits: seq<bool>, i: nat, arg: nat, maxLength: nat)
    requires i < FIELDS && Low(bits) && Pad(arg, Align(i)) != 0
    ensures Scan(bits, i, arg, maxLength) == Layout(bits, i, arg, maxLength) <==> !Misplaces(bits, i, arg, maxLength)
  {
    JumpEndsEarlier(i, arg);
    hide Align, Size, Pad, Low, Down, Jump, AlignUp;
    if Misplaces(bits, i, arg, maxLength) {
      assert Scan(bits, i, arg, maxLength)[0] != Layout(bits, i, arg, maxLength)[0];
    }
  }

  /** A present field in its place is read alike by both. */
  lemma AlignedField(bits: seq<bool>, i: nat, arg: nat, maxLength: nat)
    requires i < FIELDS && Low(bits) && Pad(arg, Align(i)) == 0
    ensures Scan(bits, i, arg, maxLength)
            == if arg + Size(i) > maxLength then [Invalid]
               else [Field(i, arg)] + Scan(Down(bits), i + 1, arg + Size(i), maxLength)
    ensures Layout(bits, i, arg, maxLength)
            == if arg + Size(i) > maxLength then [Invalid]
               else [Field(i, arg)] + Layout(Down(bits), i + 1, arg + Size(i), maxLength)
    ensures Misplaces(bits, i, arg, maxLength)
            <==> arg + Size(i) <= maxLength && Misplaces(Down(bits), i + 1, arg + Size(i), maxLength)
  {
    hide Align, Size, Pad, Low, Down, Jump, AlignUp;
  }

  lemma {:induction false} ScanFollowsLayoutIff(bits: seq<bool>, i: nat, arg: nat, maxLength: nat)
    requires i <= FIELDS
    ensures Scan(bits, i, arg, maxLength) == Layout(bits, i, arg, maxLength) <==> !Misplaces(bits, i, arg, maxLength)
    decreases FIELDS - i
  {
    if i == FIELDS {
    } else {
      hide *;
      if !Low(bits) {
        AbsentField(bits, i, arg, maxLength);
        ScanFollowsLayoutIff(Down(bits), i + 1, arg, maxLength);
      } else if Pad(arg, Align(i)) != 0 {
        PaddedField(bits, i, arg, maxLength);
      } else {
        AlignedField(bits, i, arg, maxLength);
        var rest := Down(bits);
        ScanFollowsLayoutIff(rest, i + 1, arg + Size(i), maxLength);
        SameTails(Field(i, arg), Scan(rest, i + 1, arg + Size(i), maxLength), Layout(rest, i + 1, arg + Size(i), maxLength));
      }
    }
  }

  lemma SameTails(r: Result, a: seq<Result>, b: seq<Result>)
    ensures [r] + a == [r] + b <==> a == b
  {
    assert ([r] + a)[1..] == a && ([r] + b)[1..] == b;
  }

  /** The iterator follows the layout exactly when it misplaces nothing. */
  lemma FollowsLayoutIff(it: Iter)
    requires it.argIndex <= FIELDS
    ensures Walk(it) == Layout(it.shifter, it.argIndex, it.arg, it.maxLength)
            <==> !Misplaces(it.shifter, it.argIndex, it.arg, it.maxLength)
  {
    WalkIsScan(it);
    ScanFollowsLayoutIff(it.shifter, it.argIndex, it.arg, it.maxLength);
  }

  /** The same for a whole header: parsed from its bytes, the iterator reports the fields of the
      layout if and only if it misplaces none. */
  lemma HeaderFollowsLayoutIff(m: Memory, maxLength: int, was: Iter)
    requires Init(m, maxLength, was).1
    ensures var it := Init(m, maxLength, was).0;
            Walk(it) == Layout(BitsOf(Word(m, 4), 32), 0, it.arg, Half(m, 2))
            <==> !Misplaces(BitsOf(Word(m, 4), 32), 0, it.arg, Half(m, 2))
  {
    FollowsLayoutIff(Init(m, maxLength, was).0);
  }

  /** A header of 14 bytes with flags and channel only: the channel needs one byte of padding, and
      the iterator reports it as the FHSS field, one byte early. */
  lemma PaddedChannelIsMisread(payload: seq<byte>, maxLength: int, was: Iter)
    requires |payload| == 6 && maxLength >= 14
    ensures var m := At([0, 0, 14, 0, 10, 0, 0, 0] + payload);
            var (it, ok) := Init(m, maxLength, was);
            && ok && it.arg == 8 && Half(m, 2) == 14
            && Walk(it) == [Field(1, 8), Field(4, 9), NoEntry]
            && Layout(BitsOf(Word(m, 4), 32), 0, 8, 14) == [Field(1, 8), Field(3, 10), NoEntry]
            && Misplaces(BitsOf(Word(m, 4), 32), 0, 8, 14)
  {
    var m := At([0, 0, 14, 0, 10, 0, 0, 0] + payload);
    ChannelHeader(payload, maxLength, was);
    var it := Init(m, maxLength, was).0;
    ChannelBits(28);
    hide Init, Half, Word, At, Scan, Layout, Misplaces, Walk, BitsOf;
    WalkIsScan(it);
    ChannelStep(it.shifter, it.maxLength);
    FollowsLayoutIff(it);
    assert [Field(1, 8), Field(4, 9), NoEntry][1] != [Field(1, 8), Field(3, 10), NoEntry][1];
  }

  lemma ChannelHeader(payload: seq<byte>, maxLength: int, was: Iter)
    requires |payload| == 6 && maxLength >= 14
    ensures var m := At([0, 0, 14, 0, 10, 0, 0, 0] + payload);
            && Half(m, 2) == 14 && Word(m, 4) == 10
            && Init(m, maxLength, was) == (Iter(14, 0, 8, BitsOf(10, 32), was.thisIndex, 0), true)
  {
    hide BitsOf;
    var m := At([0, 0, 14, 0, 10, 0, 0, 0] + payload);
    assert m(0) == 0 && m(2) == 14 && m(3) == 0;
    assert m(4) == 10 && m(5) == 0 && m(6) == 0 && m(7) == 0;
  }

  /** Bits 1 and 3 are set, and no others. */
  ghost predicate FlagsAndChannel(bits: seq<bool>) {
    |bits| >= 4 && bits[..4] == [false, true, false, true] && Clear(bits[4..])
  }

  ghost predicate Clear(bits: seq<bool>) {
    forall k :: 0 <= k < |bits| ==> !bits[k]
  }

  lemma {:induction false} ZeroIsClear(n: nat)
    ensures Clear(BitsOf(0, n))
  {
    if n > 0 { ZeroIsClear(n - 1); }
  }

  lemma BitsStep(word: nat, n: nat)
    ensures BitsOf(word, n + 1) == [word % 2 == 1] + BitsOf(word / 2, n)
  {
  }

  lemma ChannelBits(n: nat)
    ensures FlagsAndChannel(BitsOf(10, n + 4))
  {
    hide BitsOf;
    ZeroIsClear(n);
    BitsStep(1, n);
    BitsStep(2, n + 1);
    BitsStep(5, n + 2);
    BitsStep(10, n + 3);
    assert BitsOf(10, n + 4) == [false, true, false, true] + BitsOf(0, n);
  }

  lemma ChannelStep(bits: seq<bool>, maxLength: nat)
    requires FlagsAndChannel(bits) && maxLength >= 14
    ensures Scan(bits, 0, 8, maxLength) == [Field(1, 8), Field(4, 9), NoEntry]
    ensures Layout(bits, 0, 8, maxLength) == [Field(1, 8), Field(3, 10), NoEntry]
  {
    hide Low, Down, FlagsAndChannel, Scan, Layout, Misplaces, Clear;
    ChannelLows(bits);
    var tail := Down(Down(bits));
    ChannelTail(tail, maxLength);
    AbsentField(bits, 0, 8, maxLength);
    AlignedField(Down(bits), 1, 8, maxLength);
  }

  lemma ChannelLows(bits: seq<bool>)
    requires FlagsAndChannel(bits)
    ensures !Low(bits) && Low(Down(bits))
    ensures var tail := Down(Down(bits));
            |tail| >= 2 && !tail[0] && tail[1] && Clear(tail[2..])
  {
    assert !bits[..4][0] && bits[..4][1] && !bits[..4][2] && bits[..4][3];
    assert Down(Down(bits)) == bits[2..] && bits[2..][2..] == bits[4..];
  }

  lemma ChannelTail(bits: seq<bool>, maxLength: nat)
    requires |bits| >= 2 && !bits[0] && bits[1] && Clear(bits[2..]) && maxLength >= 14
    ensures Scan(bits, 2, 9, maxLength) == [Field(4, 9), NoEntry]
    ensures Layout(bits, 2, 9, maxLength) == [Field(3, 10), NoEntry]
  {
    hide Misplaces, Scan, Layout, Clear;
    assert Down(bits) == bits[1..] && Down(Down(bits)) == bits[2..];
    AbsentField(bits, 2, 9, maxLength);
    FittingField(Down(bits), 3, 9, maxLength);
    NothingLeft(bits[2..], 5, 11, maxLength);
    NothingLeft(bits[2..], 4, 14, maxLength);
  }

  /** A present field, as the iterator and as the layout take it. */
  lemma FittingField(bits: seq<bool>, i: nat, offset: nat, maxLength: nat)
    requires i < FIELDS && Low(bits)
    ensures var j := Jump(i, offset);
            offset + Size(j) <= maxLength ==>
              Scan(bits, i, offset, maxLength) == [Field(j, offset)] + Scan(Down(bits), j + 1, offset + Size(j), maxLength)
    ensures var at := AlignUp(offset, Align(i));
            at + Size(i) <= maxLength ==>
              Layout(bits, i, offset, maxLength) == [Field(i, at)] + Layout(Down(bits), i + 1, at + Size(i), maxLength)
  {
    hide Size, Align, Down, Low, Pad, Jump, AlignUp;
  }

  lemma {:induction false} NothingLeft(bits: seq<bool>, i: nat, offset: nat, maxLength: nat)
    requires Clear(bits)
    ensures Layout(bits, i, offset, maxLength) == Scan(bits, i, offset, maxLength) == [NoEntry]
    decreases FIELDS - i
  {
    if i < FIELDS { NothingLeft(Down(bits), i + 1, offset, maxLength); }
  }

  // ---------- Round trip ----------

  datatype Slot = Absent | Present(bytes: seq<byte>)

  /** A value for each of the known fields, of the length the size table gives. */
  predicate WellSized(fields: seq<Slot>) {
    |fields| == FIELDS && forall i :: 0 <= i < FIELDS && fields[i].Present? ==> |fields[i].bytes| == Size(i)
  }

  function Mask(fields: seq<Slot>, i: nat): (m: nat)
    requires i <= |fields|
    decreases |fields| - i
  {
    if i == |fields| then 0 else (if fields[i].Present? then 1 else 0) + 2 * Mask(fields, i + 1)
  }

  function Payload(fields: seq<Slot>, i: nat): seq<byte>
    requires i <= |fields|
    decreases |fields| - i
  {
    if i == |fields| then [] else
      (if fields[i].Present? then fields[i].bytes else []) + Payload(fields, i + 1)
  }

  /** Laid out back to back from `offset`, every present field is already aligned. */
  predicate NeedsNoPadding(fields: seq<Slot>, i: nat, offset: nat)
    requires WellSized(fields) && i <= FIELDS
    decreases FIELDS - i
  {
    i < FIELDS ==>
      if fields[i].Present?
      then Pad(offset, Align(i)) == 0 && NeedsNoPadding(fields, i + 1, offset + Size(i))
      else NeedsNoPadding(fields, i + 1, offset)
  }

  lemma {:induction false} Bounds(fields: seq<Slot>, i: nat)
    requires WellSized(fields) && i <= FIELDS
    ensures |Payload(fields, i)| <= 8 * (FIELDS - i)
    ensures Mask(fields, i) < Bits.Pow2(FIELDS - i)
    decreases FIELDS - i
  {
    if i < FIELDS { Bounds(fields, i + 1); }
  }

  lemma MaskFitsTwoBytes(fields: seq<Slot>)
    requires WellSized(fields)
    ensures |Payload(fields, 0)| <= 112 && Mask(fields, 0) < 0x4000
  {
    Bounds(fields, 0);
    Bits.Pow2Values();
    assert Bits.Pow2(12) == 4096 && Bits.Pow2(14) == 0x4000;
  }

  /** The header a writer produces: version 0, total length, presence word, values. */
  function Encode(fields: seq<Slot>): (h: seq<byte>)
    requires WellSized(fields)
  {
    MaskFitsTwoBytes(fields);
    var payload, mask := Payload(fields, 0), Mask(fields, 0);
    [0, 0, HEADER + |payload|, 0, mask % 256, mask / 256, 0, 0] + payload
  }

  function At(s: seq<byte>): Memory {
    (o: nat) => if o < |s| then s[o] else 0
  }

  /** Index and bytes of each field reported. */
  function Read(s: seq<byte>, rs: seq<Result>): seq<(nat, seq<byte>)> {
    if rs == [] || !rs[0].Field? then []
    else (match rs[0] case Field(i, o) =>
            if i < FIELDS && o + Size(i) <= |s| then [(i, s[o..o + Size(i)])] else [(i, [])])
         + Read(s, rs[1..])
  }

  function Values(fields: seq<Slot>, i: nat): seq<(nat, seq<byte>)>
    requires i <= |fields|
    decreases |fields| - i
  {
    if i == |fields| then [] else
      (if fields[i].Present? then [(i, fields[i].bytes)] else []) + Values(fields, i + 1)
  }

  lemma {:induction false} WalkReadsValues(fields: seq<Slot>, s: seq<byte>, it: Iter)
    requires WellSized(fields) && it.argIndex <= FIELDS && it.shifter == BitsOf(Mask(fields, it.argIndex), 32 - it.argIndex)
    requires it.maxLength == |s| && it.arg <= |s| && s[it.arg..] == Payload(fields, it.argIndex)
    requires NeedsNoPadding(fields, it.argIndex, it.arg)
    ensures Read(s, Walk(it)) == Values(fields, it.argIndex)
    ensures Walk(it)[|Walk(it)| - 1] == NoEntry && WalkEnd(it).arg == |s|
    decreases FIELDS - it.argIndex
  {
    var i := it.argIndex;
    if i < FIELDS {
      MaskStep(fields, i);
      if fields[i].Present? {
        Split(s, it.arg, fields[i].bytes, Payload(fields, i + 1));
        var it' := Next(it).0;
        WalkReadsValues(fields, s, it');
        ReadsOne(fields, s, it);
      } else {
        SkipAbsent(it);
        assert Payload(fields, i) == Payload(fields, i + 1);
        WalkReadsValues(fields, s, it.(argIndex := i + 1, shifter := Down(it.shifter)));
        assert Values(fields, i) == Values(fields, i + 1);
      }
    }
  }

  lemma MaskStep(fields: seq<Slot>, i: nat)
    requires i < |fields| <= 31
    ensures var bits := BitsOf(Mask(fields, i), 32 - i);
            (Low(bits) <==> fields[i].Present?) && Down(bits) == BitsOf(Mask(fields, i + 1), 31 - i)
  {
    assert Mask(fields, i) / 2 == Mask(fields, i + 1);
  }

  lemma Split(s: seq<byte>, o: nat, a: seq<byte>, b: seq<byte>)
    requires o <= |s| && s[o..] == a + b
    ensures o + |a| <= |s| && s[o..o + |a|] == a && s[o + |a|..] == b
  {
    assert |s[o..]| == |a| + |b|;
    assert s[o..o + |a|] == s[o..][..|a|];
    assert s[o + |a|..] == s[o..][|a|..];
  }

  lemma ReadsOne(fields: seq<Slot>, s: seq<byte>, it: Iter)
    requires WellSized(fields) && it.argIndex < FIELDS && Low(it.shifter)
    requires Pad(it.arg, Align(it.argIndex)) == 0 && it.arg + Size(it.argIndex) <= it.maxLength == |s|
    ensures var it' := Next(it).0;
            && Read(s, Walk(it)) == [(it.argIndex, s[it.arg..it.arg + Size(it.argIndex)])] + Read(s, Walk(it'))
            && Walk(it)[|Walk(it)| - 1] == Walk(it')[|Walk(it')| - 1] && WalkEnd(it) == WalkEnd(it')
  {
    hide Align, Size, Pad, Low, Down, Jump;
    var it' := Next(it).0;
    assert Next(it).1 == Field(it.argIndex, it.arg);
    hide Next;
    assert Walk(it) == [Field(it.argIndex, it.arg)] + Walk(it');
    assert Walk(it)[1..] == Walk(it');
  }

  /** Writing values that need no padding and iterating over the header gives the same values in
      the same order, then the end, with the cursor at the header length. */
  lemma RoundTrip(fields: seq<Slot>, maxLength: int, was: Iter)
    requires WellSized(fields) && NeedsNoPadding(fields, 0, HEADER)
    requires maxLength >= |Encode(fields)|
    ensures var s := Encode(fields);
            var (it, ok) := Init(At(s), maxLength, was);
            && ok
            && Read(s, Walk(it)) == Values(fields, 0)
            && Walk(it)[|Walk(it)| - 1] == NoEntry
            && WalkEnd(it).arg == |s|
  {
    EncodedHeader(fields, maxLength, was);
    hide *;
    var s := Encode(fields);
    WalkReadsValues(fields, s, Init(At(s), maxLength, was).0);
  }

  lemma EncodedHeader(fields: seq<Slot>, maxLength: int, was: Iter)
    requires WellSized(fields) && maxLength >= |Encode(fields)|
    ensures var s := Encode(fields);
            && Init(At(s), maxLength, was) == (Iter(|s|, 0, HEADER, BitsOf(Mask(fields, 0), 32), was.thisIndex, 0), true)
            && HEADER <= |s| && s[HEADER..] == Payload(fields, 0)
  {
    hide Payload, Mask, BitsOf;
    MaskFitsTwoBytes(fields);
    var s := Encode(fields);
    assert Half(At(s), 2) == |s| && Word(At(s), 4) == Mask(fields, 0);
  }
}
