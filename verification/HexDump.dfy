/** The hex dump of the packet sender (`Dump` in `packetspammer/packetspammer.c`).

Output is a list of printed items: a full line with its offset, a repeat count for lines equal
to the one before, and the last, possibly empty, line. */
module HexDump {
  import opened Common

  const WIDTH: nat := 16

  datatype Item = Line(offset: nat, bytes: seq<byte>) | Repeated(count: nat) | Tail(offset: nat, bytes: seq<byte>)

  // ---------- Reading a dump ----------

  function Times(line: seq<byte>, n: nat): seq<byte> {
    if n == 0 then [] else Times(line, n - 1) + line
  }

  /** The last full line printed. */
  function LastLine(items: seq<Item>): seq<byte> {
    if items == [] then [] else
      match items[|items| - 1]
      case Line(_, bytes) => bytes
      case _ => LastLine(items[..|items| - 1])
  }

  /** The bytes a reader of the dump reconstructs. */
  function Decode(items: seq<Item>): seq<byte> {
    if items == [] then [] else
      var init := items[..|items| - 1];
      Decode(init) + match items[|items| - 1]
                     case Line(_, bytes) => bytes
                     case Repeated(n) => Times(LastLine(init), n)
                     case Tail(_, bytes) => bytes
  }

  /** Each item is in order: offsets say where their line starts, full lines have 16 bytes and
      differ from the line before them, repeat counts are positive and stand right after a line,
      and nothing follows the last line. */
  ghost predicate Proper(items: seq<Item>)
    decreases |items|
  {
    items != [] ==>
      var init := items[..|items| - 1];
      && Proper(init)
      && match items[|items| - 1]
         case Line(o, bytes) => o == |Decode(init)| && |bytes| == WIDTH && bytes != LastLine(init) && !Ended(init)
         case Repeated(n) => n > 0 && init != [] && init[|init| - 1].Line?
         case Tail(o, bytes) => o == |Decode(init)| && |bytes| < WIDTH && !Ended(init)
  }

  predicate Ended(items: seq<Item>) {
    items != [] && items[|items| - 1].Tail?
  }

  lemma AppendItem(items: seq<Item>, x: Item)
    ensures (items + [x])[..|items + [x]| - 1] == items
  {
  }

  lemma Appended(items: seq<Item>, x: Item)
    ensures LastLine(items + [x]) == if x.Line? then x.bytes else LastLine(items)
    ensures Decode(items + [x]) == Decode(items) + (if x.Repeated? then Times(LastLine(items), x.count) else x.bytes)
    ensures Proper(items + [x]) <==>
              Proper(items) && match x
                               case Line(o, bytes) => o == |Decode(items)| && |bytes| == WIDTH && bytes != LastLine(items) && !Ended(items)
                               case Repeated(n) => n > 0 && items != [] && items[|items| - 1].Line?
                               case Tail(o, bytes) => o == |Decode(items)| && |bytes| < WIDTH && !Ended(items)
  {
    AppendItem(items, x);
  }

  /** Print the repeat count, if lines have been held back. */
  function Flush(items: seq<Item>, same: nat): seq<Item> {
    if same > 0 then items + [Repeated(same)] else items
  }

  /** Items printed so far and the held-back repeats stand for `data`, whose last line they end
      with. */
  ghost predicate Stands(items: seq<Item>, same: nat, data: seq<byte>) {
    && Proper(items)
    && Decode(items) + Times(LastLine(items), same) == data
    && |data| % WIDTH == 0
    && (items != [] ==> items[|items| - 1].Line?)
    && (if data == [] then items == [] && same == 0
        else |data| >= WIDTH && LastLine(items) == data[|data| - WIDTH..])
  }

  lemma FlushStands(items: seq<Item>, same: nat, data: seq<byte>)
    requires Stands(items, same, data)
    ensures Proper(Flush(items, same)) && Decode(Flush(items, same)) == data
    ensures LastLine(Flush(items, same)) == LastLine(items)
  {
    if same > 0 {
      Appended(items, Repeated(same));
    } else {
      assert Decode(items) + Times(LastLine(items), 0) == Decode(items);
    }
  }

  lemma HoldBack(items: seq<Item>, same: nat, data: seq<byte>, line: seq<byte>)
    requires Stands(items, same, data) && data != [] && line == LastLine(items) && |line| == WIDTH
    ensures Stands(items, same + 1, data + line)
  {
    hide Decode, Proper, LastLine, Times;
    OneMoreTime(line, same);
    assert Times(line, same + 1) == Times(line, same) + line;
    assert Decode(items) + (Times(line, same) + line) == (Decode(items) + Times(line, same)) + line;
    assert (data + line)[|data + line| - WIDTH..] == line;
  }

  lemma PrintLine(items: seq<Item>, same: nat, data: seq<byte>, line: seq<byte>)
    requires Stands(items, same, data) && |line| == WIDTH && (data == [] || line != LastLine(items))
    ensures Stands(Flush(items, same) + [Line(|data|, line)], 0, data + line)
  {
    hide Decode, Proper;
    FlushStands(items, same, data);
    var flushed := Flush(items, same);
    Appended(flushed, Line(|data|, line));
    var out := flushed + [Line(|data|, line)];
    assert Decode(out) + Times(line, 0) == data + line;
    assert (data + line)[|data + line| - WIDTH..] == line;
  }

  // ---------- There is only one dump ----------

  /** The dump without its last full line. */
  function Peel(items: seq<Item>): seq<Item>
    requires items != []
  {
    var init := items[..|items| - 1];
    match items[|items| - 1]
    case Repeated(n) => if n > 1 then init + [Repeated(n - 1)] else init
    case _ => init
  }

  /** The dump with one more full line. */
  function Extend(items: seq<Item>, line: seq<byte>): seq<Item> {
    if items == [] || line != LastLine(items) then items + [Line(|Decode(items)|, line)]
    else match items[|items| - 1]
         case Repeated(n) => items[..|items| - 1] + [Repeated(n + 1)]
         case _ => items + [Repeated(1)]
  }

  lemma PeelThenExtend(items: seq<Item>)
    requires Proper(items) && items != [] && !Ended(items)
    ensures Proper(Peel(items)) && !Ended(Peel(items))
    ensures |LastLine(items)| == WIDTH
    ensures Decode(items) == Decode(Peel(items)) + LastLine(items)
    ensures items == Extend(Peel(items), LastLine(items))
  {
    hide Proper, Decode, LastLine, Extend, Peel;
    var init, x := items[..|items| - 1], items[|items| - 1];
    assert items == init + [x];
    if x.Line? { PeelLine(init, x); } else { PeelRepeat(init, x.count); }
  }

  lemma PeelLine(init: seq<Item>, x: Item)
    requires Proper(init + [x]) && x.Line?
    ensures var items := init + [x];
            && Peel(items) == init && Proper(init) && !Ended(init) && LastLine(items) == x.bytes && |x.bytes| == WIDTH
            && Decode(items) == Decode(init) + x.bytes && Extend(init, x.bytes) == items
  {
    hide Proper, Decode, LastLine;
    Appended(init, x);
    assert (init + [x])[..|init|] == init;
  }

  lemma PeelRepeat(init: seq<Item>, n: nat)
    requires Proper(init + [Repeated(n)])
    ensures var items := init + [Repeated(n)];
            && Proper(Peel(items)) && !Ended(Peel(items)) && |LastLine(items)| == WIDTH
            && Decode(items) == Decode(Peel(items)) + LastLine(items) && Extend(Peel(items), LastLine(items)) == items
  {
    hide Proper, Decode, LastLine, Times, Extend;
    var items, line := init + [Repeated(n)], LastLine(init);
    Appended(init, Repeated(n));
    assert items[..|init|] == init;
    EndsWithLine(init);
    OneMoreTime(line, n - 1);
    if n > 1 {
      Appended(init, Repeated(n - 1));
      ExtendRepeat(init, n - 1);
    } else {
      ExtendOnce(init);
      assert Times(line, 1) == line;
    }
  }

  lemma EndsWithLine(items: seq<Item>)
    requires Proper(items) && items != [] && items[|items| - 1].Line?
    ensures |LastLine(items)| == WIDTH
  {
    hide Decode;
    Appended(items[..|items| - 1], items[|items| - 1]);
  }

  lemma OneMoreTime(line: seq<byte>, n: nat)
    ensures Times(line, n + 1) == Times(line, n) + line && Times(line, 1) == line
  {
    assert Times(line, 1) == Times(line, 0) + line;
  }

  lemma ExtendRepeat(init: seq<Item>, n: nat)
    requires init != []
    ensures Extend(init + [Repeated(n)], LastLine(init)) == init + [Repeated(n + 1)]
  {
    hide Decode, LastLine;
    Appended(init, Repeated(n));
    assert (init + [Repeated(n)])[..|init|] == init;
  }

  lemma ExtendOnce(init: seq<Item>)
    requires init != [] && init[|init| - 1].Line?
    ensures Extend(init, LastLine(init)) == init + [Repeated(1)]
  {
    hide Decode, LastLine;
  }

  lemma {:induction false} FullLinesOnly(items: seq<Item>)
    requires Proper(items) && !Ended(items)
    ensures |Decode(items)| % WIDTH == 0 && (items != [] ==> |Decode(items)| >= WIDTH)
    decreases |Decode(items)|
  {
    if items != [] {
      hide Proper, LastLine, Extend, Peel, Ended;
      PeelThenExtend(items);
      FullLinesOnly(Peel(items));
    }
  }

  lemma {:induction false} BodyIsUnique(a: seq<Item>, b: seq<Item>)
    requires Proper(a) && Proper(b) && !Ended(a) && !Ended(b) && Decode(a) == Decode(b)
    ensures a == b
    decreases |Decode(a)|
  {
    FullLinesOnly(a);
    FullLinesOnly(b);
    if a != [] && b != [] {
      hide Proper, Decode, LastLine, Extend, Ended;
      PeelThenExtend(a);
      PeelThenExtend(b);
      SameSplit(Decode(Peel(a)), LastLine(a), Decode(Peel(b)), LastLine(b));
      BodyIsUnique(Peel(a), Peel(b));
    }
  }

  lemma SameSplit(x: seq<byte>, s: seq<byte>, y: seq<byte>, t: seq<byte>)
    requires x + s == y + t && |s| == |t|
    ensures x == y && s == t
  {
    assert (x + s)[..|x|] == x && (y + t)[..|y|] == y;
    assert (x + s)[|x|..] == s && (y + t)[|y|..] == t;
  }

  /** A proper dump of the bytes, with its last line. */
  ghost predicate IsDump(items: seq<Item>, data: seq<byte>) {
    Proper(items) && Ended(items) && Decode(items) == data
  }

  /** Two proper dumps that end with a last line and stand for the same bytes are the same: repeats
      are counted as far as they go, and nothing is left to choose. */
  lemma DumpIsUnique(a: seq<Item>, b: seq<Item>)
    requires Proper(a) && Proper(b) && Ended(a) && Ended(b) && Decode(a) == Decode(b)
    ensures a == b
  {
    hide Proper, Decode, LastLine;
    var a', b' := a[..|a| - 1], b[..|b| - 1];
    var s, t := a[|a| - 1].bytes, b[|b| - 1].bytes;
    assert a == a' + [a[|a| - 1]] && b == b' + [b[|b| - 1]];
    Appended(a', a[|a| - 1]);
    Appended(b', b[|b| - 1]);
    FullLinesOnly(a');
    FullLinesOnly(b');
    TailLength(|Decode(a')|, |s|, |Decode(b')|, |t|);
    SameSplit(Decode(a'), s, Decode(b'), t);
    BodyIsUnique(a', b');
  }

  lemma TailLength(x: nat, s: nat, y: nat, t: nat)
    requires x % WIDTH == 0 && y % WIDTH == 0 && s < WIDTH && t < WIDTH && x + s == y + t
    ensures s == t
  {
  }

  // ---------- The source ----------

  /** Row `r` of the two line buffers starts with `line`. */
  ghost predicate Holds(rows: array2<byte>, r: nat, line: seq<byte>)
    requires rows.Length0 == 2 && rows.Length1 == WIDTH && r < 2 && |line| <= WIDTH
    reads rows
  {
    forall k :: 0 <= k < |line| ==> rows[r, k] == line[k]
  }

  /** The two rows hold equal lines exactly when the lines are equal. */
  lemma RowsCompare(rows: array2<byte>, r: nat, line: seq<byte>, prev: seq<byte>)
    requires rows.Length0 == 2 && rows.Length1 == WIDTH && r < 2 && |line| == |prev| == WIDTH
    requires Holds(rows, r, line) && Holds(rows, 1 - r, prev)
    ensures (forall k :: 0 <= k < WIDTH ==> rows[0, k] == rows[1, k]) <==> line == prev
  {
    if line == prev {
      assert forall k :: 0 <= k < WIDTH ==> rows[r, k] == line[k] == prev[k] == rows[1 - r, k];
    } else if forall k :: 0 <= k < WIDTH ==> rows[0, k] == rows[1, k] {
      assert forall k :: 0 <= k < WIDTH ==> line[k] == rows[r, k] == rows[1 - r, k] == prev[k];
    }
  }

  /** What is done at the end of a full line: count it as a repeat, or print it. */
  method FinishLine(items: seq<Item>, same: nat, data: seq<byte>, line: seq<byte>, first: bool, equal: bool)
    returns (items': seq<Item>, same': nat)
    requires Stands(items, same, data) && |line| == WIDTH && (first <==> data == [])
    requires !first ==> (equal <==> line == LastLine(items))
    ensures Stands(items', same', data + line)
  {
    if equal && !first {
      HoldBack(items, same, data, line);
      return items, same + 1;
    }
    PrintLine(items, same, data, line);
    return Flush(items, same) + [Line(|data|, line)], 0;
  }

  /** One byte: into the row of the current line and onto the text of the line. */
  method StoreByte(rows: array2<byte>, r: nat, sz: seq<byte>, b: byte) returns (sz': seq<byte>)
    requires rows.Length0 == 2 && rows.Length1 == WIDTH && r < 2 && |sz| < WIDTH && Holds(rows, r, sz)
    modifies rows
    ensures sz' == sz + [b] && Holds(rows, r, sz')
    ensures forall q, k :: 0 <= q < 2 && 0 <= k < WIDTH && q != r ==> rows[q, k] == old(rows[q, k])
  {
    rows[r, |sz|] := b;
    sz' := sz + [rows[r, |sz|]];
  }

  /** The variables of the loop. */
  datatype Cursor = Cursor(nStart: nat, nLine: nat, first: bool, sz: seq<byte>, same: nat, out: seq<Item>)

  /** Where the loop stands before byte `n`: the current line so far is in one row, the previous
      line in the other. */
  ghost predicate InLine(rows: array2<byte>, data: seq<byte>, n: nat, c: Cursor)
    reads rows
  {
    && rows.Length0 == 2 && rows.Length1 == WIDTH
    && n <= |data| && c.nStart <= n && n - c.nStart <= WIDTH && c.nStart == WIDTH * c.nLine
    && (c.first <==> c.nLine == 0) && c.sz == data[c.nStart..n]
    && Holds(rows, 1 - c.nLine % 2, c.sz)
    && (!c.first ==> c.nStart >= WIDTH && Holds(rows, c.nLine % 2, data[c.nStart - WIDTH..c.nStart]))
  }

  /** What has been printed and counted stands for the lines finished so far. */
  ghost predicate Printed(data: seq<byte>, c: Cursor) {
    c.nStart <= |data| && Stands(c.out, c.same, data[..c.nStart])
  }

  lemma PreviousLine(data: seq<byte>, c: Cursor)
    requires Printed(data, c) && c.nStart >= WIDTH
    ensures LastLine(c.out) == data[c.nStart - WIDTH..c.nStart]
  {
    assert data[..c.nStart][c.nStart - WIDTH..] == data[c.nStart - WIDTH..c.nStart];
  }

  /** The buffers tell whether the current line repeats the previous one. */
  method Compare(rows: array2<byte>, data: seq<byte>, n: nat, c: Cursor) returns (equal: bool)
    requires InLine(rows, data, n, c) && |c.sz| == WIDTH && Printed(data, c)
    ensures !c.first ==> (equal <==> c.sz == LastLine(c.out))
  {
    if !c.first {
      PreviousLine(data, c);
      RowsCompare(rows, 1 - c.nLine % 2, c.sz, data[c.nStart - WIDTH..c.nStart]);
    }
    equal := forall k :: 0 <= k < WIDTH ==> rows[0, k] == rows[1, k];
  }

  lemma LineEnds(rows: array2<byte>, data: seq<byte>, n: nat, c: Cursor, c': Cursor)
    requires InLine(rows, data, n, c) && |c.sz| == WIDTH
    requires c' == Cursor(n, c.nLine + 1, false, [], c'.same, c'.out)
    ensures InLine(rows, data, n, c') && data[..c.nStart] + c.sz == data[..n]
  {
    assert n == WIDTH * (c.nLine + 1) && (c.nLine + 1) % 2 == 1 - c.nLine % 2;
  }

  method EndOfLine(rows: array2<byte>, data: seq<byte>, n: nat, c: Cursor) returns (c': Cursor)
    requires InLine(rows, data, n, c) && |c.sz| == WIDTH && Printed(data, c)
    ensures InLine(rows, data, n, c') && |c'.sz| == 0 && Printed(data, c')
  {
    var equal := Compare(rows, data, n, c);
    var out, same := FinishLine(c.out, c.same, data[..c.nStart], c.sz, c.first, equal);
    c' := Cursor(n, c.nLine + 1, false, [], same, out);
    LineEnds(rows, data, n, c, c');
  }

  method TakeByte(rows: array2<byte>, data: seq<byte>, n: nat, c: Cursor) returns (c': Cursor)
    requires InLine(rows, data, n, c) && |c.sz| < WIDTH && n < |data|
    modifies rows
    ensures InLine(rows, data, n + 1, c') && c' == c.(sz := c.sz + [data[n]])
  {
    var sz := StoreByte(rows, 1 - c.nLine % 2, c.sz, data[n]);
    assert sz == data[c.nStart..n + 1];
    c' := c.(sz := sz);
  }

  lemma LineFull(n: nat, start: nat, line: nat)
    requires start == WIDTH * line && start <= n < start + WIDTH
    ensures n % WIDTH == 15 <==> n + 1 - start == WIDTH
  {
  }

  /** The dump of at least one byte can be read back: it decodes to the input, every offset is
      the position of its line, and no full line repeats the one before it. */
  method Dump(data: seq<byte>) returns (out: seq<Item>)
    requires |data| > 0
    ensures IsDump(out, data)
    ensures forall other :: IsDump(other, data) ==> other == out
  {
    hide Stands, IsDump, Flush;
    var last := new byte[2, WIDTH]((_, _) => 0);
    var c := Cursor(0, 0, true, [], 0, []);
    NothingPrinted(data, c);
    var n: nat := 0;
    while n < |data|
      invariant n <= |data| && fresh(last)
      invariant InLine(last, data, n, c) && |c.sz| < WIDTH && Printed(data, c)
    {
      LineFull(n, c.nStart, c.nLine);
      c := TakeByte(last, data, n, c);
      if n % WIDTH == 15 {
        c := EndOfLine(last, data, n + 1, c);
      }
      n := n + 1;
    }
    LastItems(data, c);
    out := Flush(c.out, c.same) + [Tail(c.nStart, c.sz)];
    OnlyDump(out, data);
  }

  lemma OnlyDump(out: seq<Item>, data: seq<byte>)
    requires IsDump(out, data)
    ensures forall other :: IsDump(other, data) ==> other == out
  {
    forall other | IsDump(other, data) ensures other == out {
      DumpIsUnique(other, out);
    }
  }

  lemma NothingPrinted(data: seq<byte>, c: Cursor)
    requires c == Cursor(0, 0, true, [], 0, [])
    ensures Printed(data, c)
  {
  }

  lemma FlushNotEnded(items: seq<Item>, same: nat, data: seq<byte>)
    requires Stands(items, same, data)
    ensures !Ended(Flush(items, same))
  {
    hide Proper, Decode, LastLine, Times;
  }

  lemma LastItems(data: seq<byte>, c: Cursor)
    requires Printed(data, c) && c.sz == data[c.nStart..] && |c.sz| < WIDTH
    ensures var out := Flush(c.out, c.same) + [Tail(c.nStart, c.sz)];
            IsDump(out, data)
  {
    hide Proper, Decode, LastLine, Times;
    FlushStands(c.out, c.same, data[..c.nStart]);
    FlushNotEnded(c.out, c.same, data[..c.nStart]);
    Appended(Flush(c.out, c.same), Tail(c.nStart, c.sz));
    assert data == data[..c.nStart] + c.sz;
  }
}
