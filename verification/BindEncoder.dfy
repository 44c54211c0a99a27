/** A bind-stream encoder, and the round trip through the interpreter.

    As mach-o/loader.h describes the format, a column is only encoded when it changes, and entries
    at a constant distance become one counted opcode. */
module BindEncoder {
  import opened Memory
  import opened LoaderState
  import opened Uleb
  import opened BindStream

  /** One row of the conceptual bind table. */
  datatype Entry = Entry(name: Name, segment: nat, offset: u64)
  {
    predicate Valid() {
      segment < 0x10 && 0 !in name
    }

    /** The row `skip` bytes past the pointer of this one. */
    function Follower(skip: nat): Entry {
      this.(offset := Wrap64(offset + POINTER_SIZE + skip))
    }
  }

  /** The interpreter registers, as the encoder tracks them. */
  datatype Columns = Columns(symbol: Option<Name>, segIndex: int, segOffset: u64)

  function ColumnsOf(m: Machine): Columns {
    Columns(m.symbol, m.segIndex, m.segOffset)
  }

  /** The table the loader should build. */
  function Expected(segments: seq<SegmentInfo>, table: seq<Entry>): (r: seq<BindInfo>)
    ensures |r| == |table|
  {
    seq(|table|, i requires 0 <= i < |table| =>
      BindInfo(Some(table[i].name), BindAddress(segments, table[i].segment, table[i].offset)))
  }

  /** The opcodes that change the columns to those of `e`. */
  function SetColumns(c: Columns, e: Entry): seq<Op> {
    (if c.symbol == Some(e.name) then [] else [SetSymbol(0, e.name)])
    + (if c.segIndex != e.segment then [SetSegmentAndOffset(e.segment, EncodeUleb(e.offset))]
       else if c.segOffset == e.offset then []
       else [AddAddr(0, EncodeUleb(Wrap64(e.offset - c.segOffset)))])
  }

  /** How many leading rows each follow the one before at the same distance. */
  function RunLength(table: seq<Entry>, skip: nat): (n: nat)
    ensures n <= |table| && (table != [] ==> 0 < n)
    decreases |table|
  {
    if |table| <= 1 then |table|
    else if table[1] == table[0].Follower(skip) then 1 + RunLength(table[1..], skip)
    else 1
  }

  /** The distance from the first row's pointer to the second row. */
  function FirstSkip(table: seq<Entry>): u64 {
    if |table| <= 1 then 0 else Wrap64(table[1].offset - table[0].offset - POINTER_SIZE)
  }

  function BindOp(count: nat, skip: u64): Op {
    if count == 1 then DoBind(0) else DoBindTimes(0, EncodeUleb(count), EncodeUleb(skip))
  }

  /** The offset after a run of `count` pointers, each followed by `skip` bytes. */
  function Advance(offset: u64, count: nat, skip: nat): u64
    decreases count, skip
  {
    if count == 0 then offset else Advance(Wrap64(offset + POINTER_SIZE + skip), count - 1, skip)
  }

  function EncodeTable(c: Columns, table: seq<Entry>): seq<Op>
    decreases |table|
  {
    if table == [] then []
    else
      var skip := FirstSkip(table);
      var n := RunLength(table, skip);
      var after := Columns(Some(table[0].name), table[0].segment,
                           Advance(table[0].offset, n, if n == 1 then 0 else skip));
      SetColumns(c, table[0]) + ([BindOp(n, skip)] + EncodeTable(after, table[n..]))
  }

  ghost predicate ValidTable(table: seq<Entry>) {
    |table| < TWO64 && forall k :: 0 <= k < |table| ==> table[k].Valid()
  }

  lemma OperandIs(n: u64)
    ensures Terminated(EncodeUleb(n)) && Operand(EncodeUleb(n)) == n
  {
    TenBytesSuffice(n);
  }

  lemma DeltaReaches(from: u64, to: u64)
    ensures Wrap64(from + Wrap64(to - from)) == to
  {
    WrapAdd(to - from, from);
  }

  lemma ColumnsSet(segments: seq<SegmentInfo>, m: Machine, e: Entry)
    requires e.Valid()
    ensures AllValid(SetColumns(ColumnsOf(m), e))
    ensures ExecAll(segments, SetColumns(ColumnsOf(m), e), m)
         == m.(symbol := Some(e.name), segIndex := e.segment, segOffset := e.offset)
  {
    hide Terminated, Operand, Wrap64;
    var c := ColumnsOf(m);
    var name := if c.symbol == Some(e.name) then [] else [SetSymbol(0, e.name)];
    var place := if c.segIndex != e.segment then [SetSegmentAndOffset(e.segment, EncodeUleb(e.offset))]
       else if c.segOffset == e.offset then []
       else [AddAddr(0, EncodeUleb(Wrap64(e.offset - c.segOffset)))];
    OperandIs(e.offset);
    OperandIs(Wrap64(e.offset - c.segOffset));
    DeltaReaches(c.segOffset, e.offset);
    ExecAppend(segments, name, place, m);
    assert ExecAll(segments, name, m) == m.(symbol := Some(e.name));
  }

  lemma {:induction false} RunMatches(segments: seq<SegmentInfo>, m: Machine, table: seq<Entry>, skip: nat)
    requires table != []
    requires ColumnsOf(m) == Columns(Some(table[0].name), table[0].segment, table[0].offset)
    ensures var n := RunLength(table, skip);
      EmitRun(segments, m, n, skip)
        == m.(table := m.table + Expected(segments, table[..n]), segOffset := Advance(m.segOffset, n, skip))
    decreases |table|
  {
    hide BindAddress, Wrap64;
    var n := RunLength(table, skip);
    var m' := Emit(segments, m, skip);
    assert Expected(segments, table[..1]) == m'.table[|m.table|..];
    if n > 1 {
      RunMatches(segments, m', table[1..], skip);
      assert table[..n] == table[..1] + table[1..][..n - 1];
      ExpectedSplits(segments, table[..n], 1);
      assert table[..n][..1] == table[..1] && table[..n][1..] == table[1..][..n - 1];
    } else {
      assert EmitRun(segments, m', 0, skip) == m' && Advance(m'.segOffset, 0, skip) == m'.segOffset;
    }
  }

  lemma BindOpValid(n: nat, skip: u64)
    requires 0 < n < TWO64
    ensures BindOp(n, skip).Valid()
  {
    OperandIs(n);
    OperandIs(skip);
  }

  /** One bind opcode expands to the leading run of rows. */
  lemma BindOpExpands(segments: seq<SegmentInfo>, m: Machine, table: seq<Entry>, skip: u64)
    requires table != [] && |table| < TWO64
    requires ColumnsOf(m) == Columns(Some(table[0].name), table[0].segment, table[0].offset)
    ensures var n := RunLength(table, skip);
      Exec(segments, BindOp(n, skip), m)
        == m.(table := m.table + Expected(segments, table[..n]),
              segOffset := Advance(m.segOffset, n, if n == 1 then 0 else skip))
  {
    hide BindAddress, Wrap64, Operand;
    var n := RunLength(table, skip);
    RunMatches(segments, m, table, skip);
    OperandIs(n);
    OperandIs(skip);
    if n == 1 {
      assert Advance(Wrap64(m.segOffset + POINTER_SIZE + 0), 0, 0) == Wrap64(m.segOffset + POINTER_SIZE + 0);
      assert EmitRun(segments, Emit(segments, m, skip), 0, skip) == Emit(segments, m, skip);
    }
  }

  lemma ExecAround(segments: seq<SegmentInfo>, a: seq<Op>, op: Op, rest: seq<Op>, m: Machine)
    ensures ExecAll(segments, a + ([op] + rest), m)
         == ExecAll(segments, rest, Exec(segments, op, ExecAll(segments, a, m)))
  {
    ExecAppend(segments, a, [op] + rest, m);
    assert ([op] + rest)[1..] == rest;
  }

  /** What `EncodeTable` emits before the rest of the table, and the columns it leaves. */
  lemma LeadingRunExpands(segments: seq<SegmentInfo>, m: Machine, table: seq<Entry>, n: nat, op: Op, m2: Machine)
    requires ValidTable(table) && table != []
    requires n == RunLength(table, FirstSkip(table)) && op == BindOp(n, FirstSkip(table))
    requires m2 == Exec(segments, op, ExecAll(segments, SetColumns(ColumnsOf(m), table[0]), m))
    ensures AllValid(SetColumns(ColumnsOf(m), table[0])) && op.Valid()
    ensures m2.table == m.table + Expected(segments, table[..n])
    ensures EncodeTable(ColumnsOf(m), table)
         == SetColumns(ColumnsOf(m), table[0]) + ([op] + EncodeTable(ColumnsOf(m2), table[n..]))
  {
    hide BindAddress, Wrap64, Exec, ExecAll, Op.Valid, BindOp, FirstSkip, SetColumns, Expected, Advance;
    ColumnsSet(segments, m, table[0]);
    BindOpValid(n, FirstSkip(table));
    BindOpExpands(segments, ExecAll(segments, SetColumns(ColumnsOf(m), table[0]), m), table, FirstSkip(table));
  }

  lemma {:induction false} TableExpands(segments: seq<SegmentInfo>, m: Machine, table: seq<Entry>)
    requires ValidTable(table)
    ensures AllValid(EncodeTable(ColumnsOf(m), table))
    ensures ExecAll(segments, EncodeTable(ColumnsOf(m), table), m).table
         == m.table + Expected(segments, table)
    decreases |table|
  {
    hide Exec, Op.Valid, BindOp, FirstSkip, SetColumns, Expected, BindAddress, Wrap64;
    if table == [] {
      assert m.table + Expected(segments, table) == m.table;
    } else {
      hide ExecAll, EncodeTable;
      var n := RunLength(table, FirstSkip(table));
      var op := BindOp(n, FirstSkip(table));
      var columns := SetColumns(ColumnsOf(m), table[0]);
      var m2 := Exec(segments, op, ExecAll(segments, columns, m));
      LeadingRunExpands(segments, m, table, n, op, m2);
      TableExpands(segments, m2, table[n..]);
      ExecAround(segments, columns, op, EncodeTable(ColumnsOf(m2), table[n..]), m);
      ExpectedSplits(segments, table, n);
    }
  }

  lemma ExpectedSplits(segments: seq<SegmentInfo>, table: seq<Entry>, n: nat)
    requires n <= |table|
    ensures Expected(segments, table) == Expected(segments, table[..n]) + Expected(segments, table[n..])
  {
  }

  /** The stream a linker emits for this table. */
  function TableBytes(table: seq<Entry>): seq<byte>
    requires ValidTable(table)
  {
    TableExpands([], Machine(None, -1, 0, []), table);
    EncodeAll(EncodeTable(Columns(None, -1, 0), table))
  }

  /** Round trip: the loader reads the compressed encoding of any table back as exactly that table,
      in order, appended to the table it already had. */
  lemma BindTableRoundTrip(file: seq<byte>, start: nat, segments: seq<SegmentInfo>, table: seq<Entry>, before: seq<BindInfo>)
    requires ValidTable(table) && Stands(file, start, TableBytes(table))
    ensures Retrieve(file, start, start + |TableBytes(table)|, segments, before)
         == before + Expected(segments, table)
  {
    hide Exec, Op.Valid, BindOp, FirstSkip, SetColumns, Expected, EncodeTable, RunLength;
    var m := Machine(None, -1, 0, before);
    TableExpands(segments, m, table);
    RunDecodes(file, start, segments, m, EncodeTable(ColumnsOf(m), table));
  }

  /** The `size` bytes at `off` hold the encoding of the table, padded with zeros as linkers do. */
  ghost predicate Holds(file: seq<byte>, off: nat, size: nat, table: seq<Entry>) {
    && ValidTable(table) && Stands(file, off, TableBytes(table)) && |TableBytes(table)| <= size
    && forall i :: off + |TableBytes(table)| <= i < off + size ==> At(file, i) == 0
  }

  /** The round trip with padding. */
  lemma PaddedTableRoundTrip(file: seq<byte>, off: nat, size: nat, segments: seq<SegmentInfo>, table: seq<Entry>, before: seq<BindInfo>)
    requires Holds(file, off, size, table)
    ensures Retrieve(file, off, off + size, segments, before) == before + Expected(segments, table)
  {
    hide Exec, Op.Valid, BindOp, FirstSkip, SetColumns, Expected, EncodeTable, RunLength, Boundary;
    var m := Machine(None, -1, 0, before);
    var ops := EncodeTable(ColumnsOf(m), table);
    TableExpands([], m, table);
    BindTableRoundTrip(file, off, segments, table, before);
    EncodedBoundary(file, off, off + size, ops);
    TrailingZeros(file, off, off + |TableBytes(table)|, off + size, segments, m);
  }
}
