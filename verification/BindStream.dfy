/** The bind-opcode interpreter: a byte-code machine that expands a compressed stream into the bind
    table. `Run` reads bytes as the source does; `ExecAll` is the meaning of a list of opcodes. */
module BindStream {
  import opened Memory
  import opened ChainFormat
  import opened LoaderState
  import opened Uleb

  /** The interpreter's registers and the table it has built. */
  datatype Machine = Machine(symbol: Option<Name>, segIndex: int, segOffset: u64, table: seq<BindInfo>)

  const POINTER_SIZE: nat := 8

  function BindAddress(segments: seq<SegmentInfo>, index: int, offset: u64): u64 {
    if index < 0 || index >= |segments| then 0
    else if segments[index].mapped == 0 then 0
    else Wrap64(segments[index].mapped + offset)
  }

  /** One table entry, then the offset moves past the pointer and `skip` more bytes. */
  function Emit(segments: seq<SegmentInfo>, m: Machine, skip: nat): Machine {
    m.(table := m.table + [BindInfo(m.symbol, BindAddress(segments, m.segIndex, m.segOffset))],
       segOffset := Wrap64(m.segOffset + POINTER_SIZE + skip))
  }

  function EmitRun(segments: seq<SegmentInfo>, m: Machine, count: nat, skip: nat): Machine
    decreases count, skip
  {
    if count == 0 then m else EmitRun(segments, Emit(segments, m, skip), count - 1, skip)
  }

  // ---------- The interpreter, byte by byte ----------

  /** Where the opcode at `p` ends. */
  function NextOp(file: seq<byte>, p: nat, end: nat): (q: nat)
    ensures p < q
  {
    match At(file, p) / 0x10
    case 0x2 | 0x6 | 0x7 | 0x8 | 0xA => UlebEnd(file, p + 1, end)
    case 0x4 => p + 1 + |CString(file, p + 1)| + 1
    case 0xC => UlebEnd(file, UlebEnd(file, p + 1, end), end)
    case _ => p + 1
  }

  /** What the opcode at `p` does. */
  function Step(file: seq<byte>, p: nat, end: nat, segments: seq<SegmentInfo>, m: Machine): Machine {
    var immediate := At(file, p) % 0x10;
    var operand := UlebValue(file, p + 1, end);
    match At(file, p) / 0x10
    case 0x4 => m.(symbol := Some(CString(file, p + 1)))
    case 0x7 => m.(segIndex := immediate, segOffset := operand)
    case 0x8 => m.(segOffset := Wrap64(m.segOffset + operand))
    case 0x9 => Emit(segments, m, 0)
    case 0xA => Emit(segments, m, operand)
    case 0xB => Emit(segments, m, immediate * POINTER_SIZE)
    case 0xC => EmitRun(segments, m, operand, UlebValue(file, UlebEnd(file, p + 1, end), end))
    case _ => m
  }

  function Run(file: seq<byte>, p: nat, end: nat, segments: seq<SegmentInfo>, m: Machine): Machine
    decreases end - p
  {
    if p >= end then m
    else Run(file, NextOp(file, p, end), end, segments, Step(file, p, end, segments, m))
  }

  /** A whole stream, from fresh registers, appended to the table built so far. */
  function Retrieve(file: seq<byte>, start: nat, end: nat, segments: seq<SegmentInfo>, table: seq<BindInfo>): seq<BindInfo> {
    Run(file, start, end, segments, Machine(None, -1, 0, table)).table
  }

  // ---------- Splitting a stream ----------

  /** `mid` is an opcode boundary of the stream that starts at `p`. */
  predicate Boundary(file: seq<byte>, p: nat, mid: nat, end: nat)
    decreases end - p
  {
    p == mid || (p < mid && p < end && Boundary(file, NextOp(file, p, end), mid, end))
  }

  lemma {:induction false} BoundaryAfter(file: seq<byte>, p: nat, mid: nat, end: nat)
    requires Boundary(file, p, mid, end)
    ensures p <= mid
    decreases end - p
  {
    if p != mid {
      BoundaryAfter(file, NextOp(file, p, end), mid, end);
    }
  }

  lemma StepNarrow(file: seq<byte>, p: nat, mid: nat, end: nat, segments: seq<SegmentInfo>, m: Machine)
    requires p < mid <= end && NextOp(file, p, end) <= mid
    ensures NextOp(file, p, mid) == NextOp(file, p, end)
    ensures Step(file, p, mid, segments, m) == Step(file, p, end, segments, m)
  {
    var op := At(file, p) / 0x10;
    if op == 0x2 || op == 0x6 || op == 0x7 || op == 0x8 || op == 0xA {
      UlebNarrow(file, p + 1, mid, end);
    } else if op == 0xC {
      var q := UlebEnd(file, p + 1, end);
      UlebNarrow(file, q, mid, end);
      UlebNarrow(file, p + 1, mid, end);
    }
  }

  /** Compositionality: a stream split at any opcode boundary is the first part followed by the
      second part, continued from the registers the first one leaves. */
  lemma {:induction false} RunSplits(file: seq<byte>, p: nat, mid: nat, end: nat, segments: seq<SegmentInfo>, m: Machine)
    requires mid <= end && Boundary(file, p, mid, end)
    ensures Run(file, p, end, segments, m)
         == Run(file, mid, end, segments, Run(file, p, mid, segments, m))
    decreases end - p
  {
    hide Step;
    if p != mid {
      BoundaryAfter(file, NextOp(file, p, end), mid, end);
      StepNarrow(file, p, mid, end, segments, m);
      RunSplits(file, NextOp(file, p, end), mid, end, segments, Step(file, p, end, segments, m));
    }
  }

  // ---------- The table only grows ----------

  lemma {:induction false} EmitRunAppends(segments: seq<SegmentInfo>, m: Machine, t: seq<BindInfo>, count: nat, skip: nat)
    ensures EmitRun(segments, m.(table := t + m.table), count, skip)
         == EmitRun(segments, m, count, skip).(table := t + EmitRun(segments, m, count, skip).table)
    decreases count
  {
    hide BindAddress, Wrap64;
    if count > 0 {
      EmitAppends(segments, m, t, skip);
      EmitRunAppends(segments, Emit(segments, m, skip), t, count - 1, skip);
    }
  }

  lemma EmitAppends(segments: seq<SegmentInfo>, m: Machine, t: seq<BindInfo>, skip: nat)
    ensures Emit(segments, m.(table := t + m.table), skip)
         == Emit(segments, m, skip).(table := t + Emit(segments, m, skip).table)
  {
    var b := [BindInfo(m.symbol, BindAddress(segments, m.segIndex, m.segOffset))];
    assert t + m.table + b == t + (m.table + b);
  }

  lemma StepAppends(file: seq<byte>, p: nat, end: nat, segments: seq<SegmentInfo>, m: Machine, t: seq<BindInfo>)
    ensures Step(file, p, end, segments, m.(table := t + m.table))
         == Step(file, p, end, segments, m).(table := t + Step(file, p, end, segments, m).table)
  {
    hide Emit, EmitRun, UlebValue, UlebEnd, CString, Wrap64;
    var operand := UlebValue(file, p + 1, end);
    EmitAppends(segments, m, t, 0);
    EmitAppends(segments, m, t, operand);
    EmitAppends(segments, m, t, At(file, p) % 0x10 * POINTER_SIZE);
    EmitRunAppends(segments, m, t, operand, UlebValue(file, UlebEnd(file, p + 1, end), end));
  }

  lemma {:induction false} RunAppends(file: seq<byte>, p: nat, end: nat, segments: seq<SegmentInfo>, m: Machine, t: seq<BindInfo>)
    ensures Run(file, p, end, segments, m.(table := t + m.table)).table
         == t + Run(file, p, end, segments, m).table
    decreases end - p
  {
    hide Step, NextOp;
    if p < end {
      StepAppends(file, p, end, segments, m, t);
      RunAppends(file, NextOp(file, p, end), end, segments, Step(file, p, end, segments, m), t);
    }
  }

  /** A second stream, such as the lazy binds, appends its own table after the first. */
  lemma RetrieveAppends(file: seq<byte>, start: nat, end: nat, segments: seq<SegmentInfo>, table: seq<BindInfo>)
    ensures Retrieve(file, start, end, segments, table)
         == table + Retrieve(file, start, end, segments, [])
  {
    assert table + [] == table;
    RunAppends(file, start, end, segments, Machine(None, -1, 0, []), table);
  }

  // ---------- Opcodes ----------

  /** The opcodes of mach-o/loader.h with their operands as encoded; `imm` is an unused nibble. */
  datatype Op =
    | Done(imm: nat)
    | SetDylibOrdinal(imm: nat)
    | SetDylibOrdinalUleb(imm: nat, arg: seq<byte>)
    | SetDylibSpecial(imm: nat)
    | SetSymbol(flags: nat, name: Name)
    | SetType(kind: nat)
    | SetAddendSleb(imm: nat, arg: seq<byte>)
    | SetSegmentAndOffset(segment: nat, arg: seq<byte>)
    | AddAddr(imm: nat, arg: seq<byte>)
    | DoBind(imm: nat)
    | DoBindAddAddr(imm: nat, arg: seq<byte>)
    | DoBindAddAddrScaled(scale: nat)
    | DoBindTimes(imm: nat, count: seq<byte>, skip: seq<byte>)
    | Unknown(code: nat, imm: nat)
  {
    function Nibble(): nat {
      match this
      case SetSymbol(flags, _) => flags
      case SetType(kind) => kind
      case SetSegmentAndOffset(segment, _) => segment
      case DoBindAddAddrScaled(scale) => scale
      case _ => imm
    }

    function Code(): nat {
      match this
      case Done(_) => 0x0
      case SetDylibOrdinal(_) => 0x1
      case SetDylibOrdinalUleb(_, _) => 0x2
      case SetDylibSpecial(_) => 0x3
      case SetSymbol(_, _) => 0x4
      case SetType(_) => 0x5
      case SetAddendSleb(_, _) => 0x6
      case SetSegmentAndOffset(_, _) => 0x7
      case AddAddr(_, _) => 0x8
      case DoBind(_) => 0x9
      case DoBindAddAddr(_, _) => 0xA
      case DoBindAddAddrScaled(_) => 0xB
      case DoBindTimes(_, _, _) => 0xC
      case Unknown(code, _) => code
    }

    /** The bytes after the opcode byte. */
    function Operands(): seq<byte> {
      match this
      case SetDylibOrdinalUleb(_, arg) => arg
      case SetAddendSleb(_, arg) => arg
      case SetSegmentAndOffset(_, arg) => arg
      case AddAddr(_, arg) => arg
      case DoBindAddAddr(_, arg) => arg
      case DoBindTimes(_, count, skip) => count + skip
      case SetSymbol(_, name) => name + [0]
      case _ => []
    }

    predicate Valid() {
      && Nibble() < 0x10
      && match this
         case SetDylibOrdinalUleb(_, arg) => Terminated(arg)
         case SetAddendSleb(_, arg) => Terminated(arg)
         case SetSegmentAndOffset(_, arg) => Terminated(arg)
         case AddAddr(_, arg) => Terminated(arg)
         case DoBindAddAddr(_, arg) => Terminated(arg)
         case DoBindTimes(_, count, skip) => Terminated(count) && Terminated(skip)
         case SetSymbol(_, name) => 0 !in name
         case Unknown(code, _) => 0xD <= code <= 0xF
         case _ => true
    }

    function Encode(): seq<byte>
      requires Valid()
    {
      [0x10 * Code() + Nibble()] + Operands()
    }
  }

  function Operand(bs: seq<byte>): u64 {
    Wrap64(UlebNumber(bs))
  }

  /** The meaning of one opcode. */
  function Exec(segments: seq<SegmentInfo>, op: Op, m: Machine): Machine {
    match op
    case SetSymbol(_, name) => m.(symbol := Some(name))
    case SetSegmentAndOffset(segment, arg) => m.(segIndex := segment, segOffset := Operand(arg))
    case AddAddr(_, arg) => m.(segOffset := Wrap64(m.segOffset + Operand(arg)))
    case DoBind(_) => Emit(segments, m, 0)
    case DoBindAddAddr(_, arg) => Emit(segments, m, Operand(arg))
    case DoBindAddAddrScaled(scale) => Emit(segments, m, scale * POINTER_SIZE)
    case DoBindTimes(_, count, skip) => EmitRun(segments, m, Operand(count), Operand(skip))
    case _ => m
  }

  function ExecAll(segments: seq<SegmentInfo>, ops: seq<Op>, m: Machine): Machine
    decreases |ops|
  {
    if ops == [] then m else ExecAll(segments, ops[1..], Exec(segments, ops[0], m))
  }

  ghost predicate AllValid(ops: seq<Op>) {
    forall k :: 0 <= k < |ops| ==> ops[k].Valid()
  }

  function EncodeAll(ops: seq<Op>): seq<byte>
    requires AllValid(ops)
  {
    if ops == [] then [] else ops[0].Encode() + EncodeAll(ops[1..])
  }

  lemma OpByte(file: seq<byte>, p: nat, op: Op)
    requires op.Valid() && Stands(file, p, op.Encode())
    ensures At(file, p) / 0x10 == op.Code() && At(file, p) % 0x10 == op.Nibble()
    ensures Stands(file, p + 1, op.Operands()) && |op.Encode()| == 1 + |op.Operands()|
  {
    hide Op.Code, Op.Nibble, Op.Operands, Op.Valid, Terminated;
    var bs := op.Encode();
    assert file[p] == bs[0];
    assert file[p + 1..p + |bs|] == bs[1..] == op.Operands();
    SmallNibble(op);
    Divides(bs[0], 0x10, op.Code(), op.Nibble());
  }

  lemma SmallNibble(op: Op)
    requires op.Valid()
    ensures op.Nibble() < 0x10
  {
  }

  lemma OperandReads(file: seq<byte>, p: nat, end: nat, arg: seq<byte>)
    requires Terminated(arg) && Stands(file, p, arg) && p + |arg| <= end
    ensures UlebEnd(file, p, end) == p + |arg| && UlebValue(file, p, end) == Operand(arg)
  {
    UlebReads(file, p, end, arg);
  }

  lemma TwoOperandsRead(file: seq<byte>, p: nat, end: nat, count: seq<byte>, skip: seq<byte>)
    requires Terminated(count) && Terminated(skip)
    requires Stands(file, p, count + skip) && p + |count + skip| <= end
    ensures UlebEnd(file, p, end) == p + |count| && UlebValue(file, p, end) == Operand(count)
    ensures UlebEnd(file, p + |count|, end) == p + |count + skip|
    ensures UlebValue(file, p + |count|, end) == Operand(skip)
  {
    assert file[p..p + |count|] == (count + skip)[..|count|] == count;
    assert file[p + |count|..p + |count| + |skip|] == (count + skip)[|count|..] == skip;
    OperandReads(file, p, end, count);
    OperandReads(file, p + |count|, end, skip);
  }

  /** The interpreter recognizes an encoded opcode: it does what the opcode means and stops right
      after its bytes. */
  lemma StepDecodes(file: seq<byte>, p: nat, end: nat, segments: seq<SegmentInfo>, m: Machine, op: Op)
    requires op.Valid() && Stands(file, p, op.Encode()) && p + |op.Encode()| <= end
    ensures NextOp(file, p, end) == p + |op.Encode()|
    ensures Step(file, p, end, segments, m) == Exec(segments, op, m)
  {
    hide Terminated, UlebEnd, UlebSum, Emit, EmitRun, CString, UlebValue, Operand, Stands, At, Op.Encode;
    OpByte(file, p, op);
    match op {
      case SetSymbol(_, name) => CStringReads(file, p + 1, name);
      case DoBindTimes(_, count, skip) => TwoOperandsRead(file, p + 1, end, count, skip);
      case SetDylibOrdinalUleb(_, arg) => OperandReads(file, p + 1, end, arg);
      case SetAddendSleb(_, arg) => OperandReads(file, p + 1, end, arg);
      case SetSegmentAndOffset(_, arg) => OperandReads(file, p + 1, end, arg);
      case AddAddr(_, arg) => OperandReads(file, p + 1, end, arg);
      case DoBindAddAddr(_, arg) => OperandReads(file, p + 1, end, arg);
      case _ =>
    }
  }

  /** Decoding theorem: a stream that is the encoding of these opcodes does what they mean. */
  lemma {:induction false} RunDecodes(file: seq<byte>, p: nat, segments: seq<SegmentInfo>, m: Machine, ops: seq<Op>)
    requires AllValid(ops) && Stands(file, p, EncodeAll(ops))
    ensures Run(file, p, p + |EncodeAll(ops)|, segments, m) == ExecAll(segments, ops, m)
    decreases |ops|
  {
    hide Step, NextOp, Exec, Op.Encode, Op.Valid;
    if ops != [] {
      var end := p + |EncodeAll(ops)|;
      var first := ops[0].Encode();
      assert Stands(file, p, first) by {
        assert file[p..p + |first|] == file[p..end][..|first|];
      }
      assert Stands(file, p + |first|, EncodeAll(ops[1..])) by {
        assert file[p + |first|..end] == file[p..end][|first|..];
      }
      StepDecodes(file, p, end, segments, m, ops[0]);
      RunDecodes(file, p + |first|, segments, Exec(segments, ops[0], m), ops[1..]);
    }
  }

  /** The end of an encoded list is an opcode boundary of any longer stream. */
  lemma {:induction false} EncodedBoundary(file: seq<byte>, p: nat, end: nat, ops: seq<Op>)
    requires AllValid(ops) && Stands(file, p, EncodeAll(ops)) && p + |EncodeAll(ops)| <= end
    ensures Boundary(file, p, p + |EncodeAll(ops)|, end)
    decreases |ops|
  {
    hide Step, NextOp, Exec, Op.Encode, Op.Valid;
    if ops != [] {
      var mid := p + |EncodeAll(ops)|;
      var first := ops[0].Encode();
      assert Stands(file, p, first) by {
        assert file[p..p + |first|] == file[p..mid][..|first|];
      }
      assert Stands(file, p + |first|, EncodeAll(ops[1..])) by {
        assert file[p + |first|..mid] == file[p..mid][|first|..];
      }
      StepDecodes(file, p, end, [], Machine(None, -1, 0, []), ops[0]);
      EncodedBoundary(file, p + |first|, end, ops[1..]);
    }
  }

  // ---------- Laws of opcode lists ----------

  lemma {:induction false} ExecAppend(segments: seq<SegmentInfo>, a: seq<Op>, b: seq<Op>, m: Machine)
    ensures ExecAll(segments, a + b, m) == ExecAll(segments, b, ExecAll(segments, a, m))
    decreases |a|
  {
    if a == [] {
      assert a + b == b;
    } else {
      assert (a + b)[1..] == a[1..] + b;
      ExecAppend(segments, a[1..], b, Exec(segments, a[0], m));
    }
  }

  lemma {:induction false} EncodeAppend(a: seq<Op>, b: seq<Op>)
    requires AllValid(a) && AllValid(b)
    ensures AllValid(a + b) && EncodeAll(a + b) == EncodeAll(a) + EncodeAll(b)
    decreases |a|
  {
    hide Op.Encode, Op.Valid;
    if a == [] {
      assert a + b == b;
    } else {
      assert (a + b)[1..] == a[1..] + b;
      EncodeAppend(a[1..], b);
    }
  }

  /** Opcodes the loader skips: DONE, the dylib ordinals, the type and the SLEB addend. */
  predicate Ignored(op: Op) {
    op.Done? || op.SetDylibOrdinal? || op.SetDylibOrdinalUleb? || op.SetDylibSpecial?
    || op.SetType? || op.SetAddendSleb? || op.Unknown?
  }

  /** Inserting a skipped opcode, with any operand, at any boundary leaves the table as it was. The
      encoding of `a + [op] + b` has the bytes of `op` between those of `a` and `b`. */
  lemma IgnoredOpsChangeNothing(
    file: seq<byte>, p: nat, file': seq<byte>, p': nat, segments: seq<SegmentInfo>, m: Machine,
    a: seq<Op>, op: Op, b: seq<Op>)
    requires AllValid(a + b) && AllValid(a + ([op] + b)) && Ignored(op)
    requires Stands(file, p, EncodeAll(a + b)) && Stands(file', p', EncodeAll(a + ([op] + b)))
    ensures Run(file, p, p + |EncodeAll(a + b)|, segments, m)
         == Run(file', p', p' + |EncodeAll(a + ([op] + b))|, segments, m)
  {
    hide Op.Encode, Op.Valid, Run, Exec, Stands;
    RunDecodes(file, p, segments, m, a + b);
    RunDecodes(file', p', segments, m, a + ([op] + b));
    ExecAppend(segments, a, b, m);
    ExecAppend(segments, a, [op] + b, m);
    IgnoredExec(segments, op, b, ExecAll(segments, a, m));
  }

  /** Encodings concatenate. */
  lemma InsertedEncoding(a: seq<Op>, op: Op, b: seq<Op>)
    requires AllValid(a) && op.Valid() && AllValid(b)
    ensures AllValid(a + ([op] + b))
    ensures EncodeAll(a + ([op] + b)) == EncodeAll(a) + op.Encode() + EncodeAll(b)
  {
    hide Op.Encode, Op.Valid;
    assert ([op] + b)[1..] == b;
    EncodeAppend(a, [op] + b);
  }

  lemma IgnoredExec(segments: seq<SegmentInfo>, op: Op, b: seq<Op>, m: Machine)
    requires Ignored(op)
    ensures ExecAll(segments, [op] + b, m) == ExecAll(segments, b, m)
  {
    assert ([op] + b)[1..] == b;
  }

  /** Trailing zero bytes are DONE opcodes and change nothing, whatever comes before them. */
  lemma {:induction false} ZeroPadding(file: seq<byte>, p: nat, end: nat, segments: seq<SegmentInfo>, m: Machine)
    requires forall i :: p <= i < end ==> At(file, i) == 0
    ensures Run(file, p, end, segments, m) == m
    decreases end - p
  {
    if p < end {
      ZeroPadding(file, p + 1, end, segments, m);
    }
  }

  /** Zero padding after any opcode boundary leaves the table as it was there. */
  lemma TrailingZeros(file: seq<byte>, p: nat, mid: nat, end: nat, segments: seq<SegmentInfo>, m: Machine)
    requires mid <= end && Boundary(file, p, mid, end)
    requires forall i :: mid <= i < end ==> At(file, i) == 0
    ensures Run(file, p, end, segments, m) == Run(file, p, mid, segments, m)
  {
    RunSplits(file, p, mid, end, segments, m);
    ZeroPadding(file, mid, end, segments, Run(file, p, mid, segments, m));
  }

  /** A signed 64-bit addend makes a valid operand of SET_ADDEND_SLEB, which the loader skips: so
      `IgnoredOpsChangeNothing` covers it, and the stream stays in sync. */
  lemma AddendOpIsIgnored(imm: nat, addend: int)
    requires imm < 0x10 && -0x8000_0000_0000_0000 <= addend < 0x8000_0000_0000_0000
    ensures var op := SetAddendSleb(imm, EncodeSleb(addend));
      op.Valid() && Ignored(op) && SlebNumber(op.arg) == addend
  {
    SlebFits(addend);
  }

  // ---------- Compressed opcodes ----------

  /** `n` copies of an opcode. */
  function Copies(op: Op, n: nat): (r: seq<Op>)
    ensures |r| == n
  {
    if n == 0 then [] else [op] + Copies(op, n - 1)
  }

  lemma {:induction false} RunIsCopies(segments: seq<SegmentInfo>, m: Machine, n: nat, imm: nat, skip: seq<byte>)
    ensures EmitRun(segments, m, n, Operand(skip))
         == ExecAll(segments, Copies(DoBindAddAddr(imm, skip), n), m)
    decreases n
  {
    hide Emit, Operand;
    if n > 0 {
      var op := DoBindAddAddr(imm, skip);
      assert Copies(op, n)[1..] == Copies(op, n - 1);
      RunIsCopies(segments, Emit(segments, m, Operand(skip)), n - 1, imm, skip);
    }
  }

  /** From every machine state, the counted opcode means its expansion, and the scaled immediate
      form means the operand form with eight times the immediate. */
  lemma CompressedMeansExpanded(segments: seq<SegmentInfo>, m: Machine, imm: nat, count: seq<byte>, skip: seq<byte>, scale: nat, arg: seq<byte>)
    requires Operand(arg) == 8 * scale
    ensures Exec(segments, DoBindTimes(imm, count, skip), m)
         == ExecAll(segments, Copies(DoBindAddAddr(imm, skip), Operand(count)), m)
    ensures Exec(segments, DoBindAddAddrScaled(scale), m) == Exec(segments, DoBindAddAddr(imm, arg), m)
  {
    RunIsCopies(segments, m, Operand(count), imm, skip);
  }

  /** Entry `i` of a run is at offset + i * (8 + skip), modulo 2^64. */
  function RunEntries(segments: seq<SegmentInfo>, m: Machine, count: nat, skip: nat): (r: seq<BindInfo>)
    ensures |r| == count
  {
    seq(count, i requires 0 <= i < count =>
      BindInfo(m.symbol, BindAddress(segments, m.segIndex, Wrap64(m.segOffset + i * (8 + skip)))))
  }

  /** The counted opcode in closed form: it appends these entries, and the offset ends past them. */
  lemma {:induction false} RunClosedForm(segments: seq<SegmentInfo>, m: Machine, count: nat, skip: nat)
    ensures EmitRun(segments, m, count, skip)
         == m.(table := m.table + RunEntries(segments, m, count, skip),
               segOffset := Wrap64(m.segOffset + count * (8 + skip)))
    decreases count
  {
    hide BindAddress, Wrap64;
    if count > 0 {
      var m' := Emit(segments, m, skip);
      RunClosedForm(segments, m', count - 1, skip);
      ShiftedOffset(m.segOffset, 8 + skip, count - 1);
      RunEntriesCons(segments, m, count, skip);
    } else {
      NoShift(m.segOffset);
    }
  }

  lemma RunEntriesCons(segments: seq<SegmentInfo>, m: Machine, count: nat, skip: nat)
    requires count > 0
    ensures RunEntries(segments, m, count, skip)
         == [BindInfo(m.symbol, BindAddress(segments, m.segIndex, m.segOffset))]
            + RunEntries(segments, Emit(segments, m, skip), count - 1, skip)
  {
    hide BindAddress, Wrap64;
    NoShift(m.segOffset);
    forall i | 1 <= i < count
      ensures RunEntries(segments, m, count, skip)[i]
           == RunEntries(segments, Emit(segments, m, skip), count - 1, skip)[i - 1]
    {
      ShiftedOffset(m.segOffset, 8 + skip, i - 1);
    }
  }

  lemma ShiftedOffset(off: u64, stride: nat, i: nat)
    ensures Wrap64(Wrap64(off + stride) + i * stride) == Wrap64(off + (i + 1) * stride)
  {
    WrapAdd(off + stride, i * stride);
    assert (i + 1) * stride == i * stride + stride;
  }
}
