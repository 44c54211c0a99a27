/** A Mach-O file as a linker writes it, with the structures of mach-o/loader.h and mach-o/nlist.h, and what
    the loader reads from it. */
module MachOFile {
  import opened Memory
  import opened Structs
  import opened Layout
  import opened LoadCommands

  // ---------- The written commands ----------

  /** nlist_64 with the name that it refers to. */
  datatype Symbol = Symbol(strx: u32, kind: byte, section: byte, desc: u16, value: u64, name: Name)
  {
    function Fields(): seq<Field> {
      [Number(4, strx), Number(1, kind), Number(1, section), Number(2, desc), Number(8, value)]
    }
  }

  /** The load commands that the loader reads, and any other. */
  datatype LoadCommand =
    | Segment(name: Name, vmaddr: u64, vmsize: u64, fileoff: u64, filesize: u64,
              maxprot: u32, initprot: u32, sections: nat, flags: u32)
    | LoadDylib(size: u32, nameOffset: u32, timestamp: u32, current: u32, compatible: u32, dylib: Name)
    | Symtab(symoff: u32, stroff: u32, strsize: u32, symbols: seq<Symbol>)
    | DyldInfo(only: bool, rebaseOff: u32, rebaseSize: u32, bindOff: u32, bindSize: u32, weakOff: u32, weakSize: u32,
               lazyOff: u32, lazySize: u32, exportOff: u32, exportSize: u32)
    | Fixups(dataoff: u32, datasize: u32)
    | Other(cmd: u32, size: u32)
  {
    /** The structure of the command, without what follows it. */
    function Fields(): seq<Field> {
      match this
      case Segment(name, vmaddr, vmsize, fileoff, filesize, maxprot, initprot, sections, flags) =>
        [Number(4, 0x19), Number(4, Size()), Text(16, name), Number(8, vmaddr), Number(8, vmsize), Number(8, fileoff),
         Number(8, filesize), Number(4, maxprot), Number(4, initprot), Number(4, sections), Number(4, flags)]
      case LoadDylib(_, nameOffset, timestamp, current, compatible, _) =>
        [Number(4, 0xC), Number(4, Size()), Number(4, nameOffset), Number(4, timestamp), Number(4, current),
         Number(4, compatible)]
      case Symtab(symoff, stroff, strsize, symbols) =>
        [Number(4, 0x2), Number(4, Size()), Number(4, symoff), Number(4, |symbols|), Number(4, stroff), Number(4, strsize)]
      case DyldInfo(only, rebaseOff, rebaseSize, bindOff, bindSize, weakOff, weakSize, lazyOff, lazySize, exportOff, exportSize) =>
        [Number(4, if only then 0x8000_0022 else 0x22), Number(4, Size()), Number(4, rebaseOff), Number(4, rebaseSize),
         Number(4, bindOff), Number(4, bindSize), Number(4, weakOff), Number(4, weakSize),
         Number(4, lazyOff), Number(4, lazySize), Number(4, exportOff), Number(4, exportSize)]
      case Fixups(dataoff, datasize) =>
        [Number(4, 0x8000_0034), Number(4, Size()), Number(4, dataoff), Number(4, datasize)]
      case Other(cmd, _) =>
        [Number(4, cmd), Number(4, Size())]
    }

    /** cmdsize: a segment's covers its section entries of 80 bytes. */
    function Size(): nat {
      match this
      case Segment(_, _, _, _, _, _, _, sections, _) => 72 + 80 * sections
      case LoadDylib(size, _, _, _, _, _) => size
      case Symtab(_, _, _, _) => 24
      case DyldInfo(_, _, _, _, _, _, _, _, _, _, _) => 48
      case Fixups(_, _) => 16
      case Other(_, size) => size
    }

    /** The number is not one of the commands above. */
    predicate Known() {
      Other? ==> cmd != 0x19 && cmd != 0xC && cmd != 0x2 && cmd % 0x100 != 0x22 && cmd != 0x8000_0034
    }
  }

  ghost predicate SymbolAt(file: seq<byte>, p: nat, strings: nat, symbol: Symbol) {
    Written(file, p, symbol.Fields()) && 0 !in symbol.name && Stands(file, strings + symbol.strx, symbol.name + [0])
  }

  /** The command stands in the file at `p`, and the names and symbols it refers to where it says. */
  ghost predicate CommandWritten(file: seq<byte>, p: nat, c: LoadCommand) {
    && Written(file, p, c.Fields()) && c.Known()
    && (c.LoadDylib? ==> 0 !in c.dylib && Stands(file, p + c.nameOffset, c.dylib + [0]))
    && (c.Symtab? ==> forall i :: 0 <= i < |c.symbols| ==>
          SymbolAt(file, c.symoff + 16 * i, c.stroff, c.symbols[i]))
  }

  // ---------- Reading one command ----------

  lemma KindIsRead(file: seq<byte>, p: nat, c: LoadCommand)
    requires CommandWritten(file, p, c)
    ensures IsSegment(file, p) == c.Segment? && IsLoadDylib(file, p) == c.LoadDylib? && IsSymtab(file, p) == c.Symtab?
    ensures IsDyldInfo(file, p) == c.DyldInfo? && IsFixups(file, p) == c.Fixups?
    ensures CommandSize(file, p) == c.Size()
  {
    hide LE, Written, Stands, LoadCommand.Size;
    FieldReads(file, p, c.Fields(), 0);
    FieldReads(file, p, c.Fields(), 1);
  }

  /** segment_command_64. */
  lemma SegmentIsRead(file: seq<byte>, p: nat, c: LoadCommand)
    requires CommandWritten(file, p, c) && c.Segment?
    ensures SegName(file, p) == c.name
    ensures VmAddr(file, p) == c.vmaddr && VmSize(file, p) == c.vmsize
    ensures FileOff(file, p) == c.fileoff && FileSize(file, p) == c.filesize
    ensures SectionCount(file, p) == c.sections
    ensures CString(Slice(file, p + 8, 16), 0) == c.name
  {
    hide LE, CString, Written;
    FieldReads(file, p, c.Fields(), 2);
    FieldReads(file, p, c.Fields(), 3);
    FieldReads(file, p, c.Fields(), 4);
    FieldReads(file, p, c.Fields(), 5);
    FieldReads(file, p, c.Fields(), 6);
    FieldReads(file, p, c.Fields(), 9);
    FieldStands(file, p, c.Fields(), 2);
    SliceStands(file, p + 8, Text(16, c.name));
  }

  /** A copied name is read back from the copy. */
  lemma SliceStands(file: seq<byte>, p: nat, field: Field)
    requires field.Text? && field.Valid() && Stands(file, p, field.Bytes())
    ensures CString(Slice(file, p, field.size), 0) == field.text
  {
    hide CString, Field.Bytes;
    var slice := Slice(file, p, field.size);
    forall i | 0 <= i < field.size ensures slice[i] == field.Bytes()[i] {
      assert file[p..p + |field.Bytes()|][i] == file[p + i];
    }
    assert slice[..field.size] == field.Bytes();
    TextReads(slice, 0, field);
  }

  /** dylib_command and its lc_str. */
  lemma DylibIsRead(file: seq<byte>, p: nat, c: LoadCommand)
    requires CommandWritten(file, p, c) && c.LoadDylib?
    ensures DylibName(file, p) == c.dylib
  {
    hide LE, CString, Written;
    FieldReads(file, p, c.Fields(), 2);
    CStringReads(file, p + c.nameOffset, c.dylib);
  }

  /** symtab_command and its nlist_64 entries. */
  lemma SymbolIsRead(file: seq<byte>, p: nat, c: LoadCommand, i: nat)
    requires CommandWritten(file, p, c) && c.Symtab?
    ensures SymbolCount(file, p) == |c.symbols|
    ensures i < |c.symbols| ==>
      SymbolName(file, p, i) == c.symbols[i].name && SymbolValue(file, p, i) == c.symbols[i].value
  {
    hide LE, CString, Written;
    FieldReads(file, p, c.Fields(), 2);
    FieldReads(file, p, c.Fields(), 3);
    FieldReads(file, p, c.Fields(), 4);
    if i < |c.symbols| {
      var symbol := c.symbols[i];
      assert SymbolAt(file, c.symoff + 16 * i, c.stroff, symbol);
      FieldReads(file, c.symoff + 16 * i, symbol.Fields(), 0);
      FieldReads(file, c.symoff + 16 * i, symbol.Fields(), 4);
      CStringReads(file, c.stroff + symbol.strx, symbol.name);
    }
  }

  /** dyld_info_command. */
  lemma DyldInfoIsRead(file: seq<byte>, p: nat, c: LoadCommand)
    requires CommandWritten(file, p, c) && c.DyldInfo?
    ensures U32(file, p + 16) == c.bindOff && U32(file, p + 20) == c.bindSize
    ensures U32(file, p + 32) == c.lazyOff && U32(file, p + 36) == c.lazySize
  {
    hide LE, Written;
    FieldReads(file, p, c.Fields(), 4);
    FieldReads(file, p, c.Fields(), 5);
    FieldReads(file, p, c.Fields(), 8);
    FieldReads(file, p, c.Fields(), 9);
  }

  /** linkedit_data_command. */
  lemma FixupsAreRead(file: seq<byte>, p: nat, c: LoadCommand)
    requires CommandWritten(file, p, c) && c.Fixups?
    ensures U32(file, p + 8) == c.dataoff && U32(file, p + 12) == c.datasize
  {
    hide LE, Written;
    FieldReads(file, p, c.Fields(), 2);
    FieldReads(file, p, c.Fields(), 3);
  }

  // ---------- A whole file ----------

  /** mach_header_64 of an executable, and its commands. */
  datatype Program = Program(
    magic: u32, cpuType: u32, cpuSubtype: u32, commandBytes: u32, flags: u32, reserved: u32, commands: seq<LoadCommand>)
  {
    function Header(): seq<Field> {
      [Number(4, magic), Number(4, cpuType), Number(4, cpuSubtype), Number(4, 2),
       Number(4, |commands|), Number(4, commandBytes), Number(4, flags), Number(4, reserved)]
    }
  }

  /** Where command `k` stands: after the header and the commands before it. */
  function Position(commands: seq<LoadCommand>, k: nat): nat
    requires k <= |commands|
    decreases k
  {
    if k == 0 then 32 else Position(commands, k - 1) + commands[k - 1].Size()
  }

  function Positions(commands: seq<LoadCommand>): (r: seq<nat>)
    ensures |r| == |commands|
    ensures forall k :: 0 <= k < |r| ==> r[k] == Position(commands, k)
  {
    seq(|commands|, k requires 0 <= k < |commands| => Position(commands, k))
  }

  /** The program stands in the file: the header, then the commands one after the other. */
  ghost predicate ProgramAt(file: seq<byte>, w: Program) {
    && Written(file, 0, w.Header())
    && forall k :: 0 <= k < |w.commands| ==> CommandWritten(file, Position(w.commands, k), w.commands[k])
  }

  lemma HeaderIsRead(file: seq<byte>, w: Program)
    requires ProgramAt(file, w)
    ensures U32(file, 12) == MH_EXECUTE && CommandCount(file) == |w.commands|
  {
    hide LE, Written, CommandWritten;
    FieldReads(file, 0, w.Header(), 3);
    FieldReads(file, 0, w.Header(), 4);
  }

  /** Both walkers step from a written command to the next. */
  lemma StepIsRead(file: seq<byte>, p: nat, c: LoadCommand)
    requires CommandWritten(file, p, c)
    ensures NextCommand(file, p) == p + c.Size() && CommandSize(file, p) == c.Size()
  {
    hide LE, Written, CommandWritten;
    KindIsRead(file, p, c);
    if c.Segment? {
      SegmentIsRead(file, p, c);
      SizeFits(file, p, c);
    }
  }

  lemma SizeFits(file: seq<byte>, p: nat, c: LoadCommand)
    requires CommandWritten(file, p, c)
    ensures c.Size() < TWO32
  {
    hide Stands, StructBytes;
    assert c.Fields()[1] == Number(4, c.Size());
    assert c.Fields()[1].Valid();
    assert Pow256(4) == TWO32;
  }

  lemma CommandStands(file: seq<byte>, w: Program, k: nat)
    requires ProgramAt(file, w) && k < |w.commands|
    ensures CommandWritten(file, Position(w.commands, k), w.commands[k])
  {
    hide CommandWritten, Written;
  }

  lemma OneStep(file: seq<byte>, p: nat, c: LoadCommand, n: nat)
    requires CommandWritten(file, p, c)
    ensures Offsets(file, p, n + 1) == [p] + Offsets(file, p + c.Size(), n)
    ensures SizedOffsets(file, p, n + 1) == [p] + SizedOffsets(file, p + c.Size(), n)
  {
    hide CommandWritten, NextCommand, CommandSize, LoadCommand.Size;
    StepIsRead(file, p, c);
  }

  lemma {:induction false} VisitedFrom(file: seq<byte>, w: Program, k: nat)
    requires ProgramAt(file, w) && k <= |w.commands|
    ensures Offsets(file, Position(w.commands, k), |w.commands| - k) == Positions(w.commands)[k..]
    ensures SizedOffsets(file, Position(w.commands, k), |w.commands| - k) == Positions(w.commands)[k..]
    decreases |w.commands| - k
  {
    hide ProgramAt, CommandWritten, LoadCommand.Size, Positions, Offsets, SizedOffsets;
    if k == |w.commands| {
      NoOffsets(file, Position(w.commands, k));
    } else {
      var p := Position(w.commands, k);
      CommandStands(file, w, k);
      OneStep(file, p, w.commands[k], |w.commands| - k - 1);
      VisitedFrom(file, w, k + 1);
      assert Position(w.commands, k + 1) == p + w.commands[k].Size();
      assert Positions(w.commands)[k..] == [p] + Positions(w.commands)[k + 1..];
    }
  }

  lemma NoOffsets(file: seq<byte>, p: nat)
    ensures Offsets(file, p, 0) == [] && SizedOffsets(file, p, 0) == []
  {
  }

  /** The loader and the sizing scan both visit exactly the written commands. */
  lemma CommandsAreVisited(file: seq<byte>, w: Program)
    requires ProgramAt(file, w)
    ensures U32(file, 12) == MH_EXECUTE
    ensures AllOffsets(file) == Positions(w.commands)
    ensures SizedOffsets(file, HEADER_SIZE, CommandCount(file)) == Positions(w.commands)
  {
    hide LE, ProgramAt, Offsets, SizedOffsets;
    HeaderIsRead(file, w);
    VisitedFrom(file, w, 0);
    assert Positions(w.commands)[0..] == Positions(w.commands);
  }
}
