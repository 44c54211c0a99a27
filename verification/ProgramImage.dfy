/** Loading a written program: the image, the tables and the entry point in terms of the commands that the
    linker wrote, for every program whose segments do not overlap. */
module ProgramImage {
  import opened Memory
  import opened LoaderState
  import opened Layout
  import opened LoadCommands
  import opened LoadedImage
  import opened LoadedTables
  import opened MachOFile

  // ---------- Programs that a linker makes ----------

  /** The command is a segment that takes up room. */
  predicate Roomy(c: LoadCommand) {
    c.Segment? && c.name != Ascii("__PAGEZERO") && c.vmsize != 0
  }

  function End(c: LoadCommand): nat
    requires c.Segment?
  {
    c.vmaddr + c.vmsize
  }

  predicate SmallSegment(c: LoadCommand) {
    c.Segment? && c.name != Ascii("__PAGEZERO") ==> End(c) < TWO64 && c.filesize <= c.vmsize
  }

  predicate Overlap(a: LoadCommand, b: LoadCommand) {
    Roomy(a) && Roomy(b) && a.vmaddr < End(b) && b.vmaddr < End(a)
  }

  /** Segments end below 2^64, are no larger in the file than in memory, do not start at zero, do not
      overlap, and lie within 2^64 bytes of each other; and there is one. */
  ghost predicate GoodProgram(commands: seq<LoadCommand>) {
    && (forall k :: 0 <= k < |commands| ==> SmallSegment(commands[k]))
    && (forall k :: 0 <= k < |commands| && Roomy(commands[k]) ==> 0 < commands[k].vmaddr)
    && (forall i, j :: 0 <= i < j < |commands| ==> !Overlap(commands[i], commands[j]))
    && (forall i, j :: 0 <= i < |commands| && 0 <= j < |commands| && Roomy(commands[i]) && Roomy(commands[j]) ==>
          End(commands[i]) - commands[j].vmaddr + 0x1000 <= TWO64)
    && (exists k :: 0 <= k < |commands| && Roomy(commands[k]))
  }

  lemma RoomIsRead(file: seq<byte>, p: nat, c: LoadCommand)
    requires CommandWritten(file, p, c)
    ensures TakesRoom(file, p) == Roomy(c)
    ensures SmallSegment(c) ==> GoodSegment(file, p)
    ensures c.Segment? ==> VmAddr(file, p) == c.vmaddr && VmSize(file, p) == c.vmsize
  {
    hide CommandWritten, IsSegment, SegName, VmAddr, VmSize, FileSize, Ascii;
    KindIsRead(file, p, c);
    if c.Segment? {
      SegmentIsRead(file, p, c);
    }
  }

  lemma AllRoomIsRead(file: seq<byte>, w: Program)
    requires ProgramAt(file, w) && GoodProgram(w.commands)
    ensures AllGood(file, Positions(w.commands)) && DisjointSegments(file, Positions(w.commands))
    ensures forall k :: 0 <= k < |w.commands| ==> TakesRoom(file, Positions(w.commands)[k]) == Roomy(w.commands[k])
    ensures forall k :: 0 <= k < |w.commands| && w.commands[k].Segment? ==>
      VmAddr(file, Positions(w.commands)[k]) == w.commands[k].vmaddr
      && VmSize(file, Positions(w.commands)[k]) == w.commands[k].vmsize
  {
    hide ProgramAt, Position, TakesRoom, Roomy, SmallSegment, GoodSegment, VmAddr, VmSize;
    var offs := Positions(w.commands);
    forall k | 0 <= k < |w.commands|
      ensures TakesRoom(file, offs[k]) == Roomy(w.commands[k]) && GoodSegment(file, offs[k])
      ensures w.commands[k].Segment? ==> VmAddr(file, offs[k]) == w.commands[k].vmaddr
      ensures w.commands[k].Segment? ==> VmSize(file, offs[k]) == w.commands[k].vmsize
    {
      CommandStands(file, w, k);
      RoomIsRead(file, offs[k], w.commands[k]);
    }
    forall i, j | 0 <= i < j < |offs| && TakesRoom(file, offs[i]) && TakesRoom(file, offs[j])
      ensures SegmentsApart(file, offs[i], offs[j])
    {
      assert !Overlap(w.commands[i], w.commands[j]);
      RoomySegment(w.commands[i]);
      RoomySegment(w.commands[j]);
    }
  }

  lemma RoomySegment(c: LoadCommand)
    requires Roomy(c)
    ensures c.Segment? && c.vmsize != 0
  {
  }

  /** The mapping of a program starts at its lowest segment, and has the fewest pages that cover all. */
  ghost predicate Spans(commands: seq<LoadCommand>, low: u64, size: nat) {
    && (exists k :: 0 <= k < |commands| && Roomy(commands[k]) && commands[k].vmaddr == low)
    && Covers(commands, low, size) && size % 0x1000 == 0
    && (forall m: nat :: m % 0x1000 == 0 && Covers(commands, low, m) ==> size <= m)
  }

  ghost predicate Covers(commands: seq<LoadCommand>, low: u64, size: nat) {
    forall k :: 0 <= k < |commands| && Roomy(commands[k]) ==> low <= commands[k].vmaddr && End(commands[k]) <= low + size
  }

  lemma BoundsMet(file: seq<byte>, w: Program)
    requires ProgramAt(file, w) && GoodProgram(w.commands)
    ensures var (lo, hi) := ImageExtent(file);
      && (exists k :: 0 <= k < |w.commands| && Roomy(w.commands[k]) && lo == w.commands[k].vmaddr)
      && (exists k :: 0 <= k < |w.commands| && Roomy(w.commands[k]) && hi == End(w.commands[k]))
  {
    hide ProgramAt, Positions, Position, TakesRoom, Roomy, GoodSegment, VmAddr, VmSize, SmallSegment, Extent, DisjointSegments, SizedOffsets;
    var offs := Positions(w.commands);
    AllRoomIsRead(file, w);
    CommandsAreVisited(file, w);
    ExtentBounds(file, offs, MAX64, 0);
    var k :| 0 <= k < |w.commands| && Roomy(w.commands[k]);
    RoomySegment(w.commands[k]);
    assert SmallSegment(w.commands[k]) && TakesRoom(file, offs[k]);
    EndsBelow(w.commands[k]);
    forall j | 0 <= j < |w.commands| && Roomy(w.commands[j]) ensures w.commands[j].Segment? {
      RoomySegment(w.commands[j]);
    }
  }

  lemma EndsBelow(c: LoadCommand)
    requires Roomy(c) && SmallSegment(c)
    ensures c.vmaddr < End(c) < TWO64
  {
  }

  /** A written program whose segments do not overlap is laid out as the loader needs it. */
  lemma ProgramIsLaidOut(file: seq<byte>, w: Program)
    requires ProgramAt(file, w) && GoodProgram(w.commands)
    ensures WellLaidOut(file) && Spans(w.commands, Low(file), MapSize(file))
  {
    hide ProgramAt, Positions, Position, TakesRoom, Roomy, GoodSegment, VmAddr, VmSize, SmallSegment, ImageExtent, MapSize, SizedOffsets, U32, AllGood, DisjointSegments;
    CommandsAreVisited(file, w);
    AllRoomIsRead(file, w);
    BoundsMet(file, w);
    var k :| 0 <= k < |w.commands| && Roomy(w.commands[k]);
    assert TakesRoom(file, AllOffsets(file)[k]);
    assert WellLaidOut(file);
    SegmentsInside(file);
    InsideIsCovers(file, w, Low(file));
  }

  lemma InsideIsCovers(file: seq<byte>, w: Program, low: u64)
    requires ProgramAt(file, w) && GoodProgram(w.commands)
    ensures forall m: nat :: AllInside(file, AllOffsets(file), low, m) <==> Covers(w.commands, low, m)
  {
    hide ProgramAt, Position, TakesRoom, Roomy, GoodSegment, VmAddr, VmSize, SmallSegment, U32, AllGood, DisjointSegments, AllOffsets, SizedOffsets, GoodProgram;
    CommandsAreVisited(file, w);
    AllRoomIsRead(file, w);
    forall k | 0 <= k < |w.commands| && Roomy(w.commands[k]) ensures w.commands[k].Segment? {
      RoomySegment(w.commands[k]);
    }
  }

  // ---------- The image ----------

  /** The image before fixups: byte `i` of a segment is byte `i` of its part of the file, or zero. */
  lemma ProgramBytes(file: seq<byte>, w: Program, k: nat, i: nat)
    requires ProgramAt(file, w) && GoodProgram(w.commands)
    requires k < |w.commands| && Roomy(w.commands[k]) && i < w.commands[k].vmsize
    ensures var c := w.commands[k]; var at := c.vmaddr - Low(file) + i;
      && 0 <= at < |SegmentImage(file)|
      && SegmentImage(file)[at] == if i < c.filesize then At(file, c.fileoff + i) else 0
  {
    hide U32, AllOffsets, Positions, Position, Low, MapSize, SegmentImage, TakesRoom, Roomy, VmAddr, VmSize, FileSize, FileOff, WellLaidOut, CommandWritten, At;
    ProgramIsLaidOut(file, w);
    CommandsAreVisited(file, w);
    AllRoomIsRead(file, w);
    CommandStands(file, w, k);
    RoomySegment(w.commands[k]);
    SegmentIsRead(file, Position(w.commands, k), w.commands[k]);
    ImageSize(file);
    assert Owns(file, AllOffsets(file)[k], Low(file), w.commands[k].vmaddr - Low(file) + i);
    SegmentBytes(file, k, w.commands[k].vmaddr - Low(file) + i);
  }

  lemma ImageSize(file: seq<byte>)
    ensures |SegmentImage(file)| == MapSize(file)
  {
    hide MapSize, Low, AllOffsets;
  }

  /** Every byte outside the segments is zero. */
  lemma ProgramZeros(file: seq<byte>, w: Program, i: nat)
    requires ProgramAt(file, w) && GoodProgram(w.commands) && i < |SegmentImage(file)|
    requires forall k :: 0 <= k < |w.commands| && Roomy(w.commands[k]) ==>
      !(w.commands[k].vmaddr <= Low(file) + i < End(w.commands[k]))
    ensures SegmentImage(file)[i] == 0
  {
    hide U32, AllOffsets, Positions, Position, Low, MapSize, SegmentImage, TakesRoom, Roomy, VmAddr, VmSize, WellLaidOut, ProgramAt;
    ProgramIsLaidOut(file, w);
    CommandsAreVisited(file, w);
    AllRoomIsRead(file, w);
    ImageSize(file);
    forall k | 0 <= k < |AllOffsets(file)| ensures !Owns(file, AllOffsets(file)[k], Low(file), i) {
      if Roomy(w.commands[k]) {
        RoomySegment(w.commands[k]);
      }
    }
    ZerosOutsideSegments(file, i);
  }

  // ---------- The tables ----------

  /** The names of the libraries, in order. */
  function Libraries(commands: seq<LoadCommand>): seq<Name>
    decreases |commands|
  {
    if commands == [] then []
    else (if commands[0].LoadDylib? then [commands[0].dylib] else []) + Libraries(commands[1..])
  }

  lemma {:induction false} LibrariesAppend(a: seq<LoadCommand>, c: LoadCommand)
    ensures Libraries(a + [c]) == Libraries(a) + if c.LoadDylib? then [c.dylib] else []
    decreases |a|
  {
    if a == [] {
      assert [] + [c] == [c] && [c][1..] == [];
    } else {
      var first, last := if a[0].LoadDylib? then [a[0].dylib] else [], if c.LoadDylib? then [c.dylib] else [];
      assert (a + [c])[1..] == a[1..] + [c] && (a + [c])[0] == a[0];
      LibrariesAppend(a[1..], c);
      assert first + (Libraries(a[1..]) + last) == (first + Libraries(a[1..])) + last;
    }
  }

  lemma {:induction false} LibrariesAreRead(file: seq<byte>, w: Program, n: nat)
    requires ProgramAt(file, w) && n <= |w.commands|
    ensures DylibNames(file, Positions(w.commands)[..n]) == Libraries(w.commands[..n])
    decreases n
  {
    hide ProgramAt, CommandWritten, Positions, Position, DylibName, IsLoadDylib;
    if n > 0 {
      var c, p := w.commands[n - 1], Positions(w.commands)[n - 1];
      var offs := Positions(w.commands)[..n];
      assert offs[..n - 1] == Positions(w.commands)[..n - 1] && offs[n - 1] == p;
      assert w.commands[..n] == w.commands[..n - 1] + [c];
      LibrariesAreRead(file, w, n - 1);
      LibrariesAppend(w.commands[..n - 1], c);
      CommandStands(file, w, n - 1);
      KindIsRead(file, p, c);
      if c.LoadDylib? {
        DylibIsRead(file, p, c);
      }
    }
  }

  /** The segments, in order. */
  function Segments(commands: seq<LoadCommand>): (r: seq<LoadCommand>)
    ensures forall n :: 0 <= n < |r| ==> r[n].Segment?
    decreases |commands|
  {
    if commands == [] then []
    else (if commands[0].Segment? then [commands[0]] else []) + Segments(commands[1..])
  }

  lemma {:induction false} SegmentsAppend(a: seq<LoadCommand>, c: LoadCommand)
    ensures Segments(a + [c]) == Segments(a) + if c.Segment? then [c] else []
    decreases |a|
  {
    if a == [] {
      assert [] + [c] == [c] && [c][1..] == [];
    } else {
      var first, last := if a[0].Segment? then [a[0]] else [], if c.Segment? then [c] else [];
      assert (a + [c])[1..] == a[1..] + [c] && (a + [c])[0] == a[0];
      SegmentsAppend(a[1..], c);
      assert first + (Segments(a[1..]) + last) == (first + Segments(a[1..])) + last;
    }
  }

  lemma {:induction false} SegmentsAreRead(file: seq<byte>, w: Program, n: nat)
    requires ProgramAt(file, w) && n <= |w.commands|
    ensures var at, segments := SegmentCommands(file, Positions(w.commands)[..n]), Segments(w.commands[..n]);
      |at| == |segments| && forall k :: 0 <= k < |at| ==> CommandWritten(file, at[k], segments[k])
    decreases n
  {
    hide ProgramAt, CommandWritten, Positions, Position, IsSegment;
    if n > 0 {
      var c, p := w.commands[n - 1], Positions(w.commands)[n - 1];
      var offs := Positions(w.commands)[..n];
      assert offs[..n - 1] == Positions(w.commands)[..n - 1] && offs[n - 1] == p;
      assert w.commands[..n] == w.commands[..n - 1] + [c];
      SegmentsAreRead(file, w, n - 1);
      SegmentsAppend(w.commands[..n - 1], c);
      CommandStands(file, w, n - 1);
      KindIsRead(file, p, c);
    }
  }

  /** Where a segment is recorded. */
  function Place(host: Host, low: u64, c: LoadCommand): int
    requires c.Segment?
  {
    if c.name == Ascii("__PAGEZERO") then 0
    else if c.name == Ascii("__TEXT") then host.mmapBase
    else (host.mmapBase + (c.vmaddr - low)) % TWO64
  }

  /** The tables after loading a program: the libraries in order, and the first 32 segments in order,
      each at its place. */
  lemma ProgramTables(host: Host, file: seq<byte>, w: Program)
    requires ProgramAt(file, w) && GoodProgram(w.commands) && Maps(host, file)
    requires !Load(host, file).image.trapped
    ensures var r, segments := Load(host, file), Segments(w.commands);
      && r.imgAddr == host.mmapBase && r.vAddr == Low(file) && r.dylibs == Libraries(w.commands)
      && |r.segments| == (if |segments| <= 32 then |segments| else 32)
      && forall n :: 0 <= n < |r.segments| ==>
           IsRecorded(r.segments[n], segments[n], Place(host, Low(file), segments[n]))
  {
    hide U32, AllOffsets, Positions, Low, Maps, ProgramAt, WellLaidOut, CommandWritten, DylibNames, BindTable, Recorded, Load, InfoOf, Place, Libraries, Segments;
    var all := Positions(w.commands);
    ProgramIsLaidOut(file, w);
    CommandsAreVisited(file, w);
    LoadedTable(host, file);
    assert all[..|all|] == all && w.commands[..|all|] == w.commands;
    LibrariesAreRead(file, w, |all|);
    SegmentsAreRead(file, w, |all|);
    RecordedInOrder(file, host.mmapBase, Low(file), all);
    forall n | 0 <= n < |Load(host, file).segments|
      ensures IsRecorded(Load(host, file).segments[n], Segments(w.commands)[n], Place(host, Low(file), Segments(w.commands)[n]))
    {
      InfoIsRead(host, file, SegmentCommands(file, all)[n], Segments(w.commands)[n]);
    }
  }

  predicate IsRecorded(info: SegmentInfo, c: LoadCommand, mapped: int)
    requires c.Segment?
  {
    CString(info.segname, 0) == c.name && info.vmaddr == c.vmaddr && info.vmsize == c.vmsize && info.mapped == mapped
  }

  lemma InfoIsRead(host: Host, file: seq<byte>, p: nat, c: LoadCommand)
    requires CommandWritten(file, p, c) && c.Segment? && WellLaidOut(file) && Maps(host, file)
    ensures IsRecorded(InfoOf(file, p, host.mmapBase, Low(file)), c, Place(host, Low(file), c))
  {
    hide CommandWritten, SegName, VmAddr, VmSize, Low, MapSize, Ascii, Slice, CString, AllGood, DisjointSegments, TakesRoom, AllOffsets, SizedOffsets, ImageExtent;
    SegmentIsRead(file, p, c);
  }

  // ---------- The entry point ----------

  /** Symbol `i` of command `k` is named _main. */
  predicate IsMain(commands: seq<LoadCommand>, k: nat, i: nat) {
    k < |commands| && commands[k].Symtab? && i < |commands[k].symbols| && commands[k].symbols[i].name == Ascii("_main")
  }

  /** It is the last one of the first `n` commands. */
  ghost predicate LastMainOf(commands: seq<LoadCommand>, n: nat, k: nat, i: nat) {
    && k < n <= |commands| && IsMain(commands, k, i)
    && (forall j: nat :: IsMain(commands, k, j) ==> j <= i)
    && (forall m: nat, j: nat :: k < m < n ==> !IsMain(commands, m, j))
  }

  function SymbolAddress(commands: seq<LoadCommand>, k: nat, i: nat): u64
    requires IsMain(commands, k, i)
  {
    commands[k].symbols[i].value
  }

  lemma {:induction false} MainIsRead(file: seq<byte>, p: nat, c: LoadCommand, n: nat)
    requires CommandWritten(file, p, c) && c.Symtab? && n <= |c.symbols|
    ensures MainValue(file, p, n) == None ==> forall i :: 0 <= i < n ==> c.symbols[i].name != Ascii("_main")
    ensures MainValue(file, p, n).Some? ==> exists i :: 0 <= i < n && LastMainIn(c, i, n) && MainValue(file, p, n) == Some(c.symbols[i].value)
    decreases n
  {
    hide CommandWritten, SymbolName, SymbolValue, Ascii;
    if n > 0 {
      SymbolIsRead(file, p, c, n - 1);
      if c.symbols[n - 1].name == Ascii("_main") {
        assert LastMainIn(c, n - 1, n);
      } else {
        MainIsRead(file, p, c, n - 1);
        if MainValue(file, p, n - 1).Some? {
          var i :| 0 <= i < n - 1 && LastMainIn(c, i, n - 1) && MainValue(file, p, n - 1) == Some(c.symbols[i].value);
          assert LastMainIn(c, i, n);
        }
      }
    }
  }

  /** Symbol `i` is the last _main among the first `n`. */
  predicate LastMainIn(c: LoadCommand, i: nat, n: nat)
    requires c.Symtab? && i < n <= |c.symbols|
  {
    c.symbols[i].name == Ascii("_main") && forall j :: i < j < n ==> c.symbols[j].name != Ascii("_main")
  }

  /** The last _main of a program is the one the loader takes. */
  lemma {:induction false} LastMainIsRead(file: seq<byte>, w: Program, n: nat, k: nat, i: nat)
    requires ProgramAt(file, w) && LastMainOf(w.commands, n, k, i)
    ensures LastMain(file, Positions(w.commands)[..n]) == Some(SymbolAddress(w.commands, k, i))
    decreases n
  {
    hide ProgramAt, CommandWritten, Positions, Position, MainValue, IsSymtab, SymbolCount, Ascii;
    var c, p := w.commands[n - 1], Positions(w.commands)[n - 1];
    var offs := Positions(w.commands)[..n];
    assert offs[..n - 1] == Positions(w.commands)[..n - 1] && offs[n - 1] == p;
    CommandStands(file, w, n - 1);
    KindIsRead(file, p, c);
    if c.Symtab? {
      SymbolIsRead(file, p, c, 0);
      MainIsRead(file, p, c, |c.symbols|);
      assert forall j :: 0 <= j < |c.symbols| && c.symbols[j].name == Ascii("_main") ==> IsMain(w.commands, n - 1, j);
    }
    if n - 1 > k {
      LastMainIsRead(file, w, n - 1, k, i);
    }
  }

  /** Every symbol table comes after a segment. */
  ghost predicate SymbolsLater(commands: seq<LoadCommand>) {
    forall m :: 0 <= m < |commands| && commands[m].Symtab? ==> exists j :: 0 <= j < m && commands[j].Segment?
  }

  lemma SymbolsAreLater(file: seq<byte>, w: Program)
    requires ProgramAt(file, w) && SymbolsLater(w.commands)
    ensures SegmentsFirst(file, Positions(w.commands))
  {
    hide ProgramAt, Positions, Position, CommandWritten, IsSymtab, IsSegment;
    var all := Positions(w.commands);
    forall m | 0 <= m < |all| && IsSymtab(file, all[m]) ensures HasSegment(file, all[..m]) {
      CommandStands(file, w, m);
      KindIsRead(file, all[m], w.commands[m]);
      var j :| 0 <= j < m && w.commands[j].Segment?;
      CommandStands(file, w, j);
      KindIsRead(file, all[j], w.commands[j]);
      assert IsSegment(file, all[..m][j]);
    }
  }

  /** The entry point of a program whose segments come first is the address at which the last symbol
      named _main is mapped: as far from the image as its value is from the lowest segment. */
  lemma ProgramEntry(host: Host, file: seq<byte>, w: Program, k: nat, i: nat)
    requires ProgramAt(file, w) && GoodProgram(w.commands) && Maps(host, file)
    requires !Load(host, file).image.trapped
    requires SymbolsLater(w.commands) && LastMainOf(w.commands, |w.commands|, k, i)
    ensures Load(host, file).entryPoint == (host.mmapBase + (SymbolAddress(w.commands, k, i) - Low(file))) % TWO64
  {
    hide U32, AllOffsets, Positions, Low, Maps, ProgramAt, WellLaidOut, Load, LastMain, SegmentsFirst, LastMainOf, SymbolsLater, GoodProgram;
    var all := Positions(w.commands);
    ProgramIsLaidOut(file, w);
    CommandsAreVisited(file, w);
    assert all[..|all|] == all;
    LastMainIsRead(file, w, |all|, k, i);
    SymbolsAreLater(file, w);
    EntryIsLastMain(host, file);
  }
}
