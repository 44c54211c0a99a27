/** What the tables of the context hold after loading: segments, libraries, binds and entry point. */
module LoadedTables {
  import opened Memory
  import opened LoaderState
  import BindStream
  import opened Layout
  import opened LoadCommands
  import Binder

  // ---------- The entry point ----------

  /** The value of the last symbol named _main among the first `n` of this symbol table. */
  function MainValue(file: seq<byte>, p: nat, n: nat): Option<u64>
    decreases n, p
  {
    if n == 0 then None
    else if SymbolName(file, p, n - 1) == MAIN then Some(SymbolValue(file, p, n - 1))
    else MainValue(file, p, n - 1)
  }

  /** The value of the last symbol named _main in all symbol tables of these commands. */
  function LastMain(file: seq<byte>, offsets: seq<nat>): Option<u64>
    decreases |offsets|
  {
    if offsets == [] then None
    else
      var p := offsets[|offsets| - 1];
      if IsSymtab(file, p) && MainValue(file, p, SymbolCount(file, p)).Some?
      then MainValue(file, p, SymbolCount(file, p))
      else LastMain(file, offsets[..|offsets| - 1])
  }

  function EntryOr(value: Option<u64>, entry: u64, imgAddr: u64, vAddr: u64): u64 {
    match value
    case None => entry
    case Some(v) => Relocated(v, imgAddr, vAddr)
  }

  lemma {:induction false} ScanFindsLast(file: seq<byte>, p: nat, i: nat, entry: u64, imgAddr: u64, vAddr: u64)
    requires i <= SymbolCount(file, p)
    ensures ScanSymbols(file, p, i, EntryOr(MainValue(file, p, i), entry, imgAddr, vAddr), imgAddr, vAddr)
         == EntryOr(MainValue(file, p, SymbolCount(file, p)), entry, imgAddr, vAddr)
    decreases SymbolCount(file, p) - i
  {
    hide SymbolName, SymbolValue, SymbolCount, Relocated;
    if i < SymbolCount(file, p) {
      ScanFindsLast(file, p, i + 1, entry, imgAddr, vAddr);
    }
  }

  /** The names of the LC_LOAD_DYLIB commands among these, in order. */
  function DylibNames(file: seq<byte>, offsets: seq<nat>): seq<Name>
    decreases |offsets|
  {
    if offsets == [] then []
    else
      var p := offsets[|offsets| - 1];
      DylibNames(file, offsets[..|offsets| - 1]) + if IsLoadDylib(file, p) then [DylibName(file, p)] else []
  }

  /** The entries of the LC_DYLD_INFO commands among these, in order, each read with the segments
      recorded before it. */
  function BindTable(file: seq<byte>, imgAddr: u64, vAddr: u64, offsets: seq<nat>): seq<BindInfo>
    decreases |offsets|
  {
    if offsets == [] then []
    else
      var p := offsets[|offsets| - 1];
      var before := offsets[..|offsets| - 1];
      BindTable(file, imgAddr, vAddr, before)
      + if IsDyldInfo(file, p) then BindsOf(file, p, Recorded(file, imgAddr, vAddr, before)) else []
  }

  /** The mapping, once made, stays, and every segment, library and bind so far is in its table. */
  ghost predicate PlaceSoFar(host: Host, file: seq<byte>, done: seq<nat>, s: Loader) {
    && (if HasSegment(file, done) then s.imgAddr == host.mmapBase && s.vAddr == Low(file)
        else s.imgAddr == 0 && s.vAddr == 0)
    && s.segments == Recorded(file, host.mmapBase, Low(file), done)
    && s.dylibs == DylibNames(file, done)
    && s.binds == BindTable(file, host.mmapBase, Low(file), done)
  }

  /** The entry point follows the last _main so far. */
  ghost predicate EntrySoFar(host: Host, file: seq<byte>, done: seq<nat>, s: Loader) {
    s.entryPoint == EntryOr(LastMain(file, done), 0, host.mmapBase, Low(file))
  }

  /** A segment precedes every symbol table. */
  ghost predicate SegmentsFirst(file: seq<byte>, offsets: seq<nat>) {
    forall k :: 0 <= k < |offsets| && IsSymtab(file, offsets[k]) ==> HasSegment(file, offsets[..k])
  }

  lemma PlaceAfter(host: Host, file: seq<byte>, s: Loader, p: nat)
    requires WellLaidOut(file) && Maps(host, file)
    requires (s.imgAddr == host.mmapBase && s.vAddr == Low(file)) || (s.imgAddr == 0 && s.vAddr == 0)
    ensures var s' := Exec(host, file, s, p);
      && (IsSegment(file, p) ==> s'.imgAddr == host.mmapBase && s'.vAddr == Low(file))
      && (IsSegment(file, p) ==> s'.segments == Record(s.segments, InfoOf(file, p, host.mmapBase, Low(file))))
      && (!IsSegment(file, p) ==> s'.imgAddr == s.imgAddr && s'.vAddr == s.vAddr && s'.segments == s.segments)
      && s'.entryPoint == (if IsSymtab(file, p) then ScanSymbols(file, p, 0, s.entryPoint, s.imgAddr, s.vAddr)
                           else s.entryPoint)
      && s'.binds == s.binds + (if IsDyldInfo(file, p) then BindsOf(file, p, s.segments) else [])
      && s'.dylibs == s.dylibs + (if IsLoadDylib(file, p) then [DylibName(file, p)] else [])
  {
    hide U32, Exec, ScanSymbols, AlignToPage, ImageExtent, AllOffsets, AllInside, LoadSegment, Record, InfoOf, BindsOf, DylibName;
    SegmentsInside(file);
    if IsSegment(file, p) {
      SegmentPlace(host, file, s, p);
    } else {
      OtherPlace(host, file, s, p);
    }
  }

  lemma PlaceStep(host: Host, file: seq<byte>, done: seq<nat>, p: nat, s: Loader)
    requires WellLaidOut(file) && Maps(host, file) && PlaceSoFar(host, file, done, s)
    ensures PlaceSoFar(host, file, done + [p], Exec(host, file, s, p))
  {
    hide Exec, WellLaidOut, Maps, Low, Command, ScanSymbols, InfoOf, Record, BindsOf, DylibName;
    PlaceAfter(host, file, s, p);
    var done' := done + [p];
    assert done'[..|done|] == done && done'[|done|] == p;
    assert forall k :: 0 <= k < |done| ==> done'[k] == done[k];
  }

  lemma EntryStep(host: Host, file: seq<byte>, done: seq<nat>, p: nat, s: Loader)
    requires WellLaidOut(file) && Maps(host, file)
    requires PlaceSoFar(host, file, done, s) && EntrySoFar(host, file, done, s)
    requires IsSymtab(file, p) ==> HasSegment(file, done)
    ensures EntrySoFar(host, file, done + [p], Exec(host, file, s, p))
  {
    hide Exec, WellLaidOut, Maps, Low, Command, MainValue, ScanSymbols, SymbolCount, InfoOf, Record, HasSegment, Recorded;
    PlaceAfter(host, file, s, p);
    var done' := done + [p];
    assert done'[..|done|] == done && done'[|done|] == p;
    if IsSymtab(file, p) {
      NoneYet(file, p);
      ScanFindsLast(file, p, 0, s.entryPoint, s.imgAddr, s.vAddr);
    }
  }

  lemma NoneYet(file: seq<byte>, p: nat)
    ensures MainValue(file, p, 0) == None
  {
  }

  lemma NothingDone(host: Host, file: seq<byte>)
    ensures PlaceSoFar(host, file, [], INITIAL) && EntrySoFar(host, file, [], INITIAL)
  {
  }

  /** The invariant of any run that stays inside the image, with fixup commands anywhere. */
  lemma {:induction false} PlaceRun(host: Host, file: seq<byte>, offs: seq<nat>, n: nat)
    requires WellLaidOut(file) && Maps(host, file) && n <= |offs|
    requires !RunCommands(host, file, INITIAL, offs[..n]).image.trapped
    ensures PlaceSoFar(host, file, offs[..n], RunCommands(host, file, INITIAL, offs[..n]))
    ensures SegmentsFirst(file, offs) ==>
      EntrySoFar(host, file, offs[..n], RunCommands(host, file, INITIAL, offs[..n]))
    decreases n
  {
    hide Exec, WellLaidOut, Maps, Low, IsSymtab, HasSegment, PlaceSoFar, EntrySoFar;
    if n == 0 {
      assert offs[..n] == [];
      NothingDone(host, file);
    } else {
      var done := offs[..n - 1];
      var p := offs[n - 1];
      assert offs[..n] == done + [p];
      RunAppend(host, file, INITIAL, done, [p]);
      assert [p][1..] == [];
      PlaceRun(host, file, offs, n - 1);
      PlaceStep(host, file, done, p, RunCommands(host, file, INITIAL, done));
      if SegmentsFirst(file, offs) {
        EntryStep(host, file, done, p, RunCommands(host, file, INITIAL, done));
      }
    }
  }

  /** After loading: the mapping, and all four tables of the commands, in order. */
  lemma LoadedTable(host: Host, file: seq<byte>)
    requires WellLaidOut(file) && Maps(host, file) && U32(file, 12) == MH_EXECUTE
    requires !Load(host, file).image.trapped
    ensures var r := Load(host, file); var offs := AllOffsets(file);
      && r.imgAddr == host.mmapBase && r.vAddr == Low(file)
      && r.segments == Recorded(file, host.mmapBase, Low(file), offs)
      && r.dylibs == DylibNames(file, offs)
      && r.binds == BindTable(file, host.mmapBase, Low(file), offs)
  {
    hide U32, AllOffsets, Low, Maps, RunCommands, Recorded, DylibNames, BindTable, ImageExtent, SegName, VmSize, Command, SizedOffsets, AllGood, DisjointSegments;
    var offs := AllOffsets(file);
    assert offs[..|offs|] == offs;
    PlaceRun(host, file, offs, |offs|);
    var k :| 0 <= k < |offs| && TakesRoom(file, offs[k]);
    assert HasSegment(file, offs);
  }

  /** The offset of the n-th segment command of the file. */
  function SegmentCommand(file: seq<byte>, n: nat): nat {
    var commands := SegmentCommands(file, AllOffsets(file));
    if n < |commands| then commands[n] else 0
  }

  /** Recorded where its bytes are: it takes up room, and is not a __TEXT above the lowest segment. */
  predicate AtItsBytes(file: seq<byte>, p: nat) {
    TakesRoom(file, p) && (SegName(file, p) == TEXT ==> VmAddr(file, p) == Low(file))
  }

  /** Layout invariant of the recorded table: it has the first 32 segment commands in order; entry n
      has the range of the n-th one; and unless that is __PAGEZERO, which is unmapped, or has no
      room, it is mapped inside the image, at its distance from the lowest segment, except for a
      __TEXT that is not the lowest. */
  lemma LoadedSegment(host: Host, file: seq<byte>, n: nat)
    requires WellLaidOut(file) && Maps(host, file) && U32(file, 12) == MH_EXECUTE
    requires !Load(host, file).image.trapped && n < |Load(host, file).segments|
    ensures var commands := SegmentCommands(file, AllOffsets(file));
      |Load(host, file).segments| == if |commands| <= MAX_SEGMENTS then |commands| else MAX_SEGMENTS
    ensures var info := Load(host, file).segments[n]; var p := SegmentCommand(file, n);
      && info.vmaddr == VmAddr(file, p) && info.vmsize == VmSize(file, p)
      && (SegName(file, p) == PAGEZERO ==> info.mapped == 0)
      && (TakesRoom(file, p) ==>
            host.mmapBase <= info.mapped && info.mapped + info.vmsize <= host.mmapBase + MapSize(file))
      && (TakesRoom(file, p) ==>
            (AtItsBytes(file, p) <==> info.mapped == host.mmapBase + (info.vmaddr - Low(file))))
  {
    hide U32, U64, AllOffsets, Low, MapSize, RunCommands, Recorded, Inside, ImageExtent, TakesRoom, SegName, IsSegment, Slice, MappedAddress, SizedOffsets, AllGood, DisjointSegments, VmAddr, VmSize;
    var offs := AllOffsets(file);
    LoadedTable(host, file);
    RecordedInOrder(file, host.mmapBase, Low(file), offs);
    var p := SegmentCommand(file, n);
    assert p == SegmentCommands(file, offs)[n] && p in offs;
    SegmentsInside(file);
    if SegName(file, p) == PAGEZERO {
      PagezeroUnmapped(file, p, host.mmapBase, Low(file));
    } else if TakesRoom(file, p) {
      MappedAtItsBytes(file, p, host.mmapBase, Low(file), MapSize(file));
    }
  }

  lemma PagezeroUnmapped(file: seq<byte>, p: nat, imgAddr: u64, vAddr: u64)
    requires SegName(file, p) == PAGEZERO
    ensures InfoOf(file, p, imgAddr, vAddr).mapped == 0 && !TakesRoom(file, p)
  {
  }

  /** Filter soundness in a loaded context: the bind entry for any segment index, and an offset
      inside the segment if there is one, is skipped exactly if the index is bad, the segment is not
      mapped, or the entry is for the first byte of the image. */
  lemma LoadedFilter(host: Host, file: seq<byte>, index: int, offset: u64, name: Option<Name>)
    requires WellLaidOut(file) && Maps(host, file) && U32(file, 12) == MH_EXECUTE
    requires !Load(host, file).image.trapped
    requires var segs := Load(host, file).segments; 0 <= index < |segs| && segs[index].mapped != 0 ==>
      offset < segs[index].vmsize
    ensures var segs := Load(host, file).segments;
      Binder.Skipped(host.mmapBase, BindInfo(name, BindStream.BindAddress(segs, index, offset))) <==>
        !(0 <= index < |segs|) || segs[index].mapped == 0 || segs[index].mapped + offset == host.mmapBase
  {
    hide U32, Load, AllOffsets, Low, MapSize, WellLaidOut, VmAddr, SegName, IsSegment, BindStream.BindAddress, Binder.Skipped;
    var segs := Load(host, file).segments;
    if 0 <= index < |segs| {
      LoadedSegment(host, file, index);
    }
    Binder.SkippedMeans(segs, host.mmapBase, MapSize(file), index, offset, name);
  }

  predicate RangesApart(a: nat, size: nat, b: nat, size': nat) {
    a + size <= b || b + size' <= a
  }

  /** Two loaded segments keep their distance, and are disjoint in memory exactly if they are in the file. */
  lemma DistancesKept(host: Host, file: seq<byte>, n: nat, m: nat)
    requires WellLaidOut(file) && Maps(host, file) && U32(file, 12) == MH_EXECUTE
    requires !Load(host, file).image.trapped
    requires n < |Load(host, file).segments| && m < |Load(host, file).segments|
    requires AtItsBytes(file, SegmentCommand(file, n))
    requires AtItsBytes(file, SegmentCommand(file, m))
    ensures var a, b := Load(host, file).segments[n], Load(host, file).segments[m];
      && a.mapped - b.mapped == a.vmaddr - b.vmaddr
      && (RangesApart(a.mapped, a.vmsize, b.mapped, b.vmsize) <==>
            RangesApart(a.vmaddr, a.vmsize, b.vmaddr, b.vmsize))
  {
    hide U32, Load, AllOffsets, Low, MapSize, WellLaidOut, Maps, TakesRoom, SegName, VmAddr, VmSize;
    LoadedSegment(host, file, n);
    LoadedSegment(host, file, m);
  }

  /** Entry point: when a segment precedes every symbol table, the entry point after loading is that
      of the last symbol named _main over all symbol tables, slid by the mapping. */
  lemma EntryIsLastMain(host: Host, file: seq<byte>)
    requires WellLaidOut(file) && Maps(host, file) && U32(file, 12) == MH_EXECUTE
    requires SegmentsFirst(file, AllOffsets(file)) && !Load(host, file).image.trapped
    ensures Load(host, file).entryPoint
         == EntryOr(LastMain(file, AllOffsets(file)), 0, host.mmapBase, Low(file))
  {
    hide U32, AllOffsets, WellLaidOut, Maps, Low, SegmentsFirst, RunCommands, LastMain, HasSegment;
    var offs := AllOffsets(file);
    assert offs[..|offs|] == offs;
    PlaceRun(host, file, offs, |offs|);
  }

  /** The loaded entry point for a _main in the range of __TEXT lies inside the recorded mapping of
      __TEXT exactly if it is less than the size of __TEXT above the lowest segment: always, when
      __TEXT is the lowest one. */
  lemma EntryInsideText(host: Host, file: seq<byte>, n: nat)
    requires WellLaidOut(file) && Maps(host, file) && U32(file, 12) == MH_EXECUTE
    requires SegmentsFirst(file, AllOffsets(file)) && !Load(host, file).image.trapped
    requires n < |Load(host, file).segments|
    requires var p := SegmentCommand(file, n);
      && SegName(file, p) == TEXT && LastMain(file, AllOffsets(file)).Some?
      && VmAddr(file, p) <= LastMain(file, AllOffsets(file)).value < VmAddr(file, p) + VmSize(file, p)
    ensures var text := Load(host, file).segments[n]; var entry := Load(host, file).entryPoint;
      var value := LastMain(file, AllOffsets(file)).value;
      && (text.mapped <= entry < text.mapped + text.vmsize <==> value < Low(file) + text.vmsize)
      && (text.vmaddr == Low(file) ==> text.mapped <= entry < text.mapped + text.vmsize)
  {
    hide U32, Load, AllOffsets, Low, MapSize, WellLaidOut, SegName, VmAddr, VmSize, LastMain, SegmentsFirst, Inside, Relocated, IsSegment;
    var p := SegmentCommand(file, n);
    var value := LastMain(file, AllOffsets(file)).value;
    LoadedSegment(host, file, n);
    EntryIsLastMain(host, file);
    assert p == SegmentCommands(file, AllOffsets(file))[n];
    assert p in AllOffsets(file) && IsSegment(file, p);
    TextTakesRoom(file, p);
    TextIsAtBase(host, file, n);
    SegmentsInside(file);
    RelocatedInside(file, p, value, host.mmapBase);
  }

  lemma TextTakesRoom(file: seq<byte>, p: nat)
    requires IsSegment(file, p) && SegName(file, p) == TEXT && VmSize(file, p) != 0
    ensures TakesRoom(file, p)
  {
    assert |TEXT| != |PAGEZERO|;
  }

  lemma TextIsAtBase(host: Host, file: seq<byte>, n: nat)
    requires WellLaidOut(file) && Maps(host, file) && U32(file, 12) == MH_EXECUTE
    requires !Load(host, file).image.trapped
    requires n < |Load(host, file).segments|
    requires SegName(file, SegmentCommand(file, n)) == TEXT
    ensures Load(host, file).segments[n].mapped == host.mmapBase
  {
    hide U32, Load, AllOffsets, Low, WellLaidOut, Maps, SegName, VmAddr, VmSize, IsSegment, Recorded;
    LoadedTable(host, file);
    RecordedInOrder(file, host.mmapBase, Low(file), AllOffsets(file));
    assert |TEXT| != |PAGEZERO|;
  }

  lemma RelocatedInside(file: seq<byte>, p: nat, value: u64, imgAddr: u64)
    requires WellLaidOut(file) && 0 < imgAddr && imgAddr + MapSize(file) <= TWO64
    requires p in AllOffsets(file) && TakesRoom(file, p)
    requires VmAddr(file, p) <= value < VmAddr(file, p) + VmSize(file, p)
    ensures Relocated(value, imgAddr, Low(file)) == imgAddr + (value - Low(file)) && Low(file) <= value
  {
    hide U32, AllOffsets, Low, MapSize, SegName, VmAddr, VmSize, IsSegment, ImageExtent, SizedOffsets;
    SegmentsInside(file);
    assert Inside(file, p, Low(file), MapSize(file));
  }
}
