/** The load-command walk: what each command does to the loader context, and what a whole run of
    the loader leaves in memory. */
module LoadCommands {
  import opened Memory
  import opened ChainWalk
  import opened LoaderState
  import opened ChainedFixups
  import opened BindStream
  import opened Layout

  const MAIN: Name := Ascii("_main")
  const MH_EXECUTE: u32 := 2

  // ---------- Stepping through the commands ----------

  /** How often the section loop runs: the count is read into an int, so a count with the top bit
      set is negative there. */
  function LoopedSections(file: seq<byte>, p: nat): nat {
    if SectionCount(file, p) < 0x8000_0000 then SectionCount(file, p) else 0
  }

  /** The loader steps over a segment with sections by its 72-byte header and the 80-byte section
      entries, and over any other command by its size. */
  function NextCommand(file: seq<byte>, p: nat): nat {
    if IsSegment(file, p) && SectionCount(file, p) != 0
    then p + 0x48 + 80 * LoopedSections(file, p)
    else p + CommandSize(file, p)
  }

  /** The offsets of `n` commands as the loader steps. */
  function Offsets(file: seq<byte>, p: nat, n: nat): (r: seq<nat>)
    ensures |r| == n
    decreases n, p
  {
    if n == 0 then [] else [p] + Offsets(file, NextCommand(file, p), n - 1)
  }

  /** The size field of a segment with sections covers its header and its section entries. */
  predicate WellSized(file: seq<byte>, p: nat) {
    IsSegment(file, p) && SectionCount(file, p) != 0 ==>
      CommandSize(file, p) == 72 + 80 * LoopedSections(file, p)
  }

  /** The two walkers over the same commands: the loader reaches the offsets of the size-stepping
      scan exactly if every command but the last is well sized. */
  lemma {:induction false} WalkersAgree(file: seq<byte>, p: nat, n: nat)
    ensures Offsets(file, p, n) == SizedOffsets(file, p, n)
       <==> forall k :: 0 <= k < n - 1 ==> WellSized(file, SizedOffsets(file, p, n)[k])
    decreases n
  {
    hide U32, IsSegment, NextCommand, CommandSize, WellSized;
    StepsAgree(file, p);
    var a, b := Offsets(file, p, n), SizedOffsets(file, p, n);
    if n == 1 {
      assert a == [p] + Offsets(file, NextCommand(file, p), 0) == [p];
      assert b == [p] + SizedOffsets(file, p + CommandSize(file, p), 0) == [p];
    } else if n > 1 {
      var q, q' := NextCommand(file, p), p + CommandSize(file, p);
      var ra, rb := Offsets(file, q, n - 1), SizedOffsets(file, q', n - 1);
      assert a == [p] + ra && b == [p] + rb;
      assert ra == [q] + Offsets(file, NextCommand(file, q), n - 2);
      assert rb == [q'] + SizedOffsets(file, q' + CommandSize(file, q'), n - 2);
      assert a[1] == q && b[1] == q' && b[0] == p;
      assert forall k :: 0 <= k < n - 1 ==> rb[k] == b[k + 1];
      assert forall k :: 1 <= k < n ==> b[k] == rb[k - 1];
      if q == q' {
        WalkersAgree(file, q, n - 1);
        assert a == b <==> ra == rb by {
          assert a[1..] == ra && b[1..] == rb;
        }
      }
    }
  }

  lemma StepsAgree(file: seq<byte>, p: nat)
    ensures WellSized(file, p) <==> NextCommand(file, p) == p + CommandSize(file, p)
  {
  }

  // ---------- What each command does ----------

  /** LC_DYLD_INFO: the bind stream, then the lazy bind stream. */
  function LoadBinds(file: seq<byte>, s: Loader, p: nat): Loader {
    var bind, lazy := U32(file, p + 16), U32(file, p + 32);
    var first := Retrieve(file, bind, bind + U32(file, p + 20), s.segments, s.binds);
    s.(binds := Retrieve(file, lazy, lazy + U32(file, p + 36), s.segments, first))
  }

  /** The entries of one LC_DYLD_INFO command: those of its bind stream, then of its lazy stream. */
  function BindsOf(file: seq<byte>, p: nat, segments: seq<SegmentInfo>): seq<BindInfo> {
    var bind, lazy := U32(file, p + 16), U32(file, p + 32);
    Retrieve(file, bind, bind + U32(file, p + 20), segments, [])
    + Retrieve(file, lazy, lazy + U32(file, p + 36), segments, [])
  }

  lemma LoadBindsAppends(file: seq<byte>, s: Loader, p: nat)
    ensures LoadBinds(file, s, p) == s.(binds := s.binds + BindsOf(file, p, s.segments))
  {
    hide U32, Retrieve;
    var bind, lazy := U32(file, p + 16), U32(file, p + 32);
    var first := Retrieve(file, bind, bind + U32(file, p + 20), s.segments, s.binds);
    RetrieveAppends(file, bind, bind + U32(file, p + 20), s.segments, s.binds);
    RetrieveAppends(file, lazy, lazy + U32(file, p + 36), s.segments, first);
  }

  /** The name and the value of symbol `i` of an LC_SYMTAB command. */
  function SymbolName(file: seq<byte>, p: nat, i: nat): Name {
    CString(file, U32(file, p + 16) + U32(file, U32(file, p + 8) + 16 * i))
  }

  function SymbolValue(file: seq<byte>, p: nat, i: nat): u64 {
    U64(file, U32(file, p + 8) + 16 * i + 8)
  }

  function SymbolCount(file: seq<byte>, p: nat): u32 {
    U32(file, p + 12)
  }

  function Relocated(value: u64, imgAddr: u64, vAddr: u64): u64 {
    Wrap64(value - vAddr + imgAddr)
  }

  /** The entry point after the symbols from `i` on. */
  function ScanSymbols(file: seq<byte>, p: nat, i: nat, entry: u64, imgAddr: u64, vAddr: u64): u64
    decreases SymbolCount(file, p) - i
  {
    if i >= SymbolCount(file, p) then entry
    else ScanSymbols(file, p, i + 1,
           if SymbolName(file, p, i) == MAIN then Relocated(SymbolValue(file, p, i), imgAddr, vAddr) else entry,
           imgAddr, vAddr)
  }

  function DylibName(file: seq<byte>, p: nat): Name {
    CString(file, p + U32(file, p + 8))
  }

  predicate IsSymtab(file: seq<byte>, p: nat) {
    Command(file, p) == 0x2
  }

  predicate IsFixups(file: seq<byte>, p: nat) {
    Command(file, p) == 0x8000_0034
  }

  predicate IsDyldInfo(file: seq<byte>, p: nat) {
    Command(file, p) % 0x100 == 0x22
  }

  predicate IsLoadDylib(file: seq<byte>, p: nat) {
    Command(file, p) == 0xC
  }

  function Exec(host: Host, file: seq<byte>, s: Loader, p: nat): Loader {
    if IsSegment(file, p) then LoadSegment(host, file, s, p)
    else if IsDyldInfo(file, p) then LoadBinds(file, s, p)
    else if IsSymtab(file, p) then
      s.(entryPoint := ScanSymbols(file, p, 0, s.entryPoint, s.imgAddr, s.vAddr))
    else if IsLoadDylib(file, p) then s.(dylibs := s.dylibs + [DylibName(file, p)])
    else if IsFixups(file, p) then ApplyFixups(host, file, s, U32(file, p + 8), U32(file, p + 12))
    else s
  }

  function RunCommands(host: Host, file: seq<byte>, s: Loader, offsets: seq<nat>): Loader
    decreases |offsets|
  {
    if offsets == [] || s.image.trapped then s
    else RunCommands(host, file, Exec(host, file, s, offsets[0]), offsets[1..])
  }

  function AllOffsets(file: seq<byte>): seq<nat> {
    Offsets(file, HEADER_SIZE, CommandCount(file))
  }

  /** The 64-bit loader on a fresh context; only executables are loaded. */
  function Load(host: Host, file: seq<byte>): Loader {
    if U32(file, 12) != MH_EXECUTE then INITIAL
    else RunCommands(host, file, INITIAL, AllOffsets(file))
  }

  lemma {:induction false} RunAppend(host: Host, file: seq<byte>, s: Loader, a: seq<nat>, b: seq<nat>)
    ensures RunCommands(host, file, s, a + b)
         == RunCommands(host, file, RunCommands(host, file, s, a), b)
    decreases |a|
  {
    hide Exec;
    if a == [] {
      assert a + b == b;
    } else if !s.image.trapped {
      assert (a + b)[1..] == a[1..] + b;
      RunAppend(host, file, Exec(host, file, s, a[0]), a[1..], b);
    }
  }

  // ---------- Laid-out files ----------

  /** The lowest address and the size of the mapping. */
  function Low(file: seq<byte>): u64 {
    ImageExtent(file).0
  }

  function MapSize(file: seq<byte>): nat {
    AlignToPage(Wrap64(ImageExtent(file).1 - ImageExtent(file).0))
  }

  /** The commands as a linker lays them out: both walkers see the same ones, the segments are
      good and disjoint, at least one takes room, and none is at address zero. */
  ghost predicate WellLaidOut(file: seq<byte>) {
    var offs := AllOffsets(file);
    && offs == SizedOffsets(file, HEADER_SIZE, CommandCount(file))
    && AllGood(file, offs)
    && DisjointSegments(file, offs)
    && (exists k :: 0 <= k < |offs| && TakesRoom(file, offs[k]))
    && 0 < Low(file)
    && ImageExtent(file).1 - Low(file) + PAGE <= TWO64
  }

  /** mmap succeeds, at an address where the image fits. */
  predicate Maps(host: Host, file: seq<byte>) {
    0 < host.mmapBase && host.mmapBase + MapSize(file) <= TWO64
  }

  /** Layout invariant: every segment lies inside the mapping, which starts at one of them and is the
      least whole number of pages that covers them all. */
  lemma SegmentsInside(file: seq<byte>)
    requires WellLaidOut(file)
    ensures AllInside(file, AllOffsets(file), Low(file), MapSize(file))
    ensures var (lo, hi) := ImageExtent(file);
      lo == Low(file) < hi && lo != MAX64 && hi - lo <= MapSize(file) == AlignToPage(hi - lo)
    ensures exists k :: 0 <= k < |AllOffsets(file)| && TakesRoom(file, AllOffsets(file)[k]) && VmAddr(file, AllOffsets(file)[k]) == Low(file)
    ensures MapSize(file) % 0x1000 == 0
    ensures forall m: nat :: m % 0x1000 == 0 && AllInside(file, AllOffsets(file), Low(file), m) ==> MapSize(file) <= m
  {
    hide VmAddr, VmSize, FileSize, AllOffsets, SizedOffsets, Extent, AlignToPage, TakesRoom, SegName, IsSegment, DisjointSegments, GoodSegment;
    var (lo, hi) := ImageExtent(file);
    var offs := AllOffsets(file);
    ExtentBounds(file, offs, MAX64, 0);
    var k :| 0 <= k < |offs| && TakesRoom(file, offs[k]);
    RoomBelowTop(file, offs[k]);
    AlignIsLeast(hi - lo);
    SmallOffset(hi, lo);
    forall m: nat | m % 0x1000 == 0 && AllInside(file, offs, lo, m) ensures MapSize(file) <= m {
      var last :| 0 <= last < |offs| && TakesRoom(file, offs[last]) && hi == SegmentEnd(file, offs[last]);
      assert Inside(file, offs[last], lo, m);
    }
  }

  lemma RoomBelowTop(file: seq<byte>, p: nat)
    requires TakesRoom(file, p) && GoodSegment(file, p)
    ensures VmAddr(file, p) < VmAddr(file, p) + VmSize(file, p) < TWO64
  {
  }

  ghost predicate NoFixups(file: seq<byte>, offsets: seq<nat>) {
    forall k :: 0 <= k < |offsets| ==> !IsFixups(file, offsets[k])
  }

  predicate HasSegment(file: seq<byte>, offsets: seq<nat>) {
    exists k :: 0 <= k < |offsets| && IsSegment(file, offsets[k])
  }

  /** What the image, its place and the recorded segments are after the commands `done`, none of
      which is a fixup command. */
  ghost predicate Established(host: Host, file: seq<byte>, done: seq<nat>, s: Loader) {
    && s.image.tally == Tally(0, 0, 0) && !s.image.trapped
    && (if HasSegment(file, done)
        then s.imgAddr == host.mmapBase && s.vAddr == Low(file)
             && s.image.mem == LayoutBytes(file, Low(file), MapSize(file), done)
        else s.imgAddr == 0 && s.vAddr == 0 && s.image.mem == [])
    && s.segments == Recorded(file, host.mmapBase, Low(file), done)
  }

  lemma {:induction false} NothingYet(file: seq<byte>, imgAddr: u64, lo: u64, size: nat, offsets: seq<nat>)
    requires !HasSegment(file, offsets)
    ensures LayoutBytes(file, lo, size, offsets) == Zeros(size)
    ensures Recorded(file, imgAddr, lo, offsets) == []
    decreases |offsets|
  {
    hide IsSegment, Zeros;
    if offsets != [] {
      var last := |offsets| - 1;
      assert !IsSegment(file, offsets[last]);
      assert forall k :: 0 <= k < last ==> offsets[..last][k] == offsets[k];
      NothingYet(file, imgAddr, lo, size, offsets[..last]);
    }
  }

  lemma MappingEstablished(host: Host, file: seq<byte>, done: seq<nat>, s: Loader)
    requires WellLaidOut(file) && Maps(host, file) && Established(host, file, done, s)
    ensures var s' := EnsureMapping(host, file, s);
      && s'.imgAddr == host.mmapBase && s'.vAddr == Low(file)
      && s'.image == Image(LayoutBytes(file, Low(file), MapSize(file), done), Tally(0, 0, 0), false)
      && s'.segments == s.segments && s'.entryPoint == s.entryPoint
      && s'.binds == s.binds && s'.dylibs == s.dylibs
  {
    hide LayoutBytes, Recorded, AlignToPage, AllInside, ImageExtent, HasSegment, WellLaidOut;
    SegmentsInside(file);
    if !HasSegment(file, done) {
      NothingYet(file, host.mmapBase, Low(file), MapSize(file), done);
    }
  }

  /** One more segment keeps the layout. */
  lemma SegmentKeeps(host: Host, file: seq<byte>, done: seq<nat>, p: nat, s: Loader)
    requires WellLaidOut(file) && Maps(host, file) && Established(host, file, done, s)
    requires IsSegment(file, p) && GoodSegment(file, p)
    requires TakesRoom(file, p) ==> Inside(file, p, Low(file), MapSize(file))
    ensures Established(host, file, done + [p], LoadSegment(host, file, s, p))
  {
    hide WellLaidOut, EnsureMapping, Low, MapSize, VmAddr, VmSize, FileSize, FileOff, SegName, Wrap64, InfoOf, Maps;
    var lo, size := Low(file), MapSize(file);
    var s1 := EnsureMapping(host, file, s);
    MappingEstablished(host, file, done, s);
    MapsAndLow(host, file);
    assert (done + [p])[..|done|] == done;
    assert (done + [p])[|done|] == p;
    assert HasSegment(file, done + [p]);
    if HasBytes(file, p) {
      SmallOffset(VmAddr(file, p), lo);
    }
  }

  lemma MapsAndLow(host: Host, file: seq<byte>)
    requires WellLaidOut(file) && Maps(host, file)
    ensures 0 < Low(file) && 0 < host.mmapBase
  {
    hide Low, MapSize;
  }

  /** A command that is neither a segment nor fixups leaves the image and the segments alone. */
  lemma OtherCommand(host: Host, file: seq<byte>, s: Loader, p: nat)
    requires !IsSegment(file, p) && !IsFixups(file, p)
    ensures var s' := Exec(host, file, s, p);
      s'.image == s.image && s'.imgAddr == s.imgAddr && s'.vAddr == s.vAddr && s'.segments == s.segments
  {
    hide U32, Retrieve, ScanSymbols, IsSegment, IsFixups, ApplyFixups, LoadSegment;
  }

  lemma SegmentPlace(host: Host, file: seq<byte>, s: Loader, p: nat)
    requires IsSegment(file, p)
    ensures var s' := Exec(host, file, s, p); var m := EnsureMapping(host, file, s);
      && s'.imgAddr == m.imgAddr && s'.vAddr == m.vAddr && s'.entryPoint == s.entryPoint
      && s'.binds == s.binds && s'.dylibs == s.dylibs
      && s'.segments == Record(s.segments, InfoOf(file, p, m.imgAddr, m.vAddr))
  {
    hide U32, ImageExtent, AlignToPage, Zeros, SegName, VmAddr, FileSize, Slice, Overlay, InfoOf, IsSegment, Record;
  }

  /** Any other command leaves the mapping and the segments alone; only a symbol table moves the entry
      point, only bind info adds to the bind table, and only a library command to the libraries. */
  lemma OtherPlace(host: Host, file: seq<byte>, s: Loader, p: nat)
    requires !IsSegment(file, p)
    ensures var s' := Exec(host, file, s, p);
      && s'.imgAddr == s.imgAddr && s'.vAddr == s.vAddr && s'.segments == s.segments
      && s'.entryPoint == (if IsSymtab(file, p) then ScanSymbols(file, p, 0, s.entryPoint, s.imgAddr, s.vAddr)
                           else s.entryPoint)
      && s'.binds == s.binds + (if IsDyldInfo(file, p) then BindsOf(file, p, s.segments) else [])
      && s'.dylibs == s.dylibs + (if IsLoadDylib(file, p) then [DylibName(file, p)] else [])
  {
    hide U32, Retrieve, ScanSymbols, IsSegment, WalkAll, FixupStarts, FixRule, LoadSegment, DylibName, LoadBinds;
    LoadBindsAppends(file, s, p);
  }

  lemma OtherKeeps(host: Host, file: seq<byte>, done: seq<nat>, p: nat, s: Loader)
    requires Established(host, file, done, s)
    requires !IsSegment(file, p) && !IsFixups(file, p)
    ensures Established(host, file, done + [p], Exec(host, file, s, p))
  {
    hide IsSegment, IsFixups, Exec, Low, MapSize;
    OtherCommand(host, file, s, p);
    var done' := done + [p];
    assert done'[..|done|] == done && done'[|done|] == p;
    assert forall k :: 0 <= k < |done| ==> done'[k] == done[k];
  }

  /** The invariant of the whole run, up to the first fixup command. */
  lemma {:induction false} LayoutRun(host: Host, file: seq<byte>, n: nat)
    requires WellLaidOut(file) && Maps(host, file)
    requires n <= |AllOffsets(file)| && NoFixups(file, AllOffsets(file)[..n])
    ensures Established(host, file, AllOffsets(file)[..n], RunCommands(host, file, INITIAL, AllOffsets(file)[..n]))
    decreases n
  {
    hide U32, Offsets, WellLaidOut, Maps, Low, MapSize, IsSegment, IsFixups, Exec, GoodSegment, TakesRoom, Inside;
    var offs := AllOffsets(file);
    if n == 0 {
      assert offs[..n] == [];
    } else {
      var done := offs[..n - 1];
      var p := offs[n - 1];
      assert offs[..n] == done + [p];
      assert forall k :: 0 <= k < n - 1 ==> done[k] == offs[..n][k];
      LayoutRun(host, file, n - 1);
      RunAppend(host, file, INITIAL, done, [p]);
      assert !IsFixups(file, offs[..n][n - 1]);
      LayoutRunStep(host, file, done, p, RunCommands(host, file, INITIAL, done), n - 1);
    }
  }

  lemma LayoutRunStep(host: Host, file: seq<byte>, done: seq<nat>, p: nat, s: Loader, k: nat)
    requires WellLaidOut(file) && Maps(host, file)
    requires k < |AllOffsets(file)| && p == AllOffsets(file)[k] && !IsFixups(file, p)
    requires Established(host, file, done, s)
    ensures Established(host, file, done + [p], RunCommands(host, file, s, [p]))
  {
    hide U32, Offsets, Maps, Low, MapSize, IsSegment, IsFixups, LoadSegment, GoodSegment, TakesRoom, Inside, SizedOffsets, ImageExtent, Established;
    SegmentsInside(file);
    assert RunCommands(host, file, s, [p]) == Exec(host, file, s, p) by {
      NotTrapped(host, file, done, s);
      assert [p][1..] == [];
    }
    if IsSegment(file, p) {
      SegmentKeeps(host, file, done, p, s);
    } else {
      OtherKeeps(host, file, done, p, s);
    }
  }

  lemma NotTrapped(host: Host, file: seq<byte>, done: seq<nat>, s: Loader)
    requires Established(host, file, done, s)
    ensures !s.image.trapped
  {
    hide Low, MapSize, HasSegment;
  }
}
