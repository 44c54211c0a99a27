/** End to end: the final image of a well-laid-out file with one chained-fixup command, and the same
    file at two bases. */
module LoadedImage {
  import opened Memory
  import opened ChainWalk
  import opened LoaderState
  import opened ChainedFixups
  import opened Layout
  import opened LoadCommands

  /** All segments come before the one fixup command, which is command `f`. */
  ghost predicate FixupsAt(file: seq<byte>, f: nat) {
    var offs := AllOffsets(file);
    && f < |offs| && IsFixups(file, offs[f])
    && NoFixups(file, offs[..f])
    && forall k :: f < k < |offs| ==> !IsFixups(file, offs[k]) && !IsSegment(file, offs[k])
  }

  /** The image before any fixup: the file bytes of all segments, zeros elsewhere. */
  function SegmentImage(file: seq<byte>): seq<byte> {
    LayoutBytes(file, Low(file), MapSize(file), AllOffsets(file))
  }

  function SegmentTable(host: Host, file: seq<byte>): seq<SegmentInfo> {
    Recorded(file, host.mmapBase, Low(file), AllOffsets(file))
  }

  /** The offset of command `f` in the file. */
  function CommandAt(file: seq<byte>, f: nat): nat {
    if f < |AllOffsets(file)| then AllOffsets(file)[f] else 0
  }

  function Starts(host: Host, file: seq<byte>, f: nat): seq<nat> {
    var p := CommandAt(file, f);
    FixupStarts(file, U32(file, p + 8), U32(file, p + 12), SegmentTable(host, file))
  }

  function TheRule(host: Host, file: seq<byte>, f: nat): Rule {
    FixRule(host, host.mmapBase, file, U32(file, CommandAt(file, f) + 8))
  }

  /** Commands after the last segment add nothing to the layout. */
  lemma {:induction false} LayoutIgnores(file: seq<byte>, imgAddr: u64, lo: u64, size: nat, offsets: seq<nat>, n: nat)
    requires n <= |offsets| && forall k :: n <= k < |offsets| ==> !IsSegment(file, offsets[k])
    ensures LayoutBytes(file, lo, size, offsets) == LayoutBytes(file, lo, size, offsets[..n])
    ensures Recorded(file, imgAddr, lo, offsets) == Recorded(file, imgAddr, lo, offsets[..n])
    decreases |offsets|
  {
    hide IsSegment;
    if n == |offsets| {
      assert offsets[..n] == offsets;
    } else {
      var last := |offsets| - 1;
      assert offsets[..last][..n] == offsets[..n];
      assert !IsSegment(file, offsets[last]);
      LayoutIgnores(file, imgAddr, lo, size, offsets[..last], n);
    }
  }

  lemma {:induction false} TailKeeps(host: Host, file: seq<byte>, s: Loader, tail: seq<nat>)
    requires forall k :: 0 <= k < |tail| ==> !IsFixups(file, tail[k]) && !IsSegment(file, tail[k])
    ensures var r := RunCommands(host, file, s, tail);
      r.image == s.image && r.imgAddr == s.imgAddr && r.vAddr == s.vAddr && r.segments == s.segments
    decreases |tail|
  {
    hide Exec, IsFixups, IsSegment;
    if tail != [] && !s.image.trapped {
      OtherCommand(host, file, s, tail[0]);
      TailKeeps(host, file, Exec(host, file, s, tail[0]), tail[1..]);
    }
  }

  /** Before the fixups, the run has laid out the whole image. */
  lemma BeforeFixups(host: Host, file: seq<byte>, f: nat)
    requires WellLaidOut(file) && Maps(host, file) && FixupsAt(file, f)
    ensures var s := RunCommands(host, file, INITIAL, AllOffsets(file)[..f]);
      && s.imgAddr == host.mmapBase && s.vAddr == Low(file)
      && s.image == Image(SegmentImage(file), Tally(0, 0, 0), false)
      && s.segments == SegmentTable(host, file)
  {
    hide AllOffsets, Low, MapSize, Maps, GoodSegment, DisjointSegments, LayoutBytes, Recorded, Command, SegName, VmSize, RunCommands, SizedOffsets, ImageExtent;
    var offs := AllOffsets(file);
    LayoutRun(host, file, f);
    var k :| 0 <= k < |offs| && TakesRoom(file, offs[k]);
    assert k < f && offs[..f][k] == offs[k];
    assert HasSegment(file, offs[..f]);
    LayoutIgnores(file, host.mmapBase, Low(file), MapSize(file), offs, f);
  }

  lemma FixupCommand(host: Host, file: seq<byte>, s: Loader, p: nat)
    requires IsFixups(file, p) && !s.image.trapped
    ensures RunCommands(host, file, s, [p]) == ApplyFixups(host, file, s, U32(file, p + 8), U32(file, p + 12))
  {
    hide ApplyFixups;
    assert [p][1..] == [];
  }

  /** The run is: lay out, fix up, and nothing more to the image. */
  lemma LoadIsLayoutThenWalk(host: Host, file: seq<byte>, f: nat)
    requires WellLaidOut(file) && Maps(host, file) && FixupsAt(file, f) && U32(file, 12) == MH_EXECUTE
    ensures var r := Load(host, file);
      && r.image == WalkAll(TheRule(host, file, f), Image(SegmentImage(file), Tally(0, 0, 0), false), Starts(host, file, f))
      && r.imgAddr == host.mmapBase && r.vAddr == Low(file)
      && r.segments == SegmentTable(host, file)
  {
    hide U32, AllOffsets, Low, MapSize, Maps, WellLaidOut, RunCommands, SegmentImage, SegmentTable, FixupStarts, WalkAll, FixRule, IsFixups, IsSegment;
    var offs := AllOffsets(file);
    var p := offs[f];
    var tail := offs[f + 1..];
    var s := RunCommands(host, file, INITIAL, offs[..f]);
    BeforeFixups(host, file, f);
    var s' := RunCommands(host, file, s, [p]);
    FixupCommand(host, file, s, p);
    assert offs == offs[..f] + ([p] + tail);
    RunAppend(host, file, INITIAL, offs[..f], [p] + tail);
    RunAppend(host, file, s, [p], tail);
    assert forall k :: 0 <= k < |tail| ==> tail[k] == offs[f + 1 + k];
    TailKeeps(host, file, s', tail);
  }

  /** The fixup payload keeps to the format, over the bytes that the segments put in the image. */
  ghost predicate GoodFixups(host: Host, file: seq<byte>, f: nat) {
    var p := CommandAt(file, f);
    var dataoff, datasize := U32(file, p + 8), U32(file, p + 12);
    GoodHeader(file, dataoff, datasize) ==>
      GoodPayload(file, dataoff + U32(file, dataoff + 4), dataoff + datasize,
                  SegmentTable(host, file), SegmentImage(file))
  }

  /** The chains of such a file are well formed. */
  lemma FormatMakesWellFormed(host: Host, file: seq<byte>, f: nat)
    requires GoodFixups(host, file, f)
    ensures WellFormed(SegmentImage(file), Starts(host, file, f))
  {
    hide U32, SegmentTable, SegmentImage, GoodPayload, CommandAt, ChainInside, Plan, ImageStarts;
    var p := CommandAt(file, f);
    var dataoff, datasize := U32(file, p + 8), U32(file, p + 12);
    if GoodHeader(file, dataoff, datasize) {
      PayloadMakesWellFormed(file, dataoff + U32(file, dataoff + 4), dataoff + datasize,
                             SegmentTable(host, file), SegmentImage(file), 0);
    } else {
      NoPlan(SegmentImage(file));
    }
  }

  /** End to end: if all segments precede the one fixup command and the chains in the segments'
      bytes are well formed, the final memory is the segments' file bytes laid out at their
      distance from the lowest segment, zeros elsewhere, with every chained word fixed up. */
  lemma LoadedMemory(host: Host, file: seq<byte>, f: nat)
    requires WellLaidOut(file) && Maps(host, file) && FixupsAt(file, f) && U32(file, 12) == MH_EXECUTE
    requires WellFormed(SegmentImage(file), Starts(host, file, f))
    ensures var r := Load(host, file);
      && !r.image.trapped
      && r.imgAddr == host.mmapBase && r.vAddr == Low(file)
      && FixedUp(TheRule(host, file, f), SegmentImage(file), r.image.mem,
                 Plan(SegmentImage(file), Starts(host, file, f)))
  {
    hide SegmentImage, Starts, TheRule, WellFormed, WalkAll, Plan, FixedUp, Load, Maps, WellLaidOut, FixupsAt;
    LoadIsLayoutThenWalk(host, file, f);
    WalkRefinesTwoPhase(TheRule(host, file, f), Image(SegmentImage(file), Tally(0, 0, 0), false), Starts(host, file, f));
  }

  /** The image before any fixup: offset `i` of a segment holds its file byte, or zero past the file
      bytes. */
  lemma SegmentBytes(file: seq<byte>, k: nat, i: nat)
    requires WellLaidOut(file) && k < |AllOffsets(file)| && i < MapSize(file)
    requires Owns(file, AllOffsets(file)[k], Low(file), i)
    ensures var p := AllOffsets(file)[k]; var j := i - (VmAddr(file, p) - Low(file));
      SegmentImage(file)[i] == if j < FileSize(file, p) then At(file, FileOff(file, p) + j) else 0
  {
    hide AllOffsets, Low, MapSize, Owns, VmAddr, FileSize, FileOff, LayoutBytes, GoodSegment, SegmentsApart, ImageExtent, SizedOffsets, TakesRoom;
    SegmentsInside(file);
    LayoutHolds(file, Low(file), MapSize(file), AllOffsets(file), k, i);
  }

  /** The image before any fixup: every other byte is zero. */
  lemma ZerosOutsideSegments(file: seq<byte>, i: nat)
    requires WellLaidOut(file) && i < MapSize(file)
    requires forall k :: 0 <= k < |AllOffsets(file)| ==> !Owns(file, AllOffsets(file)[k], Low(file), i)
    ensures SegmentImage(file)[i] == 0
  {
    hide AllOffsets, Low, MapSize, Owns, VmAddr, FileSize, FileOff, LayoutBytes, GoodSegment, SegmentsApart, ImageExtent, SizedOffsets, TakesRoom;
    SegmentsInside(file);
    LayoutOutside(file, Low(file), MapSize(file), AllOffsets(file), i);
  }

  /** Without fixup commands the final memory is that image. */
  lemma LoadedWithoutFixups(host: Host, file: seq<byte>)
    requires WellLaidOut(file) && Maps(host, file) && U32(file, 12) == MH_EXECUTE
    requires NoFixups(file, AllOffsets(file))
    ensures Load(host, file).image == Image(SegmentImage(file), Tally(0, 0, 0), false)
  {
    hide U32, AllOffsets, Low, MapSize, Maps, GoodSegment, DisjointSegments, LayoutBytes, Recorded, Command, SegName, VmSize, RunCommands, SizedOffsets, ImageExtent;
    var offs := AllOffsets(file);
    assert offs[..|offs|] == offs;
    LayoutRun(host, file, |offs|);
    var k :| 0 <= k < |offs| && TakesRoom(file, offs[k]);
    assert HasSegment(file, offs);
  }

  // ---------- The same file at two bases ----------

  /** No segment without room is recorded at address zero. */
  ghost predicate EmptiesAreMapped(host: Host, file: seq<byte>) {
    forall k :: 0 <= k < |AllOffsets(file)| && IsEmptySegment(file, AllOffsets(file)[k]) ==>
      MappedAddress(file, AllOffsets(file)[k], host.mmapBase, Low(file)) != 0
  }

  predicate IsEmptySegment(file: seq<byte>, p: nat) {
    IsSegment(file, p) && SegName(file, p) != PAGEZERO && VmSize(file, p) == 0
  }

  ghost predicate SameMapped(a: seq<SegmentInfo>, b: seq<SegmentInfo>) {
    |a| == |b| && forall i :: 0 <= i < |a| ==> (a[i].mapped == 0) == (b[i].mapped == 0)
  }

  lemma MappedIsNonzero(host: Host, file: seq<byte>, k: nat)
    requires WellLaidOut(file) && Maps(host, file) && EmptiesAreMapped(host, file)
    requires k < |AllOffsets(file)| && IsSegment(file, AllOffsets(file)[k])
    ensures InfoOf(file, AllOffsets(file)[k], host.mmapBase, Low(file)).mapped == 0
       <==> SegName(file, AllOffsets(file)[k]) == PAGEZERO
  {
    hide AllOffsets, Low, MapSize, SegName, IsSegment, VmAddr, VmSize, Wrap64, ImageExtent, SizedOffsets, GoodSegment, Inside;
    var p := AllOffsets(file)[k];
    SegmentsInside(file);
    if SegName(file, p) != PAGEZERO && VmSize(file, p) != 0 {
      assert TakesRoom(file, p);
      MappedAtItsBytes(file, p, host.mmapBase, Low(file), MapSize(file));
    }
  }

  /** The same entries are mapped at either base. */
  lemma TablesSlide(h1: Host, h2: Host, file: seq<byte>)
    requires WellLaidOut(file) && Maps(h1, file) && Maps(h2, file)
    requires EmptiesAreMapped(h1, file) && EmptiesAreMapped(h2, file)
    ensures SameMapped(SegmentTable(h1, file), SegmentTable(h2, file))
  {
    hide AllOffsets, Low, WellLaidOut, Maps, EmptiesAreMapped, InfoOf, IsSegment, SegName;
    var offs := AllOffsets(file);
    var commands := SegmentCommands(file, offs);
    var a, b := SegmentTable(h1, file), SegmentTable(h2, file);
    RecordedInOrder(file, h1.mmapBase, Low(file), offs);
    RecordedInOrder(file, h2.mmapBase, Low(file), offs);
    forall n | 0 <= n < |a| ensures (a[n].mapped == 0) == (b[n].mapped == 0) {
      assert commands[n] in offs && IsSegment(file, commands[n]);
      var k :| 0 <= k < |offs| && offs[k] == commands[n];
      MappedIsNonzero(h1, file, k);
      MappedIsNonzero(h2, file, k);
    }
  }

  lemma {:induction false} StartsSlide(file: seq<byte>, starts: nat, end: nat, a: seq<SegmentInfo>, b: seq<SegmentInfo>, i: nat)
    requires SameMapped(a, b)
    ensures ImageStarts(file, starts, end, a, i) == ImageStarts(file, starts, end, b, i)
    decreases U32(file, starts) - i
  {
    hide U32, U16, SegmentStarts;
    if i < U32(file, starts) {
      StartsSlide(file, starts, end, a, b, i + 1);
    }
  }

  /** The same chains are walked, whatever the base. */
  lemma SameStarts(h1: Host, h2: Host, file: seq<byte>, f: nat)
    requires WellLaidOut(file) && Maps(h1, file) && Maps(h2, file)
    requires EmptiesAreMapped(h1, file) && EmptiesAreMapped(h2, file)
    ensures Starts(h1, file, f) == Starts(h2, file, f)
  {
    hide U32, AllOffsets, ImageStarts, EmptiesAreMapped, SameMapped, WellLaidOut, Maps, SegmentTable;
    var p := CommandAt(file, f);
    var dataoff, datasize := U32(file, p + 8), U32(file, p + 12);
    TablesSlide(h1, h2, file);
    StartsSlide(file, dataoff + U32(file, dataoff + 4), dataoff + datasize,
                SegmentTable(h1, file), SegmentTable(h2, file), 0);
  }

  /** Slide theorem: the same file loaded at two bases, with the same import resolver, visits the
      same words, and the two memories differ only at rebased words, by exactly the distance
      between the bases modulo 2^64. */
  lemma LoadsSlide(h1: Host, h2: Host, file: seq<byte>, f: nat)
    requires WellLaidOut(file) && FixupsAt(file, f) && U32(file, 12) == MH_EXECUTE
    requires Maps(h1, file) && Maps(h2, file) && h1.resolve == h2.resolve
    requires EmptiesAreMapped(h1, file) && EmptiesAreMapped(h2, file)
    requires WellFormed(SegmentImage(file), Starts(h1, file, f))
    ensures SlideApart(TheRule(h1, file, f), Plan(SegmentImage(file), Starts(h1, file, f)),
                       Load(h1, file).image.mem, Load(h2, file).image.mem, h1.mmapBase - h2.mmapBase)
  {
    hide U32, AllOffsets, SegmentImage, Starts, Load, WalkAll, Plan, FixedUp, WellFormed, WellLaidOut, Maps, FixupsAt, EmptiesAreMapped, SlideApart, HowMany, Slides, Wrap64, FixWord;
    SameStarts(h1, h2, file, f);
    LoadedMemory(h1, file, f);
    LoadedMemory(h2, file, f);
    RulesSlide(h1, h2, h1.mmapBase, h2.mmapBase, file, U32(file, CommandAt(file, f) + 8));
    FixupsSlide(TheRule(h1, file, f), TheRule(h2, file, f), h1.mmapBase - h2.mmapBase, SegmentImage(file),
                Load(h1, file).image.mem, Load(h2, file).image.mem, Plan(SegmentImage(file), Starts(h1, file, f)));
  }

  /** The counters do not depend on the base. */
  lemma CountersDoNotSlide(h1: Host, h2: Host, file: seq<byte>, f: nat)
    requires WellLaidOut(file) && FixupsAt(file, f) && U32(file, 12) == MH_EXECUTE
    requires Maps(h1, file) && Maps(h2, file) && h1.resolve == h2.resolve
    requires EmptiesAreMapped(h1, file) && EmptiesAreMapped(h2, file)
    requires WellFormed(SegmentImage(file), Starts(h1, file, f))
    ensures Load(h1, file).image.tally == Load(h2, file).image.tally
  {
    hide U32, AllOffsets, SegmentImage, Starts, Load, WalkAll, Plan, FixedUp, WellFormed, WellLaidOut, Maps, FixupsAt, EmptiesAreMapped, HowMany, Slides, Replay, FixWord;
    var r1, r2 := TheRule(h1, file, f), TheRule(h2, file, f);
    var s := Image(SegmentImage(file), Tally(0, 0, 0), false);
    var plan := Plan(SegmentImage(file), Starts(h1, file, f));
    var d := h1.mmapBase - h2.mmapBase;
    SameStarts(h1, h2, file, f);
    LoadIsLayoutThenWalk(h1, file, f);
    LoadIsLayoutThenWalk(h2, file, f);
    WalkRefinesTwoPhase(r1, s, Starts(h1, file, f));
    WalkRefinesTwoPhase(r2, s, Starts(h1, file, f));
    RulesSlide(h1, h2, h1.mmapBase, h2.mmapBase, file, U32(file, CommandAt(file, f) + 8));
    ReplayTally(r1, s, plan);
    ReplayTally(r2, s, plan);
    TallySlides(r1, r2, d, plan, Rebases);
    TallySlides(r1, r2, d, plan, Binds);
    TallySlides(r1, r2, d, plan, Unresolved);
  }
}
