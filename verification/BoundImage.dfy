/** From the file to bound memory: loading, then do_bind. */
module BoundImage {
  import opened Memory
  import opened LoaderState
  import BindStream
  import BindEncoder
  import opened Binder
  import opened Layout
  import opened LoadCommands
  import opened LoadedImage
  import opened LoadedTables

  /** The libraries in the order they are tried: the load commands', then libc and libm. */
  function LibraryOrder(file: seq<byte>): seq<Name> {
    DylibNames(file, AllOffsets(file)) + [Ascii("libc.so.6"), Ascii("libm.so.6")]
  }

  /** Loading, then binding: each slot of the file's bind table ends with the value of the last library
      that defines its symbol, in load-command order and then libc and libm; a slot that none
      defines, and every byte outside the slots, is as loading left it. */
  lemma LoadedThenBound(host: Host, file: seq<byte>)
    requires WellLaidOut(file) && Maps(host, file) && U32(file, 12) == MH_EXECUTE
    requires !Load(host, file).image.trapped
    requires GoodBinds(host.mmapBase, |Load(host, file).image.mem|,
                       BindTable(file, host.mmapBase, Low(file), AllOffsets(file)))
    ensures BoundBy(host, LibraryOrder(file), host.mmapBase, Load(host, file).image,
                    DoBind(host, Load(host, file)).image,
                    BindTable(file, host.mmapBase, Low(file), AllOffsets(file)))
  {
    hide U32, Load, AllOffsets, Low, WellLaidOut, Maps, BindTable, DylibNames, Recorded, GoodBinds, BoundBy, DoBind;
    LoadedTable(host, file);
    LastDefinerWins(host, Load(host, file));
  }

  // ---------- A file with encoded bind tables ----------

  /** Command `d` is the one LC_DYLD_INFO; all segments come before it, and there are no fixups. */
  ghost predicate DyldInfoAt(file: seq<byte>, d: nat) {
    var offs := AllOffsets(file);
    && d < |offs| && IsDyldInfo(file, offs[d]) && NoFixups(file, offs)
    && (forall k :: 0 <= k < |offs| && k != d ==> !IsDyldInfo(file, offs[k]))
    && (forall k :: d < k < |offs| ==> !IsSegment(file, offs[k]))
  }

  lemma {:induction false} NoBinds(file: seq<byte>, imgAddr: u64, vAddr: u64, offsets: seq<nat>)
    requires forall k :: 0 <= k < |offsets| ==> !IsDyldInfo(file, offsets[k])
    ensures BindTable(file, imgAddr, vAddr, offsets) == []
    decreases |offsets|
  {
    hide IsDyldInfo, Recorded, BindsOf;
    if offsets != [] {
      NoBinds(file, imgAddr, vAddr, offsets[..|offsets| - 1]);
    }
  }

  lemma {:induction false} OneBindCommand(file: seq<byte>, imgAddr: u64, vAddr: u64, offsets: seq<nat>, d: nat)
    requires d < |offsets| && IsDyldInfo(file, offsets[d])
    requires forall k :: 0 <= k < |offsets| && k != d ==> !IsDyldInfo(file, offsets[k])
    ensures BindTable(file, imgAddr, vAddr, offsets)
         == BindsOf(file, offsets[d], Recorded(file, imgAddr, vAddr, offsets[..d]))
    decreases |offsets|
  {
    hide IsDyldInfo, Recorded, BindsOf;
    var last := |offsets| - 1;
    if d == last {
      NoBinds(file, imgAddr, vAddr, offsets[..last]);
    } else {
      assert offsets[..last][..d] == offsets[..d];
      OneBindCommand(file, imgAddr, vAddr, offsets[..last], d);
    }
  }

  /** The bind stream and the lazy bind stream of the command at `p` encode these two tables. */
  ghost predicate Encodes(file: seq<byte>, p: nat, bind: seq<BindEncoder.Entry>, lazy: seq<BindEncoder.Entry>) {
    && BindEncoder.Holds(file, U32(file, p + 16), U32(file, p + 20), bind)
    && BindEncoder.Holds(file, U32(file, p + 32), U32(file, p + 36), lazy)
  }

  /** The loaded bind table is the two encoded tables, one after the other. */
  lemma LoadedBinds(host: Host, file: seq<byte>, d: nat, bind: seq<BindEncoder.Entry>, lazy: seq<BindEncoder.Entry>)
    requires DyldInfoAt(file, d) && Encodes(file, AllOffsets(file)[d], bind, lazy)
    ensures BindTable(file, host.mmapBase, Low(file), AllOffsets(file))
         == BindEncoder.Expected(SegmentTable(host, file), bind + lazy)
  {
    hide U32, AllOffsets, Low, BindTable, Recorded, LayoutBytes, IsDyldInfo, IsSegment, IsFixups, BindEncoder.Expected, BindEncoder.Holds, BindStream.Retrieve;
    var offs := AllOffsets(file);
    var p := offs[d];
    var segs := SegmentTable(host, file);
    OneBindCommand(file, host.mmapBase, Low(file), offs, d);
    AllRecordedBefore(host, file, d);
    BindEncoder.PaddedTableRoundTrip(file, U32(file, p + 16), U32(file, p + 20), segs, bind, []);
    BindEncoder.PaddedTableRoundTrip(file, U32(file, p + 32), U32(file, p + 36), segs, lazy, []);
    assert [] + BindEncoder.Expected(segs, bind) == BindEncoder.Expected(segs, bind);
    assert [] + BindEncoder.Expected(segs, lazy) == BindEncoder.Expected(segs, lazy);
    assert (bind + lazy)[..|bind|] == bind && (bind + lazy)[|bind|..] == lazy;
    BindEncoder.ExpectedSplits(segs, bind + lazy, |bind|);
  }

  lemma AllRecordedBefore(host: Host, file: seq<byte>, d: nat)
    requires DyldInfoAt(file, d)
    ensures Recorded(file, host.mmapBase, Low(file), AllOffsets(file)[..d]) == SegmentTable(host, file)
  {
    hide U32, AllOffsets, Low, MapSize, Recorded, LayoutBytes;
    var offs := AllOffsets(file);
    NotBoth(file, offs[d]);
    LayoutIgnores(file, host.mmapBase, Low(file), MapSize(file), offs, d);
  }

  lemma NotBoth(file: seq<byte>, p: nat)
    requires IsDyldInfo(file, p)
    ensures !IsSegment(file, p)
  {
    hide U32;
  }

  /** The address of a row in the loaded image. */
  function RowAddress(host: Host, file: seq<byte>, e: BindEncoder.Entry): u64 {
    BindStream.BindAddress(SegmentTable(host, file), e.segment, e.offset)
  }

  /** The row is for a recorded segment that is mapped at its bytes. */
  predicate RowPlaced(host: Host, file: seq<byte>, e: BindEncoder.Entry) {
    e.segment < |SegmentTable(host, file)| && AtItsBytes(file, SegmentCommand(file, e.segment))
  }

  /** The offset in the image of the byte that the row names: its offset past the segment's own place. */
  function RowOffset(file: seq<byte>, e: BindEncoder.Entry): int {
    VmAddr(file, SegmentCommand(file, e.segment)) - Low(file) + e.offset
  }

  /** Where a row lands: at the byte of the image that its segment and offset name. */
  lemma RowLands(host: Host, file: seq<byte>, e: BindEncoder.Entry)
    requires WellLaidOut(file) && Maps(host, file) && RowPlaced(host, file, e)
    ensures RowAddress(host, file, e) == (host.mmapBase + RowOffset(file, e)) % TWO64
    ensures e.offset < VmSize(file, SegmentCommand(file, e.segment)) ==>
      0 <= RowOffset(file, e) < MapSize(file)
      && RowAddress(host, file, e) == host.mmapBase + RowOffset(file, e)
      && Owns(file, SegmentCommand(file, e.segment), Low(file), RowOffset(file, e))
  {
    hide U32, U64, AllOffsets, Low, MapSize, SegName, IsSegment, VmAddr, VmSize, ImageExtent, SizedOffsets, AllGood, DisjointSegments, Recorded, MappedAddress;
    var p := SegmentCommand(file, e.segment);
    RecordedInOrder(file, host.mmapBase, Low(file), AllOffsets(file));
    SegmentsInside(file);
    assert p in AllOffsets(file);
    MappedAtItsBytes(file, p, host.mmapBase, Low(file), MapSize(file));
  }

  /** End to end for bind info: in a file whose bind and lazy bind streams encode two tables, after
      loading and binding each row above the image base holds the value of the last library that
      defines its symbol, or its word of the segment image if none does; a row inside its segment
      does so at its own offset past the segment's place in the image. Every byte outside the
      slots is that of the segment image. */
  lemma BoundFile(host: Host, file: seq<byte>, d: nat, bind: seq<BindEncoder.Entry>, lazy: seq<BindEncoder.Entry>)
    requires WellLaidOut(file) && Maps(host, file) && U32(file, 12) == MH_EXECUTE
    requires DyldInfoAt(file, d) && Encodes(file, AllOffsets(file)[d], bind, lazy)
    requires GoodBinds(host.mmapBase, MapSize(file), BindEncoder.Expected(SegmentTable(host, file), bind + lazy))
    ensures var r := DoBind(host, Load(host, file)).image; var rows := bind + lazy;
      && !r.trapped && |r.mem| == MapSize(file)
      && (forall j :: 0 <= j < |rows| && host.mmapBase < RowAddress(host, file, rows[j]) ==>
            WordBound(host, file, r.mem, rows[j].name, RowAddress(host, file, rows[j]) - host.mmapBase))
      && (forall j :: 0 <= j < |rows| && RowPlaced(host, file, rows[j]) && RowInside(file, rows[j]) ==>
            WordBound(host, file, r.mem, rows[j].name, RowOffset(file, rows[j])))
      && (forall i | 0 <= i < MapSize(file) && OutsideSlots(host.mmapBase, BindEncoder.Expected(SegmentTable(host, file), rows), i) ::
            r.mem[i] == SegmentImage(file)[i])
  {
    hide U32, U64, AllOffsets, Low, MapSize, Load, WellLaidOut, Maps, BindTable, BindStream.BindAddress, Winner, DoBind, GoodBinds, DyldInfoAt, Encodes, OutsideSlots, SegmentTable, AtItsBytes, VmAddr, VmSize, RowOffset, LibraryOrder;
    var rows := bind + lazy;
    var binds := BindEncoder.Expected(SegmentTable(host, file), rows);
    WithoutFixups(file, d);
    LoadedWithoutFixups(host, file);
    SegmentImageSize(file);
    LoadedBinds(host, file, d, bind, lazy);
    LoadedThenBound(host, file);
    var s, r := Load(host, file).image, DoBind(host, Load(host, file)).image;
    forall j | 0 <= j < |rows| && host.mmapBase < RowAddress(host, file, rows[j])
      ensures WordBound(host, file, r.mem, rows[j].name, RowAddress(host, file, rows[j]) - host.mmapBase)
    {
      assert Active(host.mmapBase, binds[j]);
      assert SlotHolds(host, LibraryOrder(file), host.mmapBase, s, r, binds[j]);
    }
    forall j | 0 <= j < |rows| && RowPlaced(host, file, rows[j]) && RowInside(file, rows[j])
      ensures WordBound(host, file, r.mem, rows[j].name, RowOffset(file, rows[j]))
    {
      RowLands(host, file, rows[j]);
    }
  }

  /** The row is inside its segment, and not at the first byte of the image, which is never bound. */
  predicate RowInside(file: seq<byte>, e: BindEncoder.Entry) {
    e.offset < VmSize(file, SegmentCommand(file, e.segment)) && RowOffset(file, e) != 0
  }

  lemma WithoutFixups(file: seq<byte>, d: nat)
    requires DyldInfoAt(file, d)
    ensures d < |AllOffsets(file)| && NoFixups(file, AllOffsets(file))
  {
    hide AllOffsets, NoFixups;
  }

  lemma SegmentImageSize(file: seq<byte>)
    ensures |SegmentImage(file)| == MapSize(file)
  {
    hide MapSize, Low, AllOffsets;
  }

  /** The word at this offset is bound, or left, as the libraries say. */
  predicate WordBound(host: Host, file: seq<byte>, mem: seq<byte>, name: Name, off: int) {
    U64(mem, off)
      == match Winner(host, LibraryOrder(file), name)
         case Some(v) => v
         case None => U64(SegmentImage(file), off)
  }
}
