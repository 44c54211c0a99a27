/** When nothing is mapped: mmap failed, or there is nothing to map. The loader goes on to the end of the
    commands all the same, and must not touch memory. */
module FailedMapping {
  import opened Memory
  import opened ChainWalk
  import opened LoaderState
  import opened ChainedFixups
  import opened BindStream
  import opened Layout
  import opened LoadCommands
  import Binder

  /** Either mmap fails, or the segments span no bytes, or so many that the size in pages wraps to zero. */
  predicate MapsNothing(host: Host, file: seq<byte>) {
    var (lo, hi) := ImageExtent(file);
    host.mmapBase == 0 || hi <= lo || hi - lo > TWO64 - 0x1000
  }

  /** In particular if no segment takes up room. */
  lemma NoRoomMapsNothing(host: Host, file: seq<byte>)
    requires forall p :: p in SizedOffsets(file, HEADER_SIZE, CommandCount(file)) ==> !TakesRoom(file, p)
    ensures MapsNothing(host, file)
  {
    hide U32, TakesRoom, Extent, SizedOffsets;
    NoExtent(file, SizedOffsets(file, HEADER_SIZE, CommandCount(file)), MAX64, 0);
  }

  ghost predicate NoneMapped(segments: seq<SegmentInfo>) {
    forall n :: 0 <= n < |segments| ==> segments[n].mapped == 0
  }

  ghost predicate NoAddresses(binds: seq<BindInfo>) {
    forall j :: 0 <= j < |binds| ==> binds[j].address == 0
  }

  /** No image, no counted fixup, and nothing in the tables that points anywhere. */
  ghost predicate Empty(s: Loader) {
    && s.image == Image([], Tally(0, 0, 0), false) && s.imgAddr == 0 && s.vAddr == 0
    && NoneMapped(s.segments) && NoAddresses(s.binds)
  }

  lemma {:induction false} NoExtent(file: seq<byte>, offsets: seq<nat>, lo: u64, hi: u64)
    requires forall k :: 0 <= k < |offsets| ==> !TakesRoom(file, offsets[k])
    ensures Extent(file, offsets, lo, hi) == (lo, hi)
    decreases |offsets|
  {
    hide TakesRoom, VmAddr, VmSize;
    if offsets != [] {
      NoExtent(file, offsets[1..], lo, hi);
    }
  }

  lemma SizeWraps(x: u64)
    requires x > TWO64 - 0x1000
    ensures AlignToPage(x) == 0
  {
    assert Wrap64(x + PAGE - 1) == x + PAGE - 1 - TWO64;
  }

  lemma SegmentStaysUnmapped(host: Host, file: seq<byte>, s: Loader, p: nat)
    requires MapsNothing(host, file) && Empty(s)
    ensures Empty(LoadSegment(host, file, s, p))
  {
    hide U32, TakesRoom, SegName, VmAddr, VmSize, FileSize, FileOff, ImageExtent, Slice;
    var (lo, hi) := ImageExtent(file);
    if lo < hi && hi - lo > TWO64 - 0x1000 {
      SizeWraps(hi - lo);
    }
    assert EnsureMapping(host, file, s) == s;
  }

  lemma {:induction false} NoStarts(file: seq<byte>, starts: nat, end: nat, segments: seq<SegmentInfo>, i: nat)
    requires NoneMapped(segments)
    ensures ImageStarts(file, starts, end, segments, i) == []
    decreases U32(file, starts) - i
  {
    hide U16, U32, SegmentStarts;
    if i < U32(file, starts) {
      NoStarts(file, starts, end, segments, i + 1);
    }
  }

  lemma {:induction false} EmitsNowhere(segments: seq<SegmentInfo>, m: Machine, count: nat, skip: nat)
    requires NoneMapped(segments) && NoAddresses(m.table)
    ensures NoAddresses(EmitRun(segments, m, count, skip).table)
    decreases count
  {
    hide Wrap64;
    if count > 0 {
      EmitsNowhere(segments, Emit(segments, m, skip), count - 1, skip);
    }
  }

  lemma {:induction false} RunsNowhere(file: seq<byte>, p: nat, end: nat, segments: seq<SegmentInfo>, m: Machine)
    requires NoneMapped(segments) && NoAddresses(m.table)
    ensures NoAddresses(Run(file, p, end, segments, m).table)
    decreases end - p
  {
    hide Step, NextOp, NoneMapped, NoAddresses;
    if p < end {
      StepsNowhere(file, p, end, segments, m);
      RunsNowhere(file, NextOp(file, p, end), end, segments, Step(file, p, end, segments, m));
    }
  }

  lemma StepsNowhere(file: seq<byte>, p: nat, end: nat, segments: seq<SegmentInfo>, m: Machine)
    requires NoneMapped(segments) && NoAddresses(m.table)
    ensures NoAddresses(Step(file, p, end, segments, m).table)
  {
    hide At, CString, Wrap64, EmitRun;
    forall count: nat, skip: nat ensures NoAddresses(EmitRun(segments, m, count, skip).table) {
      EmitsNowhere(segments, m, count, skip);
    }
  }

  lemma ExecStaysEmpty(host: Host, file: seq<byte>, s: Loader, p: nat)
    requires MapsNothing(host, file) && Empty(s)
    ensures Empty(LoadCommands.Exec(host, file, s, p))
  {
    hide U32, MapsNothing, LoadSegment, ScanSymbols, CString, Run, ImageStarts, FixRule, NoneMapped, NoAddresses;
    SegmentStaysUnmapped(host, file, s, p);
    forall start: nat, end: nat, table | NoAddresses(table) ensures NoAddresses(Retrieve(file, start, end, s.segments, table)) {
      RunsNowhere(file, start, end, s.segments, Machine(None, -1, 0, table));
    }
    var dataoff, datasize := U32(file, p + 8), U32(file, p + 12);
    NoStarts(file, dataoff + U32(file, dataoff + 4), dataoff + datasize, s.segments, 0);
  }

  lemma {:induction false} RunStaysEmpty(host: Host, file: seq<byte>, s: Loader, offsets: seq<nat>)
    requires MapsNothing(host, file) && Empty(s)
    ensures Empty(RunCommands(host, file, s, offsets))
    decreases |offsets|
  {
    hide MapsNothing, Empty, LoadCommands.Exec;
    if offsets != [] && !s.image.trapped {
      ExecStaysEmpty(host, file, s, offsets[0]);
      RunStaysEmpty(host, file, LoadCommands.Exec(host, file, s, offsets[0]), offsets[1..]);
    }
  }

  lemma {:induction false} BindsNowhere(host: Host, lib: Binder.Library, s: Image, binds: seq<BindInfo>)
    requires NoAddresses(binds)
    ensures Binder.BindLibrary(host, lib, 0, s, binds) == s
    decreases |binds|
  {
    if binds != [] && !s.trapped {
      assert binds[0].address == 0;
      BindsNowhere(host, lib, s, binds[1..]);
    }
  }

  lemma {:induction false} LibrariesBindNowhere(host: Host, dylibs: seq<Name>, s: Image, binds: seq<BindInfo>)
    requires NoAddresses(binds)
    ensures Binder.BindLibraries(host, dylibs, 0, s, binds) == s
    decreases |dylibs|
  {
    hide NoAddresses;
    if dylibs != [] && !s.trapped {
      if dylibs[0] in host.libraries {
        BindsNowhere(host, host.libraries[dylibs[0]], s, binds);
      }
      LibrariesBindNowhere(host, dylibs[1..], s, binds);
    }
  }

  /** When nothing is mapped, or the file is not an executable, whatever else it holds: loading and binding make no store and no access
      outside the image, every segment is unmapped, and every bind entry is one that is skipped. */
  lemma NothingIsTouched(host: Host, file: seq<byte>)
    requires MapsNothing(host, file) || U32(file, 12) != 2
    ensures Empty(Load(host, file))
    ensures Binder.DoBind(host, Load(host, file)).image == Image([], Tally(0, 0, 0), false)
  {
    hide U32, MapsNothing, RunCommands, AllOffsets, NoneMapped, NoAddresses, Ascii;
    assert Empty(INITIAL) by { InitiallyEmpty(); }
    if U32(file, 12) == 2 {
      RunStaysEmpty(host, file, INITIAL, AllOffsets(file));
    }
    var s := Load(host, file);
    LibrariesBindNowhere(host, s.dylibs + [Binder.LIBC, Binder.LIBM], s.image, s.binds);
  }

  lemma InitiallyEmpty()
    ensures Empty(INITIAL)
  {
  }
}
