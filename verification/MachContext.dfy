/** The loader context as the program keeps it, updated in place, with the loader's operations. Each
    method is tied to the function on values that the other modules prove things about. */
module MachContext {
  import opened Memory
  import opened ChainFormat
  import opened ChainWalk
  import opened LoaderState
  import opened ChainedFixups
  import Uleb
  import opened BindStream
  import opened Layout
  import LoadCommands
  import Binder

  class Context {
    const host: Host
    /** The file. */
    const memblock: seq<byte>
    /** The read position in the file. */
    var ptr: nat
    /** The mapped image; it has no bytes until it is mapped. */
    var img: array<byte>
    var imgAddr: u64
    var vAddr: u64
    var entryPoint: u64
    /** The bind table, a heap block that grows with every entry; it has no room before the first. */
    var bindInfo: array<BindInfo>
    var nBinds: nat
    /** The library list, grown in the same way. */
    var dylibInfo: array<Name>
    var nDylibs: nat
    /** segments[] with its fixed capacity; the first nSegments entries are recorded. */
    const segments: array<SegmentInfo>
    var nSegments: nat
    var rebaseCount: u32
    var bindCount: u32
    var unresolvedCount: u32
    /** Set when the program would touch memory outside the image. */
    var trapped: bool

    ghost predicate Valid()
      reads this
    {
      && segments.Length == MAX_SEGMENTS && nSegments <= MAX_SEGMENTS
      && nBinds <= bindInfo.Length && nDylibs <= dylibInfo.Length
    }

    ghost function Binds(): seq<BindInfo>
      reads this, bindInfo
      requires Valid()
    {
      bindInfo[..nBinds]
    }

    ghost function Dylibs(): seq<Name>
      reads this, dylibInfo
      requires Valid()
    {
      dylibInfo[..nDylibs]
    }

    ghost function Tallied(): Tally
      reads this
    {
      Tally(rebaseCount, bindCount, unresolvedCount)
    }

    ghost function Mem(): Image
      reads this, img
    {
      Image(img[..], Tallied(), trapped)
    }

    /** The context as a value. */
    ghost function State(): Loader
      reads this, img, bindInfo, dylibInfo, segments
      requires Valid()
    {
      Loader(Mem(), imgAddr, vAddr, entryPoint, Binds(), Dylibs(), segments[..nSegments])
    }

    constructor (host: Host, memblock: seq<byte>)
      ensures Valid() && fresh(img) && fresh(bindInfo) && fresh(dylibInfo) && fresh(segments)
      ensures this.host == host && this.memblock == memblock
      ensures State() == INITIAL
    {
      this.host, this.memblock := host, memblock;
      ptr, imgAddr, vAddr, entryPoint := 0, 0, 0, 0;
      img := new byte[0];
      bindInfo, nBinds := new BindInfo[0], 0;
      dylibInfo, nDylibs := new Name[0], 0;
      segments := new SegmentInfo[MAX_SEGMENTS](_ => SegmentInfo([], 0, 0, 0));
      nSegments := 0;
      rebaseCount, bindCount, unresolvedCount := 0, 0, 0;
      trapped := false;
    }

    // ---------- Chained fixups ----------

    /** Stores a 64-bit word, least significant byte first. */
    method StoreWord(off: nat, v: u64)
      requires off + 8 <= img.Length
      modifies img
      ensures img[..] == Store(old(img[..]), off, v)
    {
      ghost var before := img[..];
      var bytes := Enc64(v);
      forall k | 0 <= k < 8 {
        img[off + k] := bytes[k];
      }
      assert img[..] == before[..off] + bytes + before[off + 8..];
    }

    method ApplyRebase(off: nat, raw: u64)
      requires off + 8 <= img.Length
      modifies img
      ensures img[..] == Store(old(img[..]), off, Wrap64(imgAddr + RebaseTarget(raw)))
    {
      StoreWord(off, Wrap64(imgAddr + RebaseTarget(raw)));
    }

    /** A bind whose import has a name; the result tells whether it was resolved. */
    method ApplyChainedBind(off: nat, name: Name, addend: int) returns (resolved: bool)
      requires off + 8 <= img.Length
      modifies this`bindCount, this`unresolvedCount, img
      ensures resolved == (name in host.resolve)
      ensures bindCount == Inc32(old(bindCount))
      ensures unresolvedCount == if resolved then old(unresolvedCount) else Inc32(old(unresolvedCount))
      ensures img[..] == if resolved then Store(old(img[..]), off, Wrap64(host.resolve[name] + addend))
                         else old(img[..])
    {
      bindCount := Inc32(bindCount);
      resolved := name in host.resolve;
      if resolved {
        StoreWord(off, Wrap64(host.resolve[name] + addend));
      } else {
        unresolvedCount := Inc32(unresolvedCount);
      }
    }

    /** One word of a chain. */
    method FixSlot(fixups: nat, off: nat)
      requires off + 8 <= img.Length
      modifies this`rebaseCount, this`bindCount, this`unresolvedCount, img
      ensures Mem() == Visit(FixRule(host, imgAddr, memblock, fixups), old(Mem()), Slot(off, U64(old(img[..]), off)))
    {
      hide U64, ImportName, BindOrdinal, BindAddend, RebaseTarget, IsBind, Wrap64, Store, Inc32;
      var raw := U64(img[..], off);
      if IsBind(raw) {
        match ImportName(memblock, fixups, BindOrdinal(raw)) {
          case Some(name) =>
            var _ := ApplyChainedBind(off, name, BindAddend(raw));
          case None =>
            bindCount := Inc32(bindCount);
            unresolvedCount := Inc32(unresolvedCount);
        }
      } else {
        ApplyRebase(off, raw);
        rebaseCount := Inc32(rebaseCount);
      }
    }

    /** One chain: read the word, overwrite it, go on by the distance it held. */
    method WalkChainFrom(fixups: nat, start: nat)
      requires !trapped
      modifies this`rebaseCount, this`bindCount, this`unresolvedCount, this`trapped, img
      ensures Mem() == WalkChain(FixRule(host, imgAddr, memblock, fixups), old(Mem()), start, MAX_STEPS)
    {
      hide WalkChain, FixRule, U64, Next, Visit;
      ghost var rule := FixRule(host, imgAddr, memblock, fixups);
      ghost var end := WalkChain(rule, Mem(), start, MAX_STEPS);
      var loc: nat := start;
      var count: nat := 0;
      while count < 512
        invariant count <= 512 && !trapped
        invariant WalkChain(rule, Mem(), loc, 512 - count) == end
      {
        WalkChainStep(rule, Mem(), loc, 512 - count);
        if loc + 8 > img.Length {
          trapped := true;
          return;
        }
        var next := Next(U64(img[..], loc));
        FixSlot(fixups, loc);
        if next == 0 {
          return;
        }
        loc := loc + next * 4;
        count := count + 1;
      }
      WalkChainStep(rule, Mem(), loc, 0);
    }

    /** All pages of one segment. */
    method WalkSegment(fixups: nat, index: nat, seg: nat)
      requires Valid() && !trapped
      modifies this`rebaseCount, this`bindCount, this`unresolvedCount, this`trapped, img
      ensures Mem() == WalkAll(FixRule(host, imgAddr, memblock, fixups), old(Mem()),
        if index < nSegments && segments[index].mapped != 0 then SegmentStarts(memblock, seg, 0) else [])
    {
      hide U16, FixRule, WalkChain, ChainOffset, HasChain;
      if index >= nSegments || segments[index].mapped == 0 {
        return;
      }
      ghost var rule := FixRule(host, imgAddr, memblock, fixups);
      ghost var end := WalkAll(rule, Mem(), SegmentStarts(memblock, seg, 0));
      var page: nat := 0;
      while page < U16(memblock, seg + 20)
        invariant page <= U16(memblock, seg + 20) && !trapped
        invariant WalkAll(rule, Mem(), SegmentStarts(memblock, seg, page)) == end
      {
        ghost var rest := SegmentStarts(memblock, seg, page + 1);
        assert [] + rest == rest;
        if HasChain(U16(memblock, seg + 22 + 2 * page)) {
          var start: nat := ChainOffset(memblock, seg, page);
          assert SegmentStarts(memblock, seg, page) == [start] + rest;
          assert ([start] + rest)[1..] == rest;
          WalkChainFrom(fixups, start);
          if trapped {
            return;
          }
        }
        page := page + 1;
      }
    }

    /** The whole fixup command. */
    method WalkFixups(dataoff: u32, datasize: u32)
      requires Valid() && !trapped
      modifies this`rebaseCount, this`bindCount, this`unresolvedCount, this`trapped, img
      ensures State() == ApplyFixups(host, memblock, old(State()), dataoff, datasize)
    {
      hide U16, U32, FixRule, WalkAll, SegmentStarts, GoodHeader, StartsOf;
      rebaseCount := 0;
      bindCount := 0;
      ghost var rule := FixRule(host, imgAddr, memblock, dataoff);
      ghost var recorded := segments[..nSegments];
      ghost var starts := FixupStarts(memblock, dataoff, datasize, recorded);
      ghost var end := WalkAll(rule, Mem(), starts);
      if !GoodHeader(memblock, dataoff, datasize) {
        WalkNothing(rule, Mem());
        return;
      }
      var table: nat := dataoff + U32(memblock, dataoff + 4);
      var limit: nat := dataoff + datasize;
      var i: nat := 0;
      while i < U32(memblock, table)
        invariant !trapped
        invariant WalkAll(rule, Mem(), ImageStarts(memblock, table, limit, recorded, i)) == end
      {
        ghost var rest := ImageStarts(memblock, table, limit, recorded, i + 1);
        ghost var before := Mem();
        ghost var here := StartsOf(memblock, table, limit, recorded, i);
        WalkOne(dataoff, table, limit, i);
        WalkAllAppend(rule, before, here, rest);
        if trapped {
          WalkTrapped(rule, Mem(), rest);
          return;
        }
        i := i + 1;
      }
      WalkNothing(rule, Mem());
    }

    /** Segment `i` of the table at `table`, if it has chains. */
    method WalkOne(fixups: nat, table: nat, limit: nat, i: nat)
      requires Valid() && !trapped
      modifies this`rebaseCount, this`bindCount, this`unresolvedCount, this`trapped, img
      ensures Mem() == WalkAll(FixRule(host, imgAddr, memblock, fixups), old(Mem()),
                               StartsOf(memblock, table, limit, segments[..nSegments], i))
    {
      hide U16, U32, FixRule, WalkChain, SegmentStarts;
      var seg := U32(memblock, table + 4 + 4 * i);
      if seg == 0 || table + seg + 24 > limit || U16(memblock, table + seg + 6) != 6 {
        return;
      }
      WalkSegment(fixups, i, table + seg);
    }

    // ---------- The bind streams ----------

    /** One more row: the first gets a block of its own, a later one a larger copy of the block. The
        rows already there keep their places, and no other block is touched. */
    method AppendBindInfo(name: Option<Name>, address: u64)
      requires Valid()
      modifies this`bindInfo, this`nBinds
      ensures Valid() && fresh(bindInfo) && bindInfo.Length == nBinds
      ensures nBinds == old(nBinds) + 1
      ensures Binds() == old(Binds()) + [BindInfo(name, address)]
    {
      var entry := BindInfo(name, address);
      if nBinds == 0 {
        bindInfo := new BindInfo[1](_ => entry);
      } else {
        bindInfo := Realloc(bindInfo, nBinds, entry);
      }
      bindInfo[nBinds] := entry;
      nBinds := nBinds + 1;
    }

    /** One bind stream, appended to the table. */
    method RetrieveBindList(start: nat, end: nat)
      requires Valid()
      modifies this`bindInfo, this`nBinds
      ensures Valid() && (bindInfo == old(bindInfo) || fresh(bindInfo))
      ensures Binds() == Retrieve(memblock, start, end, segments[..nSegments], old(Binds()))
    {
      hide BindAddress, Wrap64, Uleb.UlebSum, CString, At;
      var recorded := segments[..nSegments];
      var p := start;
      var symbol: Option<Name> := None;
      var segIndex: int := -1;
      var segOffset: u64 := 0;
      ghost var done := Run(memblock, start, end, recorded, Machine(None, -1, 0, Binds()));
      while p < end
        invariant Valid() && (bindInfo == old(bindInfo) || fresh(bindInfo))
        invariant Run(memblock, p, end, recorded, Machine(symbol, segIndex, segOffset, Binds())) == done
        decreases end - p
      {
        ghost var m := Machine(symbol, segIndex, segOffset, Binds());
        ghost var next, m' := NextOp(memblock, p, end), Step(memblock, p, end, recorded, m);
        var opcode, immediate := At(memblock, p) / 0x10, At(memblock, p) % 0x10;
        p := p + 1;
        var operand: u64;
        if opcode == 0x2 || opcode == 0x6 {
          operand, p := Uleb.ReadUleb128(memblock, p, end);
        } else if opcode == 0x4 {
          symbol := Some(CString(memblock, p));
          p := p + |symbol.value| + 1;
        } else if opcode == 0x7 {
          segIndex := immediate;
          segOffset, p := Uleb.ReadUleb128(memblock, p, end);
        } else if opcode == 0x8 {
          operand, p := Uleb.ReadUleb128(memblock, p, end);
          segOffset := Wrap64(segOffset + operand);
        } else if opcode == 0x9 {
          AppendBindInfo(symbol, BindAddress(recorded, segIndex, segOffset));
          segOffset := Wrap64(segOffset + POINTER_SIZE);
        } else if opcode == 0xA {
          AppendBindInfo(symbol, BindAddress(recorded, segIndex, segOffset));
          operand, p := Uleb.ReadUleb128(memblock, p, end);
          segOffset := Wrap64(segOffset + POINTER_SIZE + operand);
        } else if opcode == 0xB {
          AppendBindInfo(symbol, BindAddress(recorded, segIndex, segOffset));
          segOffset := Wrap64(segOffset + POINTER_SIZE + immediate * POINTER_SIZE);
        } else if opcode == 0xC {
          var skip: u64;
          operand, p := Uleb.ReadUleb128(memblock, p, end);
          skip, p := Uleb.ReadUleb128(memblock, p, end);
          segOffset := BindTimes(recorded, symbol, segIndex, segOffset, operand, skip);
        }
        assert p == next && Machine(symbol, segIndex, segOffset, Binds()) == m';
      }
    }

    /** The counted loop of one bind opcode; returns the offset it ends at. */
    method BindTimes(recorded: seq<SegmentInfo>, symbol: Option<Name>, segIndex: int, start: u64, count: u64, skip: u64)
      returns (segOffset: u64)
      requires Valid()
      modifies this`bindInfo, this`nBinds
      ensures Valid() && (bindInfo == old(bindInfo) || fresh(bindInfo))
      ensures Machine(symbol, segIndex, segOffset, Binds())
           == EmitRun(recorded, Machine(symbol, segIndex, start, old(Binds())), count, skip)
    {
      hide BindAddress, Wrap64;
      segOffset := start;
      var i := 0;
      while i < count
        invariant 0 <= i <= count && Valid() && (bindInfo == old(bindInfo) || fresh(bindInfo))
        invariant EmitRun(recorded, Machine(symbol, segIndex, segOffset, Binds()), count - i, skip)
               == EmitRun(recorded, Machine(symbol, segIndex, start, old(Binds())), count, skip)
      {
        AppendBindInfo(symbol, BindAddress(recorded, segIndex, segOffset));
        segOffset := Wrap64(segOffset + POINTER_SIZE + skip);
        i := i + 1;
      }
    }

    // ---------- Segments ----------

    /** Maps the image unless it is mapped; the result is the source's status. */
    method EnsureImageMapping() returns (status: int)
      requires Valid()
      modifies this`img, this`imgAddr, this`vAddr
      ensures State() == EnsureMapping(host, memblock, old(State()))
      ensures img == old(img) || fresh(img)
      ensures status == if imgAddr != 0 then 0 else -1
    {
      hide Lower, Upper, U32, Zeros, AlignToPage;
      if imgAddr != 0 {
        return 0;
      }
      var p: nat := HEADER_SIZE;
      var lo, hi := MAX64, 0;
      var i: nat := 0;
      while i < CommandCount(memblock)
        invariant i <= CommandCount(memblock)
        invariant Extent(memblock, SizedOffsets(memblock, p, CommandCount(memblock) - i), lo, hi) == ImageExtent(memblock)
      {
        ghost var rest := SizedOffsets(memblock, p + CommandSize(memblock, p), CommandCount(memblock) - i - 1);
        assert ([p] + rest)[1..] == rest;
        lo, hi := Lower(memblock, p, lo), Upper(memblock, p, hi);
        p := p + CommandSize(memblock, p);
        i := i + 1;
      }
      assert (lo, hi) == ImageExtent(memblock);
      if lo == MAX64 || hi <= lo {
        return -1;
      }
      var size := AlignToPage(hi - lo);
      if size == 0 || host.mmapBase == 0 {
        return -1;
      }
      img := new byte[size](_ => 0);
      imgAddr := host.mmapBase;
      vAddr := lo;
      assert img[..] == Zeros(size);
      return 0;
    }

    /** The segment command at `ptr`; returns its number of sections. */
    method LoadSegment64() returns (sections: u32)
      requires Valid() && !trapped
      modifies this`img, this`imgAddr, this`vAddr, this`nSegments, this`trapped, img, segments
      ensures Valid() && State() == LoadSegment(host, memblock, old(State()), ptr)
      ensures img == old(img) || fresh(img)
      ensures sections == SectionCount(memblock, ptr)
    {
      hide U32, U64, SegName, EnsureMapping, InfoOf, Slice;
      var _ := EnsureImageMapping();
      ghost var s1 := State();
      CopySegmentBytes();
      ghost var s2 := State();
      if nSegments < MAX_SEGMENTS {
        ghost var before := segments[..nSegments];
        segments[nSegments] := InfoOf(memblock, ptr, imgAddr, vAddr);
        nSegments := nSegments + 1;
        assert segments[..nSegments] == before + [InfoOf(memblock, ptr, imgAddr, vAddr)];
      }
      assert State() == s2.(segments := Record(s2.segments, InfoOf(memblock, ptr, s2.imgAddr, s2.vAddr)));
      return SectionCount(memblock, ptr);
    }

    method CopySegmentBytes()
      requires Valid() && !trapped
      modifies this`trapped, img
      ensures State() == CopySegment(memblock, old(State()), ptr)
    {
      hide U32, U64, SegName, VmAddr, FileSize, FileOff, Slice, Overlay, Wrap64;
      if SegName(memblock, ptr) != PAGEZERO && FileSize(memblock, ptr) != 0 && imgAddr != 0 && vAddr != 0 {
        var delta := Wrap64(VmAddr(memblock, ptr) - vAddr);
        var size := FileSize(memblock, ptr);
        if delta + size > img.Length {
          trapped := true;
        } else {
          CopyBytes(delta, FileOff(memblock, ptr), size);
        }
      }
    }

    /** memcpy from the file into the image. */
    method CopyBytes(dest: nat, src: nat, n: nat)
      requires dest + n <= img.Length
      modifies img
      ensures img[..] == Overlay(old(img[..]), dest, Slice(memblock, src, n))
    {
      hide At;
      forall k | 0 <= k < n {
        img[dest + k] := At(memblock, src + k);
      }
    }

    // ---------- The load commands ----------

    /** One more library; the list grows as the bind table does. */
    method AddDylib(name: Name)
      requires Valid()
      modifies this`dylibInfo, this`nDylibs
      ensures Valid() && fresh(dylibInfo) && dylibInfo.Length == nDylibs
      ensures nDylibs == old(nDylibs) + 1
      ensures Dylibs() == old(Dylibs()) + [name]
    {
      if nDylibs == 0 {
        dylibInfo := new Name[1](_ => name);
      } else {
        dylibInfo := Realloc(dylibInfo, nDylibs, name);
      }
      dylibInfo[nDylibs] := name;
      nDylibs := nDylibs + 1;
    }

    /** The symbol table at `ptr`: each symbol named _main sets the entry point. */
    method ScanSymbolTable()
      modifies this`entryPoint
      ensures entryPoint == LoadCommands.ScanSymbols(memblock, ptr, 0, old(entryPoint), imgAddr, vAddr)
    {
      hide LoadCommands.SymbolName, LoadCommands.SymbolValue, LoadCommands.SymbolCount, LoadCommands.Relocated;
      ghost var end := LoadCommands.ScanSymbols(memblock, ptr, 0, entryPoint, imgAddr, vAddr);
      var i: nat := 0;
      while i < LoadCommands.SymbolCount(memblock, ptr)
        invariant LoadCommands.ScanSymbols(memblock, ptr, i, entryPoint, imgAddr, vAddr) == end
      {
        if LoadCommands.SymbolName(memblock, ptr, i) == LoadCommands.MAIN {
          entryPoint := LoadCommands.Relocated(LoadCommands.SymbolValue(memblock, ptr, i), imgAddr, vAddr);
        }
        i := i + 1;
      }
    }

    /** LC_DYLD_INFO at `ptr`: the bind stream, then the lazy bind stream. */
    method RetrieveBinds()
      requires Valid()
      modifies this`bindInfo, this`nBinds
      ensures Valid() && (bindInfo == old(bindInfo) || fresh(bindInfo))
      ensures State() == LoadCommands.LoadBinds(memblock, old(State()), ptr)
    {
      hide U32, Retrieve;
      var start: nat := U32(memblock, ptr + 16);
      RetrieveBindList(start, start + U32(memblock, ptr + 20));
      start := U32(memblock, ptr + 32);
      RetrieveBindList(start, start + U32(memblock, ptr + 36));
    }

    /** The section entries after a segment header are only stepped over. */
    method SkipSections(sections: u32)
      modifies this`ptr
      ensures ptr == old(ptr) + 80 * if sections < 0x8000_0000 then sections else 0
    {
      var n: int := if sections < 0x8000_0000 then sections else sections - 0x1_0000_0000;
      var i := 0;
      while i < n
        invariant 0 <= i && (0 <= n ==> i <= n) && (n < 0 ==> i == 0)
        invariant ptr == old(ptr) + 80 * i
      {
        ptr := ptr + 80;
        i := i + 1;
      }
    }

    /** Carries out the command at `ptr`; returns how many section entries follow its header. */
    method ExecCommand() returns (sections: u32)
      requires Valid() && !trapped
      modifies this`img, this`imgAddr, this`vAddr, this`entryPoint, this`bindInfo, this`nBinds,
        this`dylibInfo, this`nDylibs, this`nSegments, this`rebaseCount, this`bindCount, this`unresolvedCount,
        this`trapped, img, segments
      ensures Valid() && State() == LoadCommands.Exec(host, memblock, old(State()), ptr)
      ensures sections == if IsSegment(memblock, ptr) then SectionCount(memblock, ptr) else 0
      ensures img == old(img) || fresh(img)
    {
      hide U32, LoadSegment, LoadCommands.LoadBinds, LoadCommands.ScanSymbols, ApplyFixups, CString;
      sections := 0;
      if Command(memblock, ptr) == 0x19 {
        sections := LoadSegment64();
      } else if Command(memblock, ptr) % 0x100 == 0x22 {
        RetrieveBinds();
      } else if Command(memblock, ptr) == 0x2 {
        ScanSymbolTable();
      } else if Command(memblock, ptr) == 0xC {
        AddDylib(CString(memblock, ptr + U32(memblock, ptr + 8)));
      } else if Command(memblock, ptr) == 0x8000_0034 {
        WalkFixups(U32(memblock, ptr + 8), U32(memblock, ptr + 12));
      }
    }

    /** The command at `ptr`, which moves to the next one. */
    method LoadCommand()
      requires Valid() && !trapped
      modifies this`ptr, this`img, this`imgAddr, this`vAddr, this`entryPoint, this`bindInfo, this`nBinds,
        this`dylibInfo, this`nDylibs, this`nSegments, this`rebaseCount, this`bindCount, this`unresolvedCount,
        this`trapped, img, segments
      ensures Valid() && State() == LoadCommands.Exec(host, memblock, old(State()), old(ptr))
      ensures ptr == LoadCommands.NextCommand(memblock, old(ptr))
      ensures img == old(img) || fresh(img)
    {
      hide U32, LoadCommands.Exec;
      var sections := ExecCommand();
      if sections != 0 {
        ptr := ptr + 0x48;
        SkipSections(sections);
      } else {
        ptr := ptr + CommandSize(memblock, ptr);
      }
    }

    /** The 64-bit loader. It refuses files that are not executables. */
    method Loader64() returns (status: int)
      requires Valid() && !trapped
      modifies this, img, segments
      ensures Valid()
      ensures status == if U32(memblock, 12) == LoadCommands.MH_EXECUTE then 0 else -1
      ensures State() == if status == 0
        then LoadCommands.RunCommands(host, memblock, old(State()), LoadCommands.AllOffsets(memblock))
        else old(State())
      ensures old(State()) == INITIAL ==> State() == LoadCommands.Load(host, memblock)
    {
      hide U32, LoadCommands.Exec, LoadCommands.NextCommand;
      ptr := 0;
      if U32(memblock, 12) != LoadCommands.MH_EXECUTE {
        return -1;
      }
      ptr := ptr + HEADER_SIZE;
      ghost var end := LoadCommands.RunCommands(host, memblock, State(), LoadCommands.AllOffsets(memblock));
      var count: nat := CommandCount(memblock);
      var done: nat := 0;
      assert count - done == CommandCount(memblock);
      while done < count && !trapped
        invariant Valid() && done <= count
        invariant img == old(img) || fresh(img)
        invariant LoadCommands.RunCommands(host, memblock, State(), LoadCommands.Offsets(memblock, ptr, count - done)) == end
      {
        ghost var rest := LoadCommands.Offsets(memblock, LoadCommands.NextCommand(memblock, ptr), count - done - 1);
        assert LoadCommands.Offsets(memblock, ptr, count - done) == [ptr] + rest;
        assert ([ptr] + rest)[1..] == rest;
        LoadCommand();
        done := done + 1;
      }
      return 0;
    }

    // ---------- Binding ----------

    /** Every library in turn, the default ones last, every table entry against each. */
    method DoBind() returns (status: int)
      requires Valid() && !trapped
      modifies this`dylibInfo, this`nDylibs, this`trapped, img
      ensures Valid() && State() == Binder.DoBind(host, old(State()))
      ensures status == 0
    {
      hide Binder.BindLibrary, Ascii;
      AddDylib(Binder.LIBC);
      AddDylib(Binder.LIBM);
      ghost var names, table := Dylibs(), Binds();
      assert names == old(Dylibs()) + [Binder.LIBC, Binder.LIBM];
      assert table == old(Binds()) && Mem() == old(Mem());
      ghost var end := Binder.BindLibraries(host, names, imgAddr, Mem(), table);
      var i := 0;
      while i < nDylibs && !trapped
        invariant 0 <= i <= nDylibs && Valid() && Dylibs() == names && Binds() == table
        invariant Binder.BindLibraries(host, names[i..], imgAddr, Mem(), table) == end
      {
        assert names[i..][1..] == names[i + 1..] && names[i] == dylibInfo[i];
        TryLibrary(dylibInfo[i]);
        i := i + 1;
      }
      assert Mem() == end;
      return 0;
    }

    /** Opens one library and binds against it; one that cannot be opened is passed over. */
    method TryLibrary(name: Name)
      requires Valid() && !trapped
      modifies this`trapped, img
      ensures Mem() == if name in host.libraries
        then Binder.BindLibrary(host, host.libraries[name], imgAddr, old(Mem()), old(Binds())) else old(Mem())
    {
      if name in host.libraries {
        BindAgainst(host.libraries[name]);
      }
    }

    /** The whole table against one open library. */
    method BindAgainst(lib: Binder.Library)
      requires Valid() && !trapped
      modifies this`trapped, img
      ensures Mem() == Binder.BindLibrary(host, lib, imgAddr, old(Mem()), old(Binds()))
    {
      hide Binder.BindOne;
      ghost var table := Binds();
      ghost var end := Binder.BindLibrary(host, lib, imgAddr, Mem(), table);
      var j := 0;
      while j < nBinds && !trapped
        invariant 0 <= j <= nBinds && Valid() && Binds() == table
        invariant Binder.BindLibrary(host, lib, imgAddr, Mem(), table[j..]) == end
      {
        assert table[j..][1..] == table[j + 1..] && table[j] == bindInfo[j];
        BindEntry(lib, bindInfo[j]);
        j := j + 1;
      }
    }

    /** One entry: the skip test, the two replaced names, and the library's own symbol. */
    method BindEntry(lib: Binder.Library, b: BindInfo)
      requires !trapped
      modifies this`trapped, img
      ensures Mem() == Binder.BindOne(host, lib, imgAddr, old(Mem()), b)
    {
      hide Store;
      if b.address <= imgAddr {
        return;
      }
      if b.funcName == None {
        trapped := true;
        return;
      }
      var c := Binder.Strip(b.funcName.value);
      var value: u64;
      if c == Binder.MMAP {
        value := host.mmapWrapper;
      } else if c == Binder.CHK_GUARD {
        value := host.guard;
      } else if c in lib {
        value := lib[c];
      } else {
        return;
      }
      if b.address - imgAddr + 8 > img.Length {
        trapped := true;
      } else {
        StoreWord(b.address - imgAddr, value);
      }
    }
  }

  /** A larger block whose first `n` cells are those of the old one; the old block is left as it was. */
  method Realloc<T>(block: array<T>, n: nat, blank: T) returns (grown: array<T>)
    requires n <= block.Length
    ensures fresh(grown) && grown.Length == n + 1
    ensures grown[..n] == block[..n]
  {
    grown := new T[n + 1](_ => blank);
    var i := 0;
    while i < n
      invariant 0 <= i <= n
      invariant grown[..i] == block[..i]
    {
      grown[i] := block[i];
      i := i + 1;
    }
  }

  lemma WalkNothing(rule: Rule, s: Image)
    ensures WalkAll(rule, s, []) == s
  {
  }

  lemma WalkTrapped(rule: Rule, s: Image, starts: seq<nat>)
    requires s.trapped
    ensures WalkAll(rule, s, starts) == s
  {
  }
}
