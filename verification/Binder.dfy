/** do_bind: the bind table replayed against each library in turn, and the pure reading of it, in
    which the last library that defines a symbol wins. */
module Binder {
  import opened Memory
  import opened ChainWalk
  import opened LoaderState
  import opened BindStream

  const LIBC: Name := Ascii("libc.so.6")
  const LIBM: Name := Ascii("libm.so.6")
  const MMAP: Name := Ascii("mmap")
  const CHK_GUARD: Name := Ascii("__stack_chk_guard")

  type Library = map<Name, Address>

  // ---------- What one library gives one entry ----------

  /** The name without one leading underscore. */
  function Strip(name: Name): Name {
    if name != [] && name[0] == 0x5F then name[1..] else name
  }

  /** The value stored for this name while this library is open; None if nothing is stored. */
  function Definition(host: Host, lib: Library, name: Name): Option<u64> {
    var c := Strip(name);
    if c == MMAP then Some(host.mmapWrapper)
    else if c == CHK_GUARD then Some(host.guard)
    else if c in lib then Some(lib[c])
    else None
  }

  /** Entries at or below the image base are skipped. */
  predicate Skipped(imgAddr: u64, b: BindInfo) {
    b.address <= imgAddr
  }

  /** An entry that is not skipped needs a name, and its store must hit the image. */
  function BindOne(host: Host, lib: Library, imgAddr: u64, s: Image, b: BindInfo): Image {
    if Skipped(imgAddr, b) then s
    else match b.funcName
      case None => s.(trapped := true)
      case Some(name) =>
        match Definition(host, lib, name)
        case None => s
        case Some(v) =>
          if b.address - imgAddr + 8 > |s.mem| then s.(trapped := true)
          else s.(mem := Store(s.mem, b.address - imgAddr, v))
  }

  function BindLibrary(host: Host, lib: Library, imgAddr: u64, s: Image, binds: seq<BindInfo>): Image
    decreases |binds|
  {
    if binds == [] || s.trapped then s
    else BindLibrary(host, lib, imgAddr, BindOne(host, lib, imgAddr, s, binds[0]), binds[1..])
  }

  /** Libraries that cannot be opened are passed over. */
  function BindLibraries(host: Host, dylibs: seq<Name>, imgAddr: u64, s: Image, binds: seq<BindInfo>): Image
    decreases |dylibs|
  {
    if dylibs == [] || s.trapped then s
    else
      var s' := if dylibs[0] in host.libraries
                then BindLibrary(host, host.libraries[dylibs[0]], imgAddr, s, binds) else s;
      BindLibraries(host, dylibs[1..], imgAddr, s', binds)
  }

  /** The default libraries come after those of the load commands. */
  function DoBind(host: Host, s: Loader): Loader {
    var dylibs := s.dylibs + [LIBC, LIBM];
    s.(dylibs := dylibs, image := BindLibraries(host, dylibs, s.imgAddr, s.image, s.binds))
  }

  // ---------- Last definer wins ----------

  /** The value from the last library, in this order, that can be opened and defines the name. */
  function Winner(host: Host, dylibs: seq<Name>, name: Name): Option<u64>
    decreases |dylibs|
  {
    if dylibs == [] then None
    else
      var last := dylibs[|dylibs| - 1];
      if last in host.libraries && Definition(host, host.libraries[last], name).Some?
      then Definition(host, host.libraries[last], name)
      else Winner(host, dylibs[..|dylibs| - 1], name)
  }

  predicate Defines(host: Host, dylib: Name, name: Name) {
    dylib in host.libraries && Definition(host, host.libraries[dylib], name).Some?
  }

  /** `Winner` is the definition of the last library that has one, and None only if none has. */
  lemma {:induction false} WinnerIsLast(host: Host, dylibs: seq<Name>, name: Name) returns (k: int)
    ensures -1 <= k < |dylibs|
    ensures forall j :: k < j < |dylibs| ==> !Defines(host, dylibs[j], name)
    ensures k == -1 ==> Winner(host, dylibs, name) == None
    ensures 0 <= k ==> Defines(host, dylibs[k], name)
    ensures 0 <= k ==> Winner(host, dylibs, name) == Definition(host, host.libraries[dylibs[k]], name)
    decreases |dylibs|
  {
    hide Definition;
    if dylibs == [] {
      k := -1;
    } else {
      var last := |dylibs| - 1;
      if Defines(host, dylibs[last], name) {
        k := last;
      } else {
        k := WinnerIsLast(host, dylibs[..last], name);
        assert forall j :: 0 <= j < last ==> dylibs[..last][j] == dylibs[j];
      }
    }
  }

  /** What a Mach-O symbol gets from one library: the underscore that the compiler puts before a C name
      is dropped, mmap and __stack_chk_guard are replaced, and any other name gets the library's own
      symbol. A name without an underscore means the same as with one. */
  lemma SymbolMeans(host: Host, lib: Library, symbol: Name)
    ensures Definition(host, lib, [0x5F] + symbol)
         == if symbol == Ascii("mmap") then Some(host.mmapWrapper)
            else if symbol == Ascii("__stack_chk_guard") then Some(host.guard)
            else if symbol in lib then Some(lib[symbol]) else None
    ensures symbol == [] || symbol[0] != 0x5F ==> Definition(host, lib, symbol) == Definition(host, lib, [0x5F] + symbol)
  {
    hide Ascii;
    assert ([0x5F] + symbol)[1..] == symbol;
  }

  predicate Exports(host: Host, dylib: Name, symbol: Name) {
    dylib in host.libraries && symbol in host.libraries[dylib]
  }

  /** The Mach-O name of a C symbol that is not replaced is won by the last library that exports the symbol. */
  lemma WinnerExports(host: Host, dylibs: seq<Name>, symbol: Name) returns (k: int)
    requires symbol != Ascii("mmap") && symbol != Ascii("__stack_chk_guard")
    ensures -1 <= k < |dylibs|
    ensures forall j :: k < j < |dylibs| ==> !Exports(host, dylibs[j], symbol)
    ensures k == -1 ==> Winner(host, dylibs, [0x5F] + symbol) == None
    ensures 0 <= k ==> Exports(host, dylibs[k], symbol)
    ensures 0 <= k ==> Winner(host, dylibs, [0x5F] + symbol) == Some(host.libraries[dylibs[k]][symbol])
  {
    hide Definition, Winner, Ascii;
    forall j | 0 <= j < |dylibs| ensures Defines(host, dylibs[j], [0x5F] + symbol) == Exports(host, dylibs[j], symbol) {
      if dylibs[j] in host.libraries {
        SymbolMeans(host, host.libraries[dylibs[j]], symbol);
      }
    }
    k := WinnerIsLast(host, dylibs, [0x5F] + symbol);
    if 0 <= k {
      SymbolMeans(host, host.libraries[dylibs[k]], symbol);
    }
  }

  /** The two replaced symbols, with their Mach-O names: they get the wrapper and the guard as soon as
      any library opens, whatever it exports. */
  lemma {:induction false} WrappersWin(host: Host, dylibs: seq<Name>, name: Name)
    requires name == Ascii("_mmap") || name == Ascii("mmap") || name == Ascii("___stack_chk_guard")
    ensures Winner(host, dylibs, name) ==
      if exists k :: 0 <= k < |dylibs| && dylibs[k] in host.libraries
      then Some(if name == Ascii("___stack_chk_guard") then host.guard else host.mmapWrapper) else None
    decreases |dylibs|
  {
    hide Definition, Ascii;
    if dylibs != [] {
      var last := |dylibs| - 1;
      var before := dylibs[..last];
      if dylibs[last] !in host.libraries {
        WrappersWin(host, before, name);
        assert forall k :: 0 <= k < last ==> before[k] == dylibs[k];
      } else {
        ReplacedName(host, host.libraries[dylibs[last]], name);
      }
    }
  }

  lemma ReplacedName(host: Host, lib: Library, name: Name)
    requires name == Ascii("_mmap") || name == Ascii("mmap") || name == Ascii("___stack_chk_guard")
    ensures Definition(host, lib, name)
         == Some(if name == Ascii("___stack_chk_guard") then host.guard else host.mmapWrapper)
  {
    hide Ascii, Definition;
    MmapName();
    GuardName();
    SymbolMeans(host, lib, Ascii("mmap"));
    SymbolMeans(host, lib, Ascii("__stack_chk_guard"));
  }

  lemma MmapName()
    ensures Ascii("_mmap") == [0x5F] + Ascii("mmap") && |Ascii("mmap")| == 4 && Ascii("mmap")[0] != 0x5F
  {
    assert Ascii("_mmap")[1..] == Ascii("mmap");
  }

  lemma GuardName()
    ensures Ascii("___stack_chk_guard") == [0x5F] + Ascii("__stack_chk_guard") && |Ascii("__stack_chk_guard")| == 17
  {
    assert Ascii("___stack_chk_guard")[1..] == Ascii("__stack_chk_guard");
  }

  /** The entry is bound: not skipped. */
  predicate Active(imgAddr: u64, b: BindInfo) {
    !Skipped(imgAddr, b)
  }

  /** Every bound entry has a name and a slot inside the image, and no two slots share a byte. */
  ghost predicate GoodBinds(imgAddr: u64, size: nat, binds: seq<BindInfo>) {
    && (forall j :: 0 <= j < |binds| && Active(imgAddr, binds[j]) ==>
          binds[j].funcName.Some? && binds[j].address - imgAddr + 8 <= size)
    && (forall i, j :: 0 <= i < j < |binds| && Active(imgAddr, binds[i]) && Active(imgAddr, binds[j]) ==>
          Apart(binds[i].address, binds[j].address))
  }

  ghost predicate OutsideSlots(imgAddr: u64, binds: seq<BindInfo>, i: int) {
    forall j :: 0 <= j < |binds| && Active(imgAddr, binds[j]) ==>
      !(binds[j].address - imgAddr <= i < binds[j].address - imgAddr + 8)
  }

  lemma GoodTail(imgAddr: u64, size: nat, binds: seq<BindInfo>)
    requires binds != [] && GoodBinds(imgAddr, size, binds)
    ensures GoodBinds(imgAddr, size, binds[1..])
  {
    hide Active, Apart;
    assert forall j :: 0 <= j < |binds[1..]| ==> binds[1..][j] == binds[j + 1];
  }

  lemma BindOneKeeps(host: Host, lib: Library, imgAddr: u64, s: Image, b: BindInfo)
    requires Active(imgAddr, b) ==> b.funcName.Some? && b.address - imgAddr + 8 <= |s.mem|
    ensures var r := BindOne(host, lib, imgAddr, s, b);
      && |r.mem| == |s.mem| && r.trapped == s.trapped
      && (forall i :: 0 <= i < |s.mem| && OutsideSlots(imgAddr, [b], i) ==> r.mem[i] == s.mem[i])
      && (Active(imgAddr, b) ==>
            U64(r.mem, b.address - imgAddr)
              == match Definition(host, lib, b.funcName.value)
                 case Some(v) => v
                 case None => U64(s.mem, b.address - imgAddr))
      && (forall o: nat :: !Active(imgAddr, b) || Apart(b.address - imgAddr, o) ==>
            U64(r.mem, o) == U64(s.mem, o))
  {
    hide U64, Definition, Store;
    if Active(imgAddr, b) && Definition(host, lib, b.funcName.value).Some? {
      var v := Definition(host, lib, b.funcName.value).value;
      StoreHit(s.mem, b.address - imgAddr, v);
      forall o: nat | Apart(b.address - imgAddr, o)
        ensures U64(Store(s.mem, b.address - imgAddr, v), o) == U64(s.mem, o)
      {
        StoreMiss(s.mem, b.address - imgAddr, v, o);
      }
      assert [b][0] == b;
    }
  }

  /** One library: a word apart from every slot is left alone. */
  lemma {:induction false} LibraryMisses(host: Host, lib: Library, imgAddr: u64, s: Image, binds: seq<BindInfo>, o: nat)
    requires GoodBinds(imgAddr, |s.mem|, binds)
    requires forall j :: 0 <= j < |binds| && Active(imgAddr, binds[j]) ==> Apart(binds[j].address - imgAddr, o)
    ensures U64(BindLibrary(host, lib, imgAddr, s, binds).mem, o) == U64(s.mem, o)
    decreases |binds|
  {
    hide U64, BindOne, Apart, Active;
    if binds != [] && !s.trapped {
      BindOneKeeps(host, lib, imgAddr, s, binds[0]);
      GoodTail(imgAddr, |s.mem|, binds);
      LibraryMisses(host, lib, imgAddr, BindOne(host, lib, imgAddr, s, binds[0]), binds[1..], o);
    }
  }

  /** One library: bytes outside all slots are left alone, and nothing leaves the image. */
  lemma {:induction false} LibraryKeeps(host: Host, lib: Library, imgAddr: u64, s: Image, binds: seq<BindInfo>)
    requires GoodBinds(imgAddr, |s.mem|, binds)
    ensures var r := BindLibrary(host, lib, imgAddr, s, binds);
      && |r.mem| == |s.mem| && r.trapped == s.trapped && r.tally == s.tally
      && forall i :: 0 <= i < |s.mem| && OutsideSlots(imgAddr, binds, i) ==> r.mem[i] == s.mem[i]
    decreases |binds|
  {
    hide U64, Apart, Active, Store, Definition, Skipped;
    if binds != [] && !s.trapped {
      BindOneKeeps(host, lib, imgAddr, s, binds[0]);
      GoodTail(imgAddr, |s.mem|, binds);
      LibraryKeeps(host, lib, imgAddr, BindOne(host, lib, imgAddr, s, binds[0]), binds[1..]);
      forall i | 0 <= i < |s.mem| && OutsideSlots(imgAddr, binds, i)
        ensures OutsideSlots(imgAddr, [binds[0]], i) && OutsideSlots(imgAddr, binds[1..], i)
      {
        assert forall j :: 0 <= j < |binds[1..]| ==> binds[1..][j] == binds[j + 1];
      }
    }
  }

  /** One library: each slot gets what the library defines for it, or keeps its word. */
  lemma {:induction false} LibraryHits(host: Host, lib: Library, imgAddr: u64, s: Image, binds: seq<BindInfo>, j: nat)
    requires GoodBinds(imgAddr, |s.mem|, binds) && !s.trapped
    requires j < |binds| && Active(imgAddr, binds[j])
    ensures U64(BindLibrary(host, lib, imgAddr, s, binds).mem, binds[j].address - imgAddr)
         == match Definition(host, lib, binds[j].funcName.value)
            case Some(v) => v
            case None => U64(s.mem, binds[j].address - imgAddr)
    decreases |binds|
  {
    hide U64, BindOne, Definition;
    var s1 := BindOne(host, lib, imgAddr, s, binds[0]);
    var rest := binds[1..];
    BindOneKeeps(host, lib, imgAddr, s, binds[0]);
    GoodTail(imgAddr, |s.mem|, binds);
    assert forall k :: 0 <= k < |rest| ==> rest[k] == binds[k + 1];
    if j == 0 {
      LibraryMisses(host, lib, imgAddr, s1, rest, binds[0].address - imgAddr);
    } else {
      LibraryHits(host, lib, imgAddr, s1, rest, j - 1);
    }
  }

  lemma {:induction false} LibrariesAppend(host: Host, a: seq<Name>, b: seq<Name>, imgAddr: u64, s: Image, binds: seq<BindInfo>)
    ensures BindLibraries(host, a + b, imgAddr, s, binds)
         == BindLibraries(host, b, imgAddr, BindLibraries(host, a, imgAddr, s, binds), binds)
    decreases |a|
  {
    hide BindLibrary;
    if a == [] {
      assert a + b == b;
    } else if !s.trapped {
      assert (a + b)[1..] == a[1..] + b;
      var s' := if a[0] in host.libraries then BindLibrary(host, host.libraries[a[0]], imgAddr, s, binds) else s;
      LibrariesAppend(host, a[1..], b, imgAddr, s', binds);
    }
  }

  /** What the nested loops promise about the whole image. */
  ghost predicate BoundBy(host: Host, dylibs: seq<Name>, imgAddr: u64, s: Image, r: Image, binds: seq<BindInfo>) {
    && !r.trapped && |r.mem| == |s.mem| && r.tally == s.tally
    && (forall i :: 0 <= i < |s.mem| && OutsideSlots(imgAddr, binds, i) ==> r.mem[i] == s.mem[i])
    && (forall j :: 0 <= j < |binds| && Active(imgAddr, binds[j]) && binds[j].funcName.Some? ==>
          SlotHolds(host, dylibs, imgAddr, s, r, binds[j]))
  }

  predicate SlotHolds(host: Host, dylibs: seq<Name>, imgAddr: u64, s: Image, r: Image, b: BindInfo)
    requires b.funcName.Some?
  {
    U64(r.mem, b.address - imgAddr)
      == match Winner(host, dylibs, b.funcName.value)
         case Some(v) => v
         case None => U64(s.mem, b.address - imgAddr)
  }

  lemma OneMoreLibrary(host: Host, before: seq<Name>, name: Name, imgAddr: u64, s: Image, m: Image, binds: seq<BindInfo>)
    requires GoodBinds(imgAddr, |s.mem|, binds) && BoundBy(host, before, imgAddr, s, m, binds)
    ensures BoundBy(host, before + [name], imgAddr, s, BindLibraries(host, [name], imgAddr, m, binds), binds)
  {
    hide U64, Definition, Active, Apart, BindLibrary;
    var r := BindLibraries(host, [name], imgAddr, m, binds);
    assert [name][1..] == [];
    assert (before + [name])[..|before|] == before;
    if name in host.libraries {
      var lib := host.libraries[name];
      var bound := BindLibrary(host, lib, imgAddr, m, binds);
      assert BindLibraries(host, [], imgAddr, bound, binds) == bound;
      assert r == BindLibrary(host, lib, imgAddr, m, binds);
      LibraryKeeps(host, lib, imgAddr, m, binds);
      forall j | 0 <= j < |binds| && Active(imgAddr, binds[j]) && binds[j].funcName.Some?
        ensures SlotHolds(host, before + [name], imgAddr, s, r, binds[j])
      {
        LibraryHits(host, lib, imgAddr, m, binds, j);
        assert SlotHolds(host, before, imgAddr, s, m, binds[j]);
      }
    } else {
      assert BindLibraries(host, [], imgAddr, m, binds) == m;
      forall j | 0 <= j < |binds| && Active(imgAddr, binds[j]) && binds[j].funcName.Some?
        ensures SlotHolds(host, before + [name], imgAddr, s, r, binds[j])
      {
        assert SlotHolds(host, before, imgAddr, s, m, binds[j]);
      }
    }
  }

  lemma {:induction false} LibrariesBind(host: Host, dylibs: seq<Name>, imgAddr: u64, s: Image, binds: seq<BindInfo>)
    requires !s.trapped && GoodBinds(imgAddr, |s.mem|, binds)
    ensures BoundBy(host, dylibs, imgAddr, s, BindLibraries(host, dylibs, imgAddr, s, binds), binds)
    decreases |dylibs|
  {
    hide U64, GoodBinds, Active;
    if dylibs != [] {
      var last := |dylibs| - 1;
      var before := dylibs[..last];
      assert dylibs == before + [dylibs[last]];
      LibrariesBind(host, before, imgAddr, s, binds);
      LibrariesAppend(host, before, [dylibs[last]], imgAddr, s, binds);
      OneMoreLibrary(host, before, dylibs[last], imgAddr, s, BindLibraries(host, before, imgAddr, s, binds), binds);
    }
  }

  /** Last definer wins: after do_bind each slot holds the value from the last library that defines
      its symbol, in the order of the load commands and then libc and libm; a slot that no library
      defines keeps its word; no other byte changes. */
  lemma LastDefinerWins(host: Host, s: Loader)
    requires !s.image.trapped && GoodBinds(s.imgAddr, |s.image.mem|, s.binds)
    ensures BoundBy(host, s.dylibs + [LIBC, LIBM], s.imgAddr, s.image, DoBind(host, s).image, s.binds)
  {
    LibrariesBind(host, s.dylibs + [LIBC, LIBM], s.imgAddr, s.image, s.binds);
  }

  // ---------- When binding leaves the image ----------

  /** The entry makes the program stop while this library is open: it has no name, or its symbol is
      defined and its slot is not in the image. */
  predicate Stops(host: Host, lib: Library, imgAddr: u64, size: nat, b: BindInfo) {
    && Active(imgAddr, b)
    && (b.funcName == None
        || (Definition(host, lib, b.funcName.value).Some? && b.address - imgAddr + 8 > size))
  }

  lemma {:induction false} LibraryTraps(host: Host, lib: Library, imgAddr: u64, s: Image, binds: seq<BindInfo>)
    requires !s.trapped
    ensures |BindLibrary(host, lib, imgAddr, s, binds).mem| == |s.mem|
    ensures BindLibrary(host, lib, imgAddr, s, binds).trapped
       <==> exists j :: 0 <= j < |binds| && Stops(host, lib, imgAddr, |s.mem|, binds[j])
    decreases |binds|
  {
    hide Definition;
    if binds != [] {
      var s' := BindOne(host, lib, imgAddr, s, binds[0]);
      assert s'.trapped <==> Stops(host, lib, imgAddr, |s.mem|, binds[0]);
      assert forall j :: 1 <= j < |binds| ==> binds[j] == binds[1..][j - 1];
      if !s'.trapped {
        LibraryTraps(host, lib, imgAddr, s', binds[1..]);
      }
    }
  }

  /** Some entry stops the program when its turn comes with this library. */
  ghost predicate StopsWith(host: Host, dylib: Name, imgAddr: u64, size: nat, binds: seq<BindInfo>) {
    && dylib in host.libraries
    && exists j :: 0 <= j < |binds| && Stops(host, host.libraries[dylib], imgAddr, size, binds[j])
  }

  /** Binding leaves the image, or meets an entry without a name, exactly if some entry does so with
      some library that opens. */
  lemma {:induction false} BindingTraps(host: Host, dylibs: seq<Name>, imgAddr: u64, s: Image, binds: seq<BindInfo>)
    requires !s.trapped
    ensures BindLibraries(host, dylibs, imgAddr, s, binds).trapped
       <==> exists k :: 0 <= k < |dylibs| && StopsWith(host, dylibs[k], imgAddr, |s.mem|, binds)
    decreases |dylibs|
  {
    hide Stops;
    if dylibs != [] {
      var s' := if dylibs[0] in host.libraries then BindLibrary(host, host.libraries[dylibs[0]], imgAddr, s, binds) else s;
      if dylibs[0] in host.libraries {
        LibraryTraps(host, host.libraries[dylibs[0]], imgAddr, s, binds);
      }
      assert s'.trapped <==> StopsWith(host, dylibs[0], imgAddr, |s.mem|, binds);
      assert forall k :: 1 <= k < |dylibs| ==> dylibs[k] == dylibs[1..][k - 1];
      if !s'.trapped {
        BindingTraps(host, dylibs[1..], imgAddr, s', binds);
      }
    }
  }

  // ---------- The filter ----------

  /** Filter soundness: in a mapped image, the entry for an offset inside its segment is skipped
      exactly if the segment is bad or not mapped, or the address is the image base itself. */
  lemma SkippedMeans(segments: seq<SegmentInfo>, imgAddr: u64, size: nat, index: int, offset: u64, name: Option<Name>)
    requires 0 < imgAddr && imgAddr + size <= TWO64
    requires 0 <= index < |segments| && segments[index].mapped != 0 ==>
      imgAddr <= segments[index].mapped
      && segments[index].mapped + segments[index].vmsize <= imgAddr + size
      && offset < segments[index].vmsize
    ensures Skipped(imgAddr, BindInfo(name, BindAddress(segments, index, offset))) <==>
      !(0 <= index < |segments|) || segments[index].mapped == 0
      || segments[index].mapped + offset == imgAddr
  {
  }

  /** A skipped entry never causes a write, in any library. */
  lemma {:induction false} SkippedNeverWrites(host: Host, lib: Library, imgAddr: u64, s: Image, a: seq<BindInfo>, b: BindInfo, c: seq<BindInfo>)
    requires Skipped(imgAddr, b)
    ensures BindLibrary(host, lib, imgAddr, s, a + [b] + c) == BindLibrary(host, lib, imgAddr, s, a + c)
    decreases |a|
  {
    if a == [] {
      assert ([] + [b] + c)[1..] == c && [] + c == c;
    } else if !s.trapped {
      assert (a + [b] + c)[1..] == a[1..] + [b] + c;
      assert (a + c)[1..] == a[1..] + c;
      SkippedNeverWrites(host, lib, imgAddr, BindOne(host, lib, imgAddr, s, a[0]), a[1..], b, c);
    }
  }
}
