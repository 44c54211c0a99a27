/** The memory of a written program after loading and after binding. */
module ProgramMemory {
  import opened Memory
  import opened ChainFormat
  import opened ChainWalk
  import opened LoaderState
  import opened ChainedFixups
  import opened FixupPayload
  import opened Layout
  import opened LoadCommands
  import opened LoadedImage
  import opened LoadedTables
  import opened MachOFile
  import opened ProgramImage
  import BindEncoder
  import Binder
  import BoundImage

  // ---------- Words of the plan and words of chains ----------

  /** Every word of every chain is planned. */
  lemma {:induction false} PlanHas(mem: seq<byte>, starts: seq<nat>, k: nat, j: nat) returns (m: nat)
    requires k < |starts| && j < |ChainSlots(mem, starts[k], MAX_STEPS)|
    ensures m < |Plan(mem, starts)| && Plan(mem, starts)[m] == ChainSlots(mem, starts[k], MAX_STEPS)[j]
    decreases k
  {
    hide ChainSlots;
    if k == 0 {
      m := j;
    } else {
      m := PlanHas(mem, starts[1..], k - 1, j);
      m := m + |ChainSlots(mem, starts[0], MAX_STEPS)|;
    }
  }

  /** Every planned word is in a chain. */
  lemma {:induction false} PlanFrom(mem: seq<byte>, starts: seq<nat>, m: nat) returns (k: nat, j: nat)
    requires m < |Plan(mem, starts)|
    ensures k < |starts| && j < |ChainSlots(mem, starts[k], MAX_STEPS)|
    ensures Plan(mem, starts)[m] == ChainSlots(mem, starts[k], MAX_STEPS)[j]
    decreases |starts|
  {
    hide ChainSlots;
    var first := ChainSlots(mem, starts[0], MAX_STEPS);
    if m < |first| {
      k, j := 0, m;
    } else {
      k, j := PlanFrom(mem, starts[1..], m - |first|);
      k := k + 1;
    }
  }

  // ---------- Chained fixups ----------

  /** Command `f` is the one fixup command, and all segments come before it. */
  ghost predicate OneFixups(commands: seq<LoadCommand>, f: nat) {
    && f < |commands| && commands[f].Fixups?
    && (forall k :: 0 <= k < |commands| && k != f ==> !commands[k].Fixups?)
    && (forall k :: f < k < |commands| ==> !commands[k].Segment?)
  }

  lemma FixupsAreAt(file: seq<byte>, w: Program, f: nat)
    requires ProgramAt(file, w) && OneFixups(w.commands, f)
    ensures FixupsAt(file, f) && f < |AllOffsets(file)|
    ensures U32(file, LoadedImage.CommandAt(file, f) + 8) == w.commands[f].dataoff
    ensures U32(file, LoadedImage.CommandAt(file, f) + 12) == w.commands[f].datasize
  {
    hide U32, ProgramAt, Positions, Position, CommandWritten, IsSegment, IsFixups, AllOffsets;
    CommandsAreVisited(file, w);
    forall k | 0 <= k < |w.commands|
      ensures IsFixups(file, AllOffsets(file)[k]) == w.commands[k].Fixups?
      ensures IsSegment(file, AllOffsets(file)[k]) == w.commands[k].Segment?
    {
      CommandStands(file, w, k);
      KindIsRead(file, AllOffsets(file)[k], w.commands[k]);
    }
    CommandStands(file, w, f);
    FixupsAreRead(file, Position(w.commands, f), w.commands[f]);
  }

  /** The chain from `start`, taken from `mem`, has every packed pointer at its value in `mem'`; a word
      without a value is as it was. */
  ghost predicate ChainFixed(host: Host, payload: Payload, mem: seq<byte>, mem': seq<byte>, start: nat) {
    var slots := ChainSlots(mem, start, MAX_STEPS);
    forall j, p: Pointer | 0 <= j < |slots| && p.Valid() && Pack(p) == slots[j].raw ::
      U64(mem', slots[j].off)
        == match PointerValue(host, host.mmapBase, payload, p)
           case Some(v) => v
           case None => slots[j].raw
  }

  /** Where the chain of this page starts. */
  function StartOf(payload: Payload, datasize: u32, segments: seq<SegmentInfo>, page: Page): u64
    requires HasStart(payload, datasize, segments, page)
  {
    PageStart(payload.chains[page.segment], page.page)
  }

  /** `i` is in no word of a chain of any page with a start. */
  ghost predicate OutsideChains(payload: Payload, datasize: u32, segments: seq<SegmentInfo>, mem: seq<byte>, i: nat) {
    forall page: Page | HasStart(payload, datasize, segments, page) ::
      Untouched(ChainSlots(mem, StartOf(payload, datasize, segments, page), MAX_STEPS), i)
  }

  /** `mem'` is `mem` with the chain of every page of every walked segment fixed, and nothing else changed. */
  ghost predicate PayloadFixed(host: Host, payload: Payload, datasize: u32, segments: seq<SegmentInfo>, mem: seq<byte>, mem': seq<byte>) {
    && |mem'| == |mem|
    && (forall page: Page :: HasStart(payload, datasize, segments, page) ==>
          ChainFixed(host, payload, mem, mem', StartOf(payload, datasize, segments, page)))
    && (forall i :: 0 <= i < |mem| && OutsideChains(payload, datasize, segments, mem, i) ==> mem'[i] == mem[i])
  }

  lemma ChainIsFixed(host: Host, file: seq<byte>, at: nat, payload: Payload, mem: seq<byte>, mem': seq<byte>, starts: seq<nat>, k: nat)
    requires PayloadAt(file, at, payload) && k < |starts|
    requires FixedUp(FixRule(host, host.mmapBase, file, at), mem, mem', Plan(mem, starts))
    ensures ChainFixed(host, payload, mem, mem', starts[k])
  {
    hide U64, Pack, PayloadAt, Plan, ChainSlots, PointerValue, FixWord;
    var slots := ChainSlots(mem, starts[k], MAX_STEPS);
    forall j, p: Pointer | 0 <= j < |slots| && p.Valid() && Pack(p) == slots[j].raw
      ensures U64(mem', slots[j].off)
        == match PointerValue(host, host.mmapBase, payload, p)
           case Some(v) => v
           case None => slots[j].raw
    {
      var m := PlanHas(mem, starts, k, j);
      PointerIsFixed(host, host.mmapBase, file, at, payload, p);
    }
  }

  lemma OutsideIsUntouched(payload: Payload, datasize: u32, segments: seq<SegmentInfo>, mem: seq<byte>, list: seq<Page>, starts: seq<nat>, i: nat)
    requires Lists(payload, datasize, segments, 0, list, starts)
    requires OutsideChains(payload, datasize, segments, mem, i)
    ensures Untouched(Plan(mem, starts), i)
  {
    hide ChainSlots, Plan, HasStart, PageStart;
    forall m | 0 <= m < |Plan(mem, starts)| ensures !(Plan(mem, starts)[m].off <= i < Plan(mem, starts)[m].off + 8) {
      var k, j := PlanFrom(mem, starts, m);
      assert HasStart(payload, datasize, segments, list[k]);
    }
  }

  lemma ListedAreFixed(host: Host, file: seq<byte>, at: nat, payload: Payload, datasize: u32, segments: seq<SegmentInfo>,
                       mem: seq<byte>, mem': seq<byte>, list: seq<Page>, starts: seq<nat>)
    requires PayloadAt(file, at, payload) && Lists(payload, datasize, segments, 0, list, starts)
    requires FixedUp(FixRule(host, host.mmapBase, file, at), mem, mem', Plan(mem, starts))
    ensures PayloadFixed(host, payload, datasize, segments, mem, mem')
  {
    hide FixRule, PayloadAt, HasStart, PageStart, ChainFixed, OutsideChains, Plan;
    forall page: Page | HasStart(payload, datasize, segments, page)
      ensures ChainFixed(host, payload, mem, mem', StartOf(payload, datasize, segments, page))
    {
      assert page in list;
      var k :| 0 <= k < |list| && list[k] == page;
      ChainIsFixed(host, file, at, payload, mem, mem', starts, k);
    }
    forall i | 0 <= i < |mem| && OutsideChains(payload, datasize, segments, mem, i) ensures mem'[i] == mem[i] {
      OutsideIsUntouched(payload, datasize, segments, mem, list, starts, i);
    }
  }

  /** Loading a written program with a written payload: the chain of every page that has one, of every
      walked segment, ends with each of its packed pointers at its value, and no other byte of the
      segments' image is changed. */
  lemma ProgramFixups(host: Host, file: seq<byte>, w: Program, f: nat, payload: Payload)
    requires ProgramAt(file, w) && GoodProgram(w.commands) && Maps(host, file) && OneFixups(w.commands, f)
    requires PayloadAt(file, w.commands[f].dataoff, payload)
    requires w.commands[f].datasize >= 28 && payload.startsOffset + 4 <= w.commands[f].datasize
    requires WellFormed(SegmentImage(file), Starts(host, file, f))
    ensures var r := Load(host, file);
      !r.image.trapped
      && PayloadFixed(host, payload, w.commands[f].datasize, r.segments, SegmentImage(file), r.image.mem)
  {
    hide U32, AllOffsets, ProgramAt, GoodProgram, WellLaidOut, Maps, FixupsAt, PayloadAt, WellFormed, SegmentImage, Recorded, Low, Load, FixupStarts, Plan, LoadedImage.CommandAt, FixRule, Lists, FixedUp, PayloadFixed;
    CommandsAreVisited(file, w);
    ProgramIsLaidOut(file, w);
    FixupsAreAt(file, w, f);
    LoadedMemory(host, file, f);
    LoadedTable(host, file);
    var size := w.commands[f].datasize;
    var segments := Load(host, file).segments;
    var list := StartsAreListed(file, w.commands[f].dataoff, size, payload, segments);
    ListedAreFixed(host, file, w.commands[f].dataoff, payload, size, segments,
                   SegmentImage(file), Load(host, file).image.mem, list, Starts(host, file, f));
  }

  // ---------- Bind info ----------

  /** Command `d` is the one bind command, all segments come before it, and there are no fixups. */
  ghost predicate OneDyldInfo(commands: seq<LoadCommand>, d: nat) {
    && d < |commands| && commands[d].DyldInfo?
    && (forall k :: 0 <= k < |commands| ==> !commands[k].Fixups?)
    && (forall k :: 0 <= k < |commands| && k != d ==> !commands[k].DyldInfo?)
    && (forall k :: d < k < |commands| ==> !commands[k].Segment?)
  }

  lemma DyldInfoIsAt(file: seq<byte>, w: Program, d: nat, bind: seq<BindEncoder.Entry>, lazy: seq<BindEncoder.Entry>)
    requires ProgramAt(file, w) && OneDyldInfo(w.commands, d)
    requires BindEncoder.Holds(file, w.commands[d].bindOff, w.commands[d].bindSize, bind)
    requires BindEncoder.Holds(file, w.commands[d].lazyOff, w.commands[d].lazySize, lazy)
    ensures BoundImage.DyldInfoAt(file, d) && BoundImage.Encodes(file, AllOffsets(file)[d], bind, lazy)
  {
    hide U32, ProgramAt, Positions, Position, CommandWritten, IsSegment, IsFixups, IsDyldInfo, AllOffsets, BindEncoder.Holds;
    CommandsAreVisited(file, w);
    forall k | 0 <= k < |w.commands|
      ensures IsFixups(file, AllOffsets(file)[k]) == w.commands[k].Fixups?
      ensures IsDyldInfo(file, AllOffsets(file)[k]) == w.commands[k].DyldInfo?
      ensures IsSegment(file, AllOffsets(file)[k]) == w.commands[k].Segment?
    {
      CommandStands(file, w, k);
      KindIsRead(file, AllOffsets(file)[k], w.commands[k]);
    }
    CommandStands(file, w, d);
    DyldInfoIsRead(file, Position(w.commands, d), w.commands[d]);
  }

  /** The row names a byte of a recorded segment of the program, which is mapped at its bytes. */
  predicate RowIn(commands: seq<LoadCommand>, low: u64, e: BindEncoder.Entry) {
    && e.segment < |Segments(commands)| && e.segment < 32
    && var c := Segments(commands)[e.segment];
       Roomy(c) && (c.name == Ascii("__TEXT") ==> c.vmaddr == low) && e.offset < c.vmsize
  }

  /** The place of that byte in the image. */
  function RowPlace(commands: seq<LoadCommand>, low: u64, e: BindEncoder.Entry): int
    requires RowIn(commands, low, e)
  {
    Segments(commands)[e.segment].vmaddr - low + e.offset
  }

  /** The libraries in the order they are tried. */
  function SearchOrder(commands: seq<LoadCommand>): seq<Name> {
    Libraries(commands) + [Ascii("libc.so.6"), Ascii("libm.so.6")]
  }

  lemma RowIsPlaced(host: Host, file: seq<byte>, w: Program, e: BindEncoder.Entry)
    requires ProgramAt(file, w) && RowIn(w.commands, Low(file), e)
    ensures BoundImage.RowPlaced(host, file, e) && BoundImage.RowOffset(file, e) == RowPlace(w.commands, Low(file), e)
    ensures e.offset < VmSize(file, SegmentCommand(file, e.segment))
  {
    hide U32, ProgramAt, CommandWritten, Positions, Low, Segments, Roomy, TakesRoom, SegName, VmAddr, VmSize, AllOffsets, Recorded, InfoOf, Ascii, SegmentCommands;
    var all := Positions(w.commands);
    CommandsAreVisited(file, w);
    assert all[..|all|] == all && w.commands[..|all|] == w.commands;
    SegmentsAreRead(file, w, |all|);
    RecordedInOrder(file, host.mmapBase, Low(file), all);
    var c, p := Segments(w.commands)[e.segment], SegmentCommand(file, e.segment);
    RoomIsRead(file, p, c);
    SegmentIsRead(file, p, c);
  }

  lemma OrderIsRead(file: seq<byte>, w: Program)
    requires ProgramAt(file, w)
    ensures BoundImage.LibraryOrder(file) == SearchOrder(w.commands)
  {
    hide U32, ProgramAt, CommandWritten, Positions, AllOffsets, Libraries, DylibNames, Ascii;
    var all := Positions(w.commands);
    CommandsAreVisited(file, w);
    assert all[..|all|] == all && w.commands[..|all|] == w.commands;
    LibrariesAreRead(file, w, |all|);
  }

  /** Loading and binding a written program whose bind and lazy streams encode two tables: the word at
      the byte that a row names holds what the last library that defines the row's symbol gives
      it, or its own file bytes if none does. */
  lemma ProgramBinds(host: Host, file: seq<byte>, w: Program, d: nat, bind: seq<BindEncoder.Entry>, lazy: seq<BindEncoder.Entry>, j: nat)
    requires ProgramAt(file, w) && GoodProgram(w.commands) && Maps(host, file) && OneDyldInfo(w.commands, d)
    requires BindEncoder.Holds(file, w.commands[d].bindOff, w.commands[d].bindSize, bind)
    requires BindEncoder.Holds(file, w.commands[d].lazyOff, w.commands[d].lazySize, lazy)
    requires Binder.GoodBinds(host.mmapBase, MapSize(file), BindEncoder.Expected(SegmentTable(host, file), bind + lazy))
    requires j < |bind + lazy| && RowIn(w.commands, Low(file), (bind + lazy)[j])
    requires RowPlace(w.commands, Low(file), (bind + lazy)[j]) != 0
    ensures var at := RowPlace(w.commands, Low(file), (bind + lazy)[j]);
      U64(Binder.DoBind(host, Load(host, file)).image.mem, at)
        == match Binder.Winner(host, SearchOrder(w.commands), (bind + lazy)[j].name)
           case Some(v) => v
           case None => U64(SegmentImage(file), at)
  {
    hide U32, U64, ProgramAt, GoodProgram, WellLaidOut, Maps, AllOffsets, Low, MapSize, Load, SegmentImage, SegmentTable, RowIn, VmSize, Binder.Winner, Binder.DoBind, Binder.GoodBinds, BindEncoder.Expected, BindEncoder.Holds, BoundImage.DyldInfoAt, BoundImage.Encodes, BoundImage.RowPlaced, BoundImage.RowOffset, BoundImage.RowAddress, BoundImage.LibraryOrder, SearchOrder, Binder.OutsideSlots, OneDyldInfo;
    ProgramIsLaidOut(file, w);
    CommandsAreVisited(file, w);
    DyldInfoIsAt(file, w, d, bind, lazy);
    RowIsPlaced(host, file, w, (bind + lazy)[j]);
    OrderIsRead(file, w);
    BoundImage.BoundFile(host, file, d, bind, lazy);
  }
}
