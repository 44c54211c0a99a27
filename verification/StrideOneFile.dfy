/** A file for which the two-phase reading fails: it keeps to the format in all but one point, a chain
    with a stride of one, so that the second word of the chain overlaps the first. */
module StrideOneFile {
  import opened Memory
  import opened ChainWalk
  import opened LoaderState
  import opened ChainedFixups
  import opened Layout
  import opened LoadCommands
  import opened LoadedImage

  /** The nonzero bytes of the file, by offset. */
  function FileByte(i: nat): byte {
    match i
    // Header at 0: MH_EXECUTE, two commands.
    case 12 => 2
    case 16 => 2
    // LC_SEGMENT_64 at 32: one page at address 0x1000, with the 12 bytes at 180 in it.
    case 32 => 0x19
    case 36 => 72
    case 57 => 0x10
    case 65 => 0x10
    case 72 => 180
    case 80 => 12
    // LC_DYLD_CHAINED_FIXUPS at 104: the 60 bytes at 120.
    case 104 => 0x34
    case 107 => 0x80
    case 108 => 16
    case 112 => 120
    case 116 => 60
    // The payload: starts at 148, one segment with info at 156, in format 6, with one page.
    case 124 => 28
    case 148 => 1
    case 152 => 8
    case 161 => 0x10
    case 162 => 6
    case 176 => 1
    // The chain: a rebase whose next word is four bytes on.
    case 186 => 8
    case _ => 0
  }

  const FILE: seq<byte> := seq<byte>(192, i requires 0 <= i < 192 => FileByte(i))

  // ---------- Reading the file ----------

  lemma FileAt(i: nat)
    ensures At(FILE, i) == if i < 192 then FileByte(i) else 0
  {
  }

  /** A number all of whose bytes but one are zero. */
  lemma {:induction false} OneByte(f: seq<byte>, p: nat, n: nat, k: nat, v: byte)
    requires k < n && At(f, p + k) == v
    requires forall i :: p <= i < p + n && i != p + k ==> At(f, i) == 0
    ensures LE(f, p, p + n) == v * Pow256(k)
    decreases n
  {
    if k > 0 {
      OneByte(f, p + 1, n - 1, k - 1, v);
      Shift(v, Pow256(k - 1));
    } else {
      ZeroLE(f, p + 1, p + n);
    }
  }

  lemma Shift(v: nat, w: nat)
    ensures 0x100 * (v * w) == v * (0x100 * w)
  {
  }

  lemma {:induction false} ZeroLE(f: seq<byte>, p: nat, q: nat)
    requires forall i :: p <= i < q ==> At(f, i) == 0
    ensures LE(f, p, q) == 0
    decreases q - p
  {
    if p < q {
      ZeroLE(f, p + 1, q);
    }
  }

  lemma FileNumber(p: nat, n: nat, k: nat)
    requires k < n && p + n <= 192
    requires forall i :: p <= i < p + n && i != p + k ==> FileByte(i) == 0
    ensures LE(FILE, p, p + n) == FileByte(p + k) * Pow256(k)
  {
    forall i | p <= i < p + n ensures At(FILE, i) == FileByte(i) {
      FileAt(i);
    }
    OneByte(FILE, p, n, k, FileByte(p + k));
  }

  lemma HeaderFields()
    ensures U32(FILE, 12) == MH_EXECUTE && CommandCount(FILE) == 2
  {
    FileNumber(12, 4, 0);
    FileNumber(16, 4, 0);
  }

  lemma SegmentFields()
    ensures IsSegment(FILE, 32) && CommandSize(FILE, 32) == 72 && SectionCount(FILE, 32) == 0
    ensures SegName(FILE, 32) == []
    ensures VmAddr(FILE, 32) == 0x1000 && VmSize(FILE, 32) == 0x1000
    ensures FileOff(FILE, 32) == 180 && FileSize(FILE, 32) == 12
  {
    hide LE;
    assert Pow256(1) == 0x100;
    FileNumber(32, 4, 0);
    FileNumber(36, 4, 0);
    FileNumber(96, 4, 0);
    FileAt(40);
    FileNumber(56, 8, 1);
    FileNumber(64, 8, 1);
    FileNumber(72, 8, 0);
    FileNumber(80, 8, 0);
  }

  lemma FixupCommandNumber()
    ensures Command(FILE, 104) == 0x8000_0034
  {
    FileNumber(105, 3, 2);
    FileAt(104);
    assert Pow256(2) == 0x1_0000;
    assert LE(FILE, 104, 108) == 0x34 + 0x100 * LE(FILE, 105, 108);
  }

  lemma FixupFields()
    ensures IsFixups(FILE, 104) && !IsSegment(FILE, 104) && CommandSize(FILE, 104) == 16
    ensures U32(FILE, 112) == 120 && U32(FILE, 116) == 60
  {
    hide LE;
    FixupCommandNumber();
    FileNumber(108, 4, 0);
    FileNumber(112, 4, 0);
    FileNumber(116, 4, 0);
  }

  lemma PayloadFields()
    ensures U32(FILE, 124) == 28 && U32(FILE, 148) == 1 && U32(FILE, 152) == 8
    ensures U16(FILE, 162) == 6 && U64(FILE, 164) == 0 && U16(FILE, 176) == 1 && U16(FILE, 178) == 0
  {
    hide LE;
    FileNumber(124, 4, 0);
    FileNumber(148, 4, 0);
    FileNumber(152, 4, 0);
    FileNumber(162, 2, 0);
    FileNumber(164, 8, 0);
    FileNumber(176, 2, 0);
    FileNumber(178, 2, 0);
  }

  // ---------- Its layout ----------

  lemma TheOffsets()
    ensures AllOffsets(FILE) == [32, 104]
    ensures SizedOffsets(FILE, HEADER_SIZE, CommandCount(FILE)) == [32, 104]
  {
    hide U32, LE, IsSegment, SectionCount, CommandSize;
    HeaderFields();
    SegmentFields();
    FixupFields();
    assert Offsets(FILE, 104, 1) == [104] + Offsets(FILE, NextCommand(FILE, 104), 0) == [104];
    assert Offsets(FILE, 32, 2) == [32] + Offsets(FILE, 104, 1);
    assert SizedOffsets(FILE, 104, 1) == [104] + SizedOffsets(FILE, 104 + CommandSize(FILE, 104), 0) == [104];
    assert SizedOffsets(FILE, 32, 2) == [32] + SizedOffsets(FILE, 104, 1);
  }

  lemma TheExtent()
    ensures TakesRoom(FILE, 32) && !TakesRoom(FILE, 104)
    ensures ImageExtent(FILE) == (0x1000, 0x2000)
    ensures Low(FILE) == 0x1000 && MapSize(FILE) == 0x1000
  {
    hide U32, U64, IsSegment, SegName, VmAddr, VmSize, SizedOffsets;
    TheOffsets();
    SegmentFields();
    FixupFields();
    assert |PAGEZERO| == 10;
    assert Extent(FILE, [104], 0x1000, 0x2000) == Extent(FILE, [], 0x1000, 0x2000) by {
      assert [104][1..] == [];
    }
    assert Extent(FILE, [32, 104], MAX64, 0) == Extent(FILE, [104], 0x1000, 0x2000) by {
      assert [32, 104][1..] == [104];
    }
  }

  lemma TheFileIsLaidOut(host: Host)
    requires host.mmapBase == 0x1000_0000
    ensures WellLaidOut(FILE) && Maps(host, FILE) && FixupsAt(FILE, 1)
  {
    hide U32, U64, IsSegment, IsFixups, SegName, VmAddr, VmSize, FileSize, SizedOffsets, AllOffsets, ImageExtent, Low, MapSize, TakesRoom;
    TheOffsets();
    TheExtent();
    SegmentFields();
    FixupFields();
    SegmentIsNotFixups(32);
    assert TakesRoom(FILE, AllOffsets(FILE)[0]);
    LowIsFirst();
  }

  lemma SegmentIsNotFixups(p: nat)
    requires IsSegment(FILE, p)
    ensures !IsFixups(FILE, p)
  {
  }

  lemma LowIsFirst()
    ensures ImageExtent(FILE).0 == Low(FILE)
  {
  }

  /** The image of the file: its twelve bytes, then zeros. */
  lemma TheImage()
    ensures |SegmentImage(FILE)| == 0x1000
    ensures forall i :: 0 <= i < 0x1000 ==> SegmentImage(FILE)[i] == if i == 6 then 8 else 0
  {
    hide U32, U64, IsSegment, SegName, VmAddr, FileSize, FileOff, AllOffsets, Low, MapSize;
    TheOffsets();
    TheExtent();
    SegmentFields();
    FixupFields();
    assert |PAGEZERO| == 10;
    assert [32, 104][..1] == [32] && [32][..0] == [];
    assert LayoutBytes(FILE, 0x1000, 0x1000, []) == Zeros(0x1000);
    assert LayoutBytes(FILE, 0x1000, 0x1000, [32]) == Overlay(Zeros(0x1000), 0, Slice(FILE, 180, 12));
    assert LayoutBytes(FILE, 0x1000, 0x1000, [32, 104]) == LayoutBytes(FILE, 0x1000, 0x1000, [32]);
    forall i | 0 <= i < 0x1000 ensures SegmentImage(FILE)[i] == if i == 6 then 8 else 0 {
      if i < 12 {
        FileAt(180 + i);
      }
    }
  }

  /** Its one chain starts at the start of the image. */
  lemma TheStarts(host: Host)
    requires host.mmapBase == 0x1000_0000
    ensures Starts(host, FILE, 1) == [0]
  {
    hide U16, U32, U64, AllOffsets, Low, SegmentTable;
    TheOffsets();
    FixupFields();
    PayloadFields();
    TheTable(host);
    assert SegmentStarts(FILE, 156, 1) == [];
    assert ChainOffset(FILE, 156, 0) == 0;
    assert SegmentStarts(FILE, 156, 0) == [0];
    assert ImageStarts(FILE, 148, 180, SegmentTable(host, FILE), 1) == [];
    assert ImageStarts(FILE, 148, 180, SegmentTable(host, FILE), 0) == [0] + [];
  }

  lemma TheTable(host: Host)
    requires host.mmapBase == 0x1000_0000
    ensures |SegmentTable(host, FILE)| == 1 && SegmentTable(host, FILE)[0].mapped != 0
  {
    hide U32, U64, IsSegment, SegName, VmAddr, AllOffsets, Low;
    TheOffsets();
    TheExtent();
    SegmentFields();
    FixupFields();
    assert |PAGEZERO| == 10 && |TEXT| == 6;
    assert [32, 104][..1] == [32] && [32][..0] == [];
    var info := InfoOf(FILE, 32, 0x1000_0000, 0x1000);
    assert Recorded(FILE, 0x1000_0000, 0x1000, []) == [];
    assert Recorded(FILE, 0x1000_0000, 0x1000, [32]) == [info];
    assert Recorded(FILE, 0x1000_0000, 0x1000, [32, 104]) == [info];
  }

  /** The first word of the chain has stride one; the planned second word overlaps it. */
  lemma ThePlan()
    ensures Plan(SegmentImage(FILE), [0]) == [Slot(0, 0x8_0000_0000_0000), Slot(4, 0x8_0000)]
    ensures ChainInside(SegmentImage(FILE), 0, MAX_STEPS)
  {
    hide U64, SegmentImage, Plan;
    TheWords();
    var m := SegmentImage(FILE);
    ChainUnfold(m, 0, MAX_STEPS);
    ChainUnfold(m, 4, MAX_STEPS - 1);
    assert ChainSlots(m, 4, MAX_STEPS - 1) == [Slot(4, 0x8_0000)];
    assert ChainSlots(m, 0, MAX_STEPS) == [Slot(0, 0x8_0000_0000_0000), Slot(4, 0x8_0000)];
    OneChain(m, 0);
  }

  lemma OneChain(mem: seq<byte>, start: nat)
    ensures Plan(mem, [start]) == ChainSlots(mem, start, MAX_STEPS)
  {
    hide ChainSlots;
    assert [start][1..] == [];
    assert Plan(mem, []) == [];
  }

  lemma TheWords()
    ensures |SegmentImage(FILE)| == 0x1000
    ensures U64(SegmentImage(FILE), 0) == 0x8_0000_0000_0000
    ensures U64(SegmentImage(FILE), 4) == 0x8_0000
  {
    hide LE, SegmentImage;
    TheImage();
    var m := SegmentImage(FILE);
    assert At(m, 6) == 8;
    assert Pow256(2) == 0x1_0000;
    assert Pow256(6) == 0x100 * (0x100 * (0x100 * (0x100 * Pow256(2))));
    OneByte(m, 0, 8, 6, 8);
    OneByte(m, 4, 8, 2, 8);
  }

  /** No memory at all is the two-phase result for this file, so the loaded one is not: the upper half
      of the first word and the lower half of the second would have to be the same bytes. */
  lemma StrideOneBreaksTwoPhase(host: Host)
    requires host.mmapBase == 0x1000_0000
    ensures WellLaidOut(FILE) && Maps(host, FILE) && FixupsAt(FILE, 1) && U32(FILE, 12) == MH_EXECUTE
    ensures ChainInside(SegmentImage(FILE), 0, MAX_STEPS) && Starts(host, FILE, 1) == [0]
    ensures !FixedUp(TheRule(host, FILE, 1), SegmentImage(FILE), Load(host, FILE).image.mem,
                     Plan(SegmentImage(FILE), Starts(host, FILE, 1)))
  {
    hide U64, LE, Load, SegmentImage, Starts, WellLaidOut, Maps, FixupsAt, ChainInside, Plan;
    HeaderFields();
    TheFileIsLaidOut(host);
    TheStarts(host);
    ThePlan();
    var rule, m := TheRule(host, FILE, 1), Load(host, FILE).image.mem;
    var plan := Plan(SegmentImage(FILE), [0]);
    assert FinalWord(rule, plan[0].raw) == 0x1000_0000;
    assert FinalWord(rule, plan[1].raw) == 0x1008_0000;
    NoSuchMemory(m);
  }

  lemma NoSuchMemory(m: seq<byte>)
    ensures U64(m, 0) != 0x1000_0000 || U64(m, 4) != 0x1008_0000
  {
    hide LE;
    Halves(m, 0);
    Halves(m, 4);
  }

  /** A word is its lower half and its upper half. */
  lemma Halves(f: seq<byte>, p: int)
    ensures U64(f, p) == U32(f, p) + 0x1_0000_0000 * U32(f, p + 4)
  {
    assert LE(f, p + 3, p + 8) == At(f, p + 3) + 0x100 * LE(f, p + 4, p + 8);
    assert LE(f, p + 2, p + 8) == At(f, p + 2) + 0x100 * LE(f, p + 3, p + 8);
    assert LE(f, p + 1, p + 8) == At(f, p + 1) + 0x100 * LE(f, p + 2, p + 8);
    assert LE(f, p, p + 8) == At(f, p) + 0x100 * LE(f, p + 1, p + 8);
    assert LE(f, p + 4, p + 4) == 0;
    assert LE(f, p + 3, p + 4) == At(f, p + 3) + 0x100 * LE(f, p + 4, p + 4);
    assert LE(f, p + 2, p + 4) == At(f, p + 2) + 0x100 * LE(f, p + 3, p + 4);
    assert LE(f, p + 1, p + 4) == At(f, p + 1) + 0x100 * LE(f, p + 2, p + 4);
    assert LE(f, p, p + 4) == At(f, p) + 0x100 * LE(f, p + 1, p + 4);
  }
}
