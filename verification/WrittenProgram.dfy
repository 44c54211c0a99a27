/** A program written out in full, and the round trip through the loader. */
module WrittenProgram {
  import opened Memory
  import opened ChainWalk
  import opened LoaderState
  import opened Structs
  import opened Layout
  import opened LoadCommands
  import opened LoadedImage
  import opened MachOFile
  import opened ProgramImage

  /** One segment at `vmaddr` that holds `code`, which stands right after the commands. */
  function CodeSegment(code: seq<byte>, vmaddr: u64): LoadCommand
    requires |code| < TWO64
  {
    Segment(Ascii("__TEXT"), vmaddr, |code|, 104, |code|, 7, 5, 0, 0)
  }

  function CodeProgram(code: seq<byte>, vmaddr: u64): Program
    requires |code| < TWO64
  {
    Program(0xFEED_FACF, 0x0100_0007, 3, 72, 0, 0, [CodeSegment(code, vmaddr)])
  }

  lemma HeaderIsValid(w: Program)
    requires |w.commands| < TWO32
    ensures AllValid(w.Header()) && |StructBytes(w.Header())| == 32
  {
    hide StructBytes;
    assert Pow256(4) == TWO32;
    StructSize(w.Header());
    assert OffsetOf(w.Header(), 8) == 32;
  }

  lemma SegmentFieldsEnd(c: LoadCommand)
    requires c.Segment?
    ensures |c.Fields()| == 11 && OffsetOf(c.Fields(), 11) == 72
  {
    hide LoadCommand.Size;
    var fields := c.Fields();
    assert OffsetOf(fields, 3) == 24;
    assert OffsetOf(fields, 7) == 56;
  }

  lemma TextFits()
    ensures Text(16, Ascii("__TEXT")).Valid()
  {
  }

  lemma SegmentIsValid(code: seq<byte>, vmaddr: u64)
    requires |code| < TWO64
    ensures AllValid(CodeSegment(code, vmaddr).Fields())
    ensures |StructBytes(CodeSegment(code, vmaddr).Fields())| == 72
  {
    hide StructBytes, OffsetOf, Ascii;
    assert Pow256(4) == TWO32 && Pow256(8) == TWO64;
    TextFits();
    assert AllValid(CodeSegment(code, vmaddr).Fields());
    StructSize(CodeSegment(code, vmaddr).Fields());
    SegmentFieldsEnd(CodeSegment(code, vmaddr));
  }

  function CodeFile(code: seq<byte>, vmaddr: u64): seq<byte>
    requires |code| < TWO64
  {
    HeaderIsValid(CodeProgram(code, vmaddr));
    SegmentIsValid(code, vmaddr);
    StructBytes(CodeProgram(code, vmaddr).Header()) + StructBytes(CodeSegment(code, vmaddr).Fields()) + code
  }

  lemma CodeIsWritten(code: seq<byte>, vmaddr: u64)
    requires |code| < TWO64
    ensures ProgramAt(CodeFile(code, vmaddr), CodeProgram(code, vmaddr))
    ensures forall i :: 0 <= i < |code| ==> At(CodeFile(code, vmaddr), 104 + i) == code[i]
  {
    hide StructBytes, AllValid;
    var file, w, c := CodeFile(code, vmaddr), CodeProgram(code, vmaddr), CodeSegment(code, vmaddr);
    HeaderIsValid(CodeProgram(code, vmaddr));
    SegmentIsValid(code, vmaddr);
    assert file[..32] == StructBytes(w.Header());
    assert file[32..104] == StructBytes(c.Fields());
    assert Position(w.commands, 0) == 32;
  }

  /** It is a program as the loader needs it. */
  lemma CodeIsGood(code: seq<byte>, vmaddr: u64)
    requires 0 < |code| && 0 < vmaddr && vmaddr + |code| + 0x1000 <= TWO64
    ensures GoodProgram(CodeProgram(code, vmaddr).commands) && Roomy(CodeSegment(code, vmaddr))
  {
    var commands := CodeProgram(code, vmaddr).commands;
    assert |Ascii("__TEXT")| != |Ascii("__PAGEZERO")|;
    assert Roomy(commands[0]);
  }

  /** Its image is mapped from `vmaddr` on, in the fewest pages. */
  lemma CodeSpan(code: seq<byte>, vmaddr: u64, low: u64, size: nat)
    requires 0 < |code| && |code| < TWO64 && Roomy(CodeSegment(code, vmaddr))
    requires Spans(CodeProgram(code, vmaddr).commands, low, size)
    ensures low == vmaddr && |code| <= size < |code| + 0x1000
  {
    hide Roomy;
    var commands := CodeProgram(code, vmaddr).commands;
    assert commands[0] == CodeSegment(code, vmaddr);
    var pages := (|code| + 0xFFF) / 0x1000;
    assert Covers(commands, low, pages * 0x1000);
  }

  lemma NoFixupsInside(file: seq<byte>, code: seq<byte>, vmaddr: u64)
    requires |code| < TWO64 && ProgramAt(file, CodeProgram(code, vmaddr))
    ensures U32(file, 12) == MH_EXECUTE && NoFixups(file, AllOffsets(file))
  {
    hide U32, ProgramAt, CommandWritten, IsFixups, Position, AllOffsets;
    var w := CodeProgram(code, vmaddr);
    CommandsAreVisited(file, w);
    CommandStands(file, w, 0);
    KindIsRead(file, Position(w.commands, 0), w.commands[0]);
  }

  /** Written, then loaded: the image starts with the code, and is padded with zeros to whole pages. */
  lemma CodeRoundTrip(host: Host, code: seq<byte>, vmaddr: u64)
    requires 0 < |code| && 0 < vmaddr && vmaddr + |code| + 0x1000 <= TWO64
    requires Maps(host, CodeFile(code, vmaddr))
    ensures var r := Load(host, CodeFile(code, vmaddr));
      && !r.image.trapped && |code| <= |r.image.mem| < |code| + 0x1000 && r.image.mem[..|code|] == code
      && forall i :: |code| <= i < |r.image.mem| ==> r.image.mem[i] == 0
  {
    hide ProgramAt, GoodProgram, WellLaidOut, Maps, Low, MapSize, SegmentImage, CodeFile, Roomy, At, Load, NoFixups, AllOffsets, U32, Spans;
    var file, w := CodeFile(code, vmaddr), CodeProgram(code, vmaddr);
    CodeIsWritten(code, vmaddr);
    CodeIsGood(code, vmaddr);
    ProgramIsLaidOut(file, w);
    CodeSpan(code, vmaddr, Low(file), MapSize(file));
    ImageSize(file);
    NoFixupsInside(file, code, vmaddr);
    LoadedWithoutFixups(host, file);
    forall i | 0 <= i < |code| ensures SegmentImage(file)[i] == code[i] {
      ProgramBytes(file, w, 0, i);
    }
    forall i | |code| <= i < MapSize(file) ensures SegmentImage(file)[i] == 0 {
      ProgramZeros(file, w, i);
    }
  }
}
