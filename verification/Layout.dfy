/** Image layout: the scan that sizes the image, the copy of each segment's file bytes, and the
    table of recorded segments. */
module Layout {
  import opened Memory
  import opened LoaderState

  const HEADER_SIZE: nat := 32
  const PAGE: nat := 0x1000
  const MAX64: u64 := 0xFFFF_FFFF_FFFF_FFFF
  const PAGEZERO: Name := Ascii("__PAGEZERO")
  const TEXT: Name := Ascii("__TEXT")

  // ---------- Load commands and segment_command_64 ----------

  function CommandCount(file: seq<byte>): u32 {
    U32(file, 16)
  }

  function Command(file: seq<byte>, p: nat): u32 {
    U32(file, p)
  }

  function CommandSize(file: seq<byte>, p: nat): u32 {
    U32(file, p + 4)
  }

  predicate IsSegment(file: seq<byte>, p: nat) {
    Command(file, p) == 0x19
  }

  function SegName(file: seq<byte>, p: nat): Name {
    CString(file, p + 8)
  }

  function VmAddr(file: seq<byte>, p: nat): u64 {
    U64(file, p + 24)
  }

  function VmSize(file: seq<byte>, p: nat): u64 {
    U64(file, p + 32)
  }

  function FileOff(file: seq<byte>, p: nat): u64 {
    U64(file, p + 40)
  }

  function FileSize(file: seq<byte>, p: nat): u64 {
    U64(file, p + 48)
  }

  function SectionCount(file: seq<byte>, p: nat): u32 {
    U32(file, p + 64)
  }

  // ---------- The scan over all commands ----------

  /** The offsets of `n` commands, each reached by adding the size of the one before. */
  function SizedOffsets(file: seq<byte>, p: nat, n: nat): (r: seq<nat>)
    ensures |r| == n
    decreases n, p
  {
    if n == 0 then [] else [p] + SizedOffsets(file, p + CommandSize(file, p), n - 1)
  }

  /** A segment that takes up room in the image. */
  predicate TakesRoom(file: seq<byte>, p: nat) {
    IsSegment(file, p) && SegName(file, p) != PAGEZERO && VmSize(file, p) != 0
  }

  function Lower(file: seq<byte>, p: nat, lo: u64): u64 {
    if TakesRoom(file, p) && VmAddr(file, p) < lo then VmAddr(file, p) else lo
  }

  function Upper(file: seq<byte>, p: nat, hi: u64): u64 {
    var end := Wrap64(VmAddr(file, p) + VmSize(file, p));
    if TakesRoom(file, p) && end > hi then end else hi
  }

  /** The lowest and highest address of the segments at these offsets, starting from `lo` and `hi`. */
  function Extent(file: seq<byte>, offsets: seq<nat>, lo: u64, hi: u64): (u64, u64)
    decreases |offsets|
  {
    if offsets == [] then (lo, hi)
    else Extent(file, offsets[1..], Lower(file, offsets[0], lo), Upper(file, offsets[0], hi))
  }

  function ImageExtent(file: seq<byte>): (u64, u64) {
    Extent(file, SizedOffsets(file, HEADER_SIZE, CommandCount(file)), MAX64, 0)
  }

  /** alignMemory for the page size: add all but one, then clear the low bits. */
  function AlignToPage(x: u64): u64 {
    Wrap64(x + PAGE - 1) - Wrap64(x + PAGE - 1) % PAGE
  }

  function Zeros(n: nat): (r: seq<byte>)
    ensures |r| == n && forall i :: 0 <= i < n ==> r[i] == 0
  {
    seq(n, _ => 0)
  }

  /** The image is mapped on the first call that finds room and gets memory. */
  function EnsureMapping(host: Host, file: seq<byte>, s: Loader): Loader {
    var (lo, hi) := ImageExtent(file);
    if s.imgAddr != 0 || lo == MAX64 || hi <= lo || AlignToPage(hi - lo) == 0 || host.mmapBase == 0 then s
    else s.(imgAddr := host.mmapBase, vAddr := lo,
            image := s.image.(mem := Zeros(AlignToPage(hi - lo))))
  }

  // ---------- Loading one segment ----------

  function Slice(file: seq<byte>, p: nat, n: nat): (r: seq<byte>)
    ensures |r| == n && forall i :: 0 <= i < n ==> r[i] == At(file, p + i)
  {
    seq<byte>(n, i requires 0 <= i < n => At(file, p + i))
  }

  /** `mem` with `bytes` copied over it at `off`; nothing happens if they do not fit. */
  function Overlay(mem: seq<byte>, off: nat, bytes: seq<byte>): (r: seq<byte>)
    ensures |r| == |mem|
    ensures forall i :: 0 <= i < |mem| ==>
      r[i] == if off + |bytes| <= |mem| && off <= i < off + |bytes| then bytes[i - off] else mem[i]
  {
    if off + |bytes| <= |mem| then mem[..off] + bytes + mem[off + |bytes|..] else mem
  }

  /** The segment has file bytes to copy. */
  predicate HasBytes(file: seq<byte>, p: nat) {
    IsSegment(file, p) && SegName(file, p) != PAGEZERO && FileSize(file, p) != 0
  }

  function CopySegment(file: seq<byte>, s: Loader, p: nat): Loader
  {
    if SegName(file, p) == PAGEZERO || FileSize(file, p) == 0 || s.imgAddr == 0 || s.vAddr == 0 then s
    else
      var delta := Wrap64(VmAddr(file, p) - s.vAddr);
      if delta + FileSize(file, p) > |s.image.mem| then s.(image := s.image.(trapped := true))
      else s.(image := s.image.(mem :=
                Overlay(s.image.mem, delta, Slice(file, FileOff(file, p), FileSize(file, p)))))
  }

  function MappedAddress(file: seq<byte>, p: nat, imgAddr: u64, vAddr: u64): u64 {
    if SegName(file, p) == PAGEZERO then 0
    else if SegName(file, p) == TEXT then imgAddr
    else if imgAddr != 0 && vAddr != 0 then Wrap64(imgAddr + (VmAddr(file, p) - vAddr))
    else 0
  }

  function InfoOf(file: seq<byte>, p: nat, imgAddr: u64, vAddr: u64): SegmentInfo {
    SegmentInfo(Slice(file, p + 8, 16), VmAddr(file, p), VmSize(file, p), MappedAddress(file, p, imgAddr, vAddr))
  }

  /** The table is full at 32 segments; later ones are copied but not recorded. */
  function Record(segments: seq<SegmentInfo>, info: SegmentInfo): seq<SegmentInfo> {
    if |segments| < MAX_SEGMENTS then segments + [info] else segments
  }

  function LoadSegment(host: Host, file: seq<byte>, s: Loader, p: nat): Loader {
    var s' := CopySegment(file, EnsureMapping(host, file, s), p);
    s'.(segments := Record(s'.segments, InfoOf(file, p, s'.imgAddr, s'.vAddr)))
  }

  // ---------- Where the segments are ----------

  /** What a linker guarantees of a segment that is not __PAGEZERO: its end is an address, and it
      has no more bytes in the file than in memory. */
  predicate GoodSegment(file: seq<byte>, p: nat) {
    IsSegment(file, p) && SegName(file, p) != PAGEZERO ==>
      VmAddr(file, p) + VmSize(file, p) < TWO64 && FileSize(file, p) <= VmSize(file, p)
  }

  ghost predicate AllGood(file: seq<byte>, offsets: seq<nat>) {
    forall k :: 0 <= k < |offsets| ==> GoodSegment(file, offsets[k])
  }

  function SegmentEnd(file: seq<byte>, p: nat): nat {
    VmAddr(file, p) + VmSize(file, p)
  }

  /** The scan bounds every segment, and each bound that moved is met by one of them. */
  lemma {:induction false} ExtentBounds(file: seq<byte>, offsets: seq<nat>, lo: u64, hi: u64)
    requires AllGood(file, offsets)
    ensures var (lo', hi') := Extent(file, offsets, lo, hi);
      && lo' <= lo && hi <= hi'
      && (forall k :: 0 <= k < |offsets| && TakesRoom(file, offsets[k]) ==>
            lo' <= VmAddr(file, offsets[k]) && VmAddr(file, offsets[k]) + VmSize(file, offsets[k]) <= hi')
      && (lo' == lo || exists k :: 0 <= k < |offsets| && TakesRoom(file, offsets[k]) && lo' == VmAddr(file, offsets[k]))
      && (hi' == hi || exists k :: 0 <= k < |offsets| && TakesRoom(file, offsets[k]) && hi' == SegmentEnd(file, offsets[k]))
    decreases |offsets|
  {
    hide U64, SegName;
    if offsets != [] {
      var rest := offsets[1..];
      var lo1, hi1 := Lower(file, offsets[0], lo), Upper(file, offsets[0], hi);
      assert forall k :: 0 <= k < |rest| ==> rest[k] == offsets[k + 1];
      ExtentBounds(file, rest, lo1, hi1);
      assert GoodSegment(file, offsets[0]);
      var (lo', hi') := Extent(file, rest, lo1, hi1);
      forall k | 0 <= k < |offsets| && TakesRoom(file, offsets[k])
        ensures lo' <= VmAddr(file, offsets[k]) && VmAddr(file, offsets[k]) + VmSize(file, offsets[k]) <= hi'
      {
        if k > 0 {
          assert offsets[k] == rest[k - 1];
        }
      }
      if lo' != lo {
        if lo' == lo1 {
          assert lo' == VmAddr(file, offsets[0]);
        } else {
          var k :| 0 <= k < |rest| && TakesRoom(file, rest[k]) && lo' == VmAddr(file, rest[k]);
          assert offsets[k + 1] == rest[k];
        }
      }
      if hi' != hi {
        if hi' == hi1 {
          assert hi' == SegmentEnd(file, offsets[0]);
        } else {
          var k :| 0 <= k < |rest| && TakesRoom(file, rest[k]) && hi' == SegmentEnd(file, rest[k]);
          assert offsets[k + 1] == rest[k];
        }
      }
    }
  }

  /** The size of the mapping is the least multiple of the page size that covers the extent. */
  lemma AlignIsLeast(x: u64)
    requires x + 0x1000 <= TWO64
    ensures AlignToPage(x) % 0x1000 == 0 && x <= AlignToPage(x)
    ensures forall m: nat :: m % 0x1000 == 0 && x <= m ==> AlignToPage(x) <= m
  {
  }

  ghost predicate DisjointSegments(file: seq<byte>, offsets: seq<nat>) {
    forall i, j :: 0 <= i < j < |offsets| && TakesRoom(file, offsets[i]) && TakesRoom(file, offsets[j]) ==>
      SegmentsApart(file, offsets[i], offsets[j])
  }

  predicate SegmentsApart(file: seq<byte>, p: nat, q: nat) {
    VmAddr(file, p) + VmSize(file, p) <= VmAddr(file, q)
    || VmAddr(file, q) + VmSize(file, q) <= VmAddr(file, p)
  }

  /** Every segment lies between `lo` and `lo + size`. */
  ghost predicate AllInside(file: seq<byte>, offsets: seq<nat>, lo: u64, size: nat) {
    forall k :: 0 <= k < |offsets| && TakesRoom(file, offsets[k]) ==> Inside(file, offsets[k], lo, size)
  }

  predicate Inside(file: seq<byte>, p: nat, lo: u64, size: nat) {
    lo <= VmAddr(file, p) && VmAddr(file, p) + VmSize(file, p) <= lo + size
  }

  // ---------- The image that the segments make ----------

  /** A zeroed image with the file bytes of each segment copied in, in command order. */
  function LayoutBytes(file: seq<byte>, lo: u64, size: nat, offsets: seq<nat>): (r: seq<byte>)
    ensures |r| == size
    decreases |offsets|
  {
    if offsets == [] then Zeros(size)
    else
      var p := offsets[|offsets| - 1];
      var before := LayoutBytes(file, lo, size, offsets[..|offsets| - 1]);
      if HasBytes(file, p)
      then Overlay(before, Wrap64(VmAddr(file, p) - lo), Slice(file, FileOff(file, p), FileSize(file, p)))
      else before
  }

  /** The image offset `i` belongs to the segment at `p`. */
  predicate Owns(file: seq<byte>, p: nat, lo: u64, i: int) {
    TakesRoom(file, p) && VmAddr(file, p) - lo <= i < VmAddr(file, p) - lo + VmSize(file, p)
  }

  /** One copy: it changes only bytes that the segment owns. */
  lemma CopyStaysInside(file: seq<byte>, lo: u64, size: nat, offsets: seq<nat>, i: nat)
    requires offsets != [] && i < size
    requires var p := offsets[|offsets| - 1]; GoodSegment(file, p) && (TakesRoom(file, p) ==> Inside(file, p, lo, size))
    ensures var p := offsets[|offsets| - 1];
      var before := LayoutBytes(file, lo, size, offsets[..|offsets| - 1]);
      var after := LayoutBytes(file, lo, size, offsets);
      && (!Owns(file, p, lo, i) ==> after[i] == before[i])
      && (Owns(file, p, lo, i) ==>
            var k := i - (VmAddr(file, p) - lo);
            after[i] == if k < FileSize(file, p) then At(file, FileOff(file, p) + k) else before[i])
  {
    hide VmAddr, VmSize, FileSize, FileOff, SegName, IsSegment, At, Wrap64, Slice, Overlay;
    var p := offsets[|offsets| - 1];
    if HasBytes(file, p) {
      SmallOffset(VmAddr(file, p), lo);
      CopiedByte(file, LayoutBytes(file, lo, size, offsets[..|offsets| - 1]),
                 VmAddr(file, p) - lo, FileOff(file, p), FileSize(file, p), i);
    }
  }

  lemma CopiedByte(file: seq<byte>, mem: seq<byte>, dest: nat, src: nat, n: nat, i: nat)
    requires dest + n <= |mem| && i < |mem|
    ensures Overlay(mem, dest, Slice(file, src, n))[i]
         == if dest <= i < dest + n then At(file, src + (i - dest)) else mem[i]
  {
  }

  lemma SmallOffset(a: u64, b: u64)
    requires b <= a
    ensures Wrap64(a - b) == a - b
  {
  }

  /** Bytes outside every segment stay zero. */
  lemma {:induction false} LayoutOutside(file: seq<byte>, lo: u64, size: nat, offsets: seq<nat>, i: nat)
    requires AllGood(file, offsets) && AllInside(file, offsets, lo, size) && i < size
    requires forall k :: 0 <= k < |offsets| ==> !Owns(file, offsets[k], lo, i)
    ensures LayoutBytes(file, lo, size, offsets)[i] == 0
    decreases |offsets|
  {
    hide GoodSegment, TakesRoom, Inside, Owns;
    if offsets != [] {
      CopyStaysInside(file, lo, size, offsets, i);
      LayoutOutside(file, lo, size, offsets[..|offsets| - 1], i);
    }
  }

  /** Segment copy: each segment holds its own file bytes, then zeros; no later copy disturbs an
      earlier one. */
  lemma {:induction false} LayoutHolds(file: seq<byte>, lo: u64, size: nat, offsets: seq<nat>, k: nat, i: nat)
    requires AllGood(file, offsets) && AllInside(file, offsets, lo, size) && DisjointSegments(file, offsets)
    requires k < |offsets| && i < size && Owns(file, offsets[k], lo, i)
    ensures var j := i - (VmAddr(file, offsets[k]) - lo);
      LayoutBytes(file, lo, size, offsets)[i]
        == if j < FileSize(file, offsets[k]) then At(file, FileOff(file, offsets[k]) + j) else 0
    decreases |offsets|
  {
    hide GoodSegment, TakesRoom, Inside, Owns, SegmentsApart, LayoutBytes, VmAddr, FileSize, FileOff, At;
    var last := |offsets| - 1;
    var before := offsets[..last];
    CopyStaysInside(file, lo, size, offsets, i);
    forall j | 0 <= j < |offsets| && j != k ensures !Owns(file, offsets[j], lo, i) {
      OwnersOverlap(file, offsets[j], offsets[k], lo, i);
    }
    if k < last {
      LayoutHolds(file, lo, size, before, k, i);
    } else {
      LayoutOutside(file, lo, size, before, i);
    }
  }

  lemma OwnersOverlap(file: seq<byte>, p: nat, q: nat, lo: u64, i: nat)
    requires Owns(file, q, lo, i)
    ensures Owns(file, p, lo, i) ==>
      TakesRoom(file, p) && TakesRoom(file, q) && !SegmentsApart(file, p, q) && !SegmentsApart(file, q, p)
  {
  }

  // ---------- The recorded segments ----------

  function Recorded(file: seq<byte>, imgAddr: u64, vAddr: u64, offsets: seq<nat>): (r: seq<SegmentInfo>)
    ensures |r| <= MAX_SEGMENTS
    decreases |offsets|
  {
    if offsets == [] then []
    else
      var p := offsets[|offsets| - 1];
      var before := Recorded(file, imgAddr, vAddr, offsets[..|offsets| - 1]);
      if IsSegment(file, p) then Record(before, InfoOf(file, p, imgAddr, vAddr)) else before
  }

  /** The segment commands among these, in order. */
  function SegmentCommands(file: seq<byte>, offsets: seq<nat>): (r: seq<nat>)
    ensures forall n :: 0 <= n < |r| ==> r[n] in offsets && IsSegment(file, r[n])
    ensures forall p :: p in offsets && IsSegment(file, p) ==> p in r
    decreases |offsets|
  {
    if offsets == [] then []
    else
      var p := offsets[|offsets| - 1];
      var before := SegmentCommands(file, offsets[..|offsets| - 1]);
      assert offsets == offsets[..|offsets| - 1] + [p];
      if IsSegment(file, p) then before + [p] else before
  }

  /** The table has the first 32 segment commands, each at its own index. */
  lemma {:induction false} RecordedInOrder(file: seq<byte>, imgAddr: u64, vAddr: u64, offsets: seq<nat>)
    ensures var commands := SegmentCommands(file, offsets);
      var table := Recorded(file, imgAddr, vAddr, offsets);
      && |table| == (if |commands| <= MAX_SEGMENTS then |commands| else MAX_SEGMENTS)
      && forall n :: 0 <= n < |table| ==> table[n] == InfoOf(file, commands[n], imgAddr, vAddr)
    decreases |offsets|
  {
    hide InfoOf, IsSegment;
    if offsets != [] {
      RecordedInOrder(file, imgAddr, vAddr, offsets[..|offsets| - 1]);
    }
  }

  /** A segment inside the mapping is recorded inside the image, where its bytes are: its address
      slides by the distance between the mapping and the lowest segment. For __TEXT the latter holds
      exactly if it is the lowest segment, because it is recorded at the start of the mapping. */
  lemma MappedAtItsBytes(file: seq<byte>, p: nat, imgAddr: u64, lo: u64, size: nat)
    requires TakesRoom(file, p) && Inside(file, p, lo, size)
    requires 0 < imgAddr && 0 < lo && imgAddr + size <= TWO64
    ensures var mapped := InfoOf(file, p, imgAddr, lo).mapped;
      && (mapped == imgAddr + (VmAddr(file, p) - lo) <==> SegName(file, p) != TEXT || VmAddr(file, p) == lo)
      && imgAddr <= mapped && mapped + VmSize(file, p) <= imgAddr + size
  {
    hide U64, CString;
  }
}
