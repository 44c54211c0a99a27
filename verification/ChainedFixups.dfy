/** The LC_DYLD_CHAINED_FIXUPS payload: where the chains start, and what each word becomes. */
module ChainedFixups {
  import opened Memory
  import opened ChainFormat
  import opened ChainWalk
  import opened ChainCap
  import opened LoaderState

  // ---------- The value of one fixup ----------

  /** The import's name, or None if the ordinal is not below imports_count. */
  function ImportName(file: seq<byte>, fixups: nat, ordinal: u32): Option<Name> {
    if ordinal >= U32(file, fixups + 16) then None
    else
      var entry := U32(file, fixups + U32(file, fixups + 8) + 4 * ordinal);
      Some(CString(file, fixups + U32(file, fixups + 12) + entry / 0x200))
  }

  function ImportAddress(host: Host, file: seq<byte>, fixups: nat, ordinal: u32): Option<Address> {
    match ImportName(file, fixups, ordinal)
    case None => None
    case Some(name) => if name in host.resolve then Some(host.resolve[name]) else None
  }

  function FixWord(host: Host, base: u64, file: seq<byte>, fixups: nat, raw: u64): Outcome {
    if !IsBind(raw) then
      Rebased(Wrap64(base + RebaseTarget(raw)))
    else
      match ImportAddress(host, file, fixups, BindOrdinal(raw))
      case None => Unbound
      case Some(address) => Bound(Wrap64(address + BindAddend(raw)))
  }

  function FixRule(host: Host, base: u64, file: seq<byte>, fixups: nat): Rule {
    (raw: u64) => FixWord(host, base, file, fixups, raw)
  }

  /** Against the layouts of the format: a rebase gets its documented value exactly if its top byte
      is zero; a bind gets its import's address plus its addend, the addend taken as signed. */
  lemma FixMeetsFormat(host: Host, base: u64, file: seq<byte>, fixups: nat, p: Pointer)
    requires p.Valid()
    ensures p.Rebase? ==>
      (FixWord(host, base, file, fixups, Pack(p)) == Rebased(DocumentedRebase(base, p)) <==> p.high8 == 0)
    ensures p.Bind? ==>
      FixWord(host, base, file, fixups, Pack(p))
        == match ImportAddress(host, file, fixups, p.ordinal)
           case None => Unbound
           case Some(a) => Bound(Wrap64(a + if p.addend < 0x80 then p.addend else p.addend - 0x100))
  {
    hide Pack, ImportAddress, DocumentedRebase, IsBind, BindOrdinal, BindAddend, RebaseTarget, Wrap64;
    AccessorsMatchLayout(p);
    if p.Rebase? {
      RebaseAgreesWithoutHigh8(base, p);
    } else {
      AddendAgreesBelow128(p);
    }
  }

  // ---------- The chain starts ----------

  /** A page has a chain unless it is marked empty or as having several starts. */
  predicate HasChain(start: u16) {
    start != 0xFFFF && start / 0x8000 % 2 == 0
  }

  /** The offset in the image at which the chain of this page starts. */
  function ChainOffset(file: seq<byte>, seg: nat, page: nat): u64 {
    Wrap64(U64(file, seg + 8) + page * U16(file, seg + 4) + U16(file, seg + 22 + 2 * page))
  }

  /** The chain starts of one segment, from this page on. */
  function SegmentStarts(file: seq<byte>, seg: nat, page: nat): (r: seq<nat>)
    ensures page <= U16(file, seg + 20) ==> |r| <= U16(file, seg + 20) - page
    ensures page >= U16(file, seg + 20) ==> r == []
    decreases U16(file, seg + 20) - page
  {
    if page >= U16(file, seg + 20) then []
    else
      (if HasChain(U16(file, seg + 22 + 2 * page)) then [ChainOffset(file, seg, page) as nat] else [])
      + SegmentStarts(file, seg, page + 1)
  }

  /** The walk enters segment `i`: it has chain info inside the payload, in the one supported
      pointer format, and the segment was recorded and is mapped. */
  predicate HasChains(file: seq<byte>, starts: nat, end: nat, segments: seq<SegmentInfo>, i: nat) {
    var off := U32(file, starts + 4 + 4 * i);
    && off != 0
    && starts + off + 24 <= end
    && U16(file, starts + off + 6) == 6
    && i < |segments|
    && segments[i].mapped != 0
  }

  /** The chain starts of segment `i`. */
  function StartsOf(file: seq<byte>, starts: nat, end: nat, segments: seq<SegmentInfo>, i: nat): seq<nat> {
    if HasChains(file, starts, end, segments, i)
    then SegmentStarts(file, starts + U32(file, starts + 4 + 4 * i), 0) else []
  }

  function ImageStarts(file: seq<byte>, starts: nat, end: nat, segments: seq<SegmentInfo>, i: nat): seq<nat>
    decreases U32(file, starts) - i
  {
    if i >= U32(file, starts) then []
    else StartsOf(file, starts, end, segments, i) + ImageStarts(file, starts, end, segments, i + 1)
  }

  predicate GoodHeader(file: seq<byte>, dataoff: u32, datasize: u32) {
    datasize >= 28 && U32(file, dataoff + 4) + 4 <= datasize
  }

  function FixupStarts(file: seq<byte>, dataoff: u32, datasize: u32, segments: seq<SegmentInfo>): seq<nat> {
    if GoodHeader(file, dataoff, datasize)
    then ImageStarts(file, dataoff + U32(file, dataoff + 4), dataoff + datasize, segments, 0)
    else []
  }

  function ResetCounters(s: Image): Image {
    s.(tally := s.tally.(rebases := 0, binds := 0))
  }

  /** The whole command: two counters are reset, the third is not, and every chain is walked. */
  function ApplyFixups(host: Host, file: seq<byte>, s: Loader, dataoff: u32, datasize: u32): Loader {
    s.(image := WalkAll(FixRule(host, s.imgAddr, file, dataoff), ResetCounters(s.image),
                        FixupStarts(file, dataoff, datasize, s.segments)))
  }

  lemma {:induction false} ImageStartsBound(file: seq<byte>, starts: nat, end: nat, segments: seq<SegmentInfo>, i: nat)
    ensures |ImageStarts(file, starts, end, segments, i)|
         <= if i <= |segments| then (|segments| - i) * 0xFFFF else 0
    decreases U32(file, starts) - i
  {
    if i < U32(file, starts) {
      ImageStartsBound(file, starts, end, segments, i + 1);
    }
  }

  lemma FixupStartsBound(file: seq<byte>, dataoff: u32, datasize: u32, segments: seq<SegmentInfo>)
    requires |segments| <= MAX_SEGMENTS
    ensures |FixupStarts(file, dataoff, datasize, segments)| <= 32 * 0xFFFF
  {
    hide U32, ImageStarts;
    if GoodHeader(file, dataoff, datasize) {
      ImageStartsBound(file, dataoff + U32(file, dataoff + 4), dataoff + datasize, segments, 0);
    }
  }

  /** Fixup accounting for one command, over chains of any shape and whatever words become: rebases
      and binds add up to the visited words, no counter wraps, unresolved words are binds, and
      the unresolved count is not reset. */
  lemma FixupAccounting(rule: Rule, s: Image, file: seq<byte>, dataoff: u32, datasize: u32, segments: seq<SegmentInfo>)
    requires |segments| <= MAX_SEGMENTS
    ensures var reset := ResetCounters(s);
      var starts := FixupStarts(file, dataoff, datasize, segments);
      var trace := Trace(rule, reset, starts);
      var tally := WalkAll(rule, reset, starts).tally;
      && tally.rebases + tally.binds == |trace|
      && tally.rebases == HowMany(rule, trace, Rebases)
      && tally.unresolved == (s.tally.unresolved + HowMany(rule, trace, Unresolved)) % TWO32
      && HowMany(rule, trace, Unresolved) <= tally.binds
  {
    hide Trace, WalkAll, FixupStarts, HowMany;
    var starts := FixupStarts(file, dataoff, datasize, segments);
    FixupStartsBound(file, dataoff, datasize, segments);
    CountersAreExact(rule, ResetCounters(s), starts);
    KindsPartition(rule, Trace(rule, ResetCounters(s), starts));
  }

  /** An unresolved word is a bind whose ordinal is out of range or whose name does not resolve. */
  lemma UnresolvedMeans(host: Host, base: u64, file: seq<byte>, fixups: nat, raw: u64)
    ensures Unresolved.Covers(FixRule(host, base, file, fixups)(raw)) <==>
      IsBind(raw) &&
      (BindOrdinal(raw) >= U32(file, fixups + 16)
       || ImportName(file, fixups, BindOrdinal(raw)).value !in host.resolve)
  {
  }

  /** Only rebased words depend on the base, and they move with it. */
  lemma RulesSlide(host: Host, host': Host, b1: u64, b2: u64, file: seq<byte>, fixups: nat)
    requires host'.resolve == host.resolve
    ensures Slides(FixRule(host, b1, file, fixups), FixRule(host', b2, file, fixups), b1 - b2)
  {
    forall raw: u64
      ensures SlidWord(FixRule(host, b1, file, fixups)(raw), FixRule(host', b2, file, fixups)(raw), b1 - b2)
    {
      WrapDifference(b1, b2, RebaseTarget(raw));
    }
  }

  lemma WrapDifference(a: int, b: int, t: int)
    ensures Wrap64(a + t) == Wrap64(Wrap64(b + t) + (a - b))
  {
    var q := (b + t) / 0x1_0000_0000_0000_0000;
    assert Wrap64(b + t) + (a - b) == a + t - q * 0x1_0000_0000_0000_0000;
    WrapMultiple(a + t, -q);
  }

  lemma WrapMultiple(x: int, q: int)
    ensures Wrap64(x + q * 0x1_0000_0000_0000_0000) == Wrap64(x)
  {
    Divides(x + q * 0x1_0000_0000_0000_0000, 0x1_0000_0000_0000_0000,
            x / 0x1_0000_0000_0000_0000 + q, x % 0x1_0000_0000_0000_0000);
  }

  // ---------- Pages keep chains apart ----------

  /** The first offset of page `page` of a segment. */
  function PageBase(file: seq<byte>, seg: nat, page: nat): nat {
    U64(file, seg + 8) + page * U16(file, seg + 4)
  }

  /** The chain of this page, if it has one, keeps to the format: it starts, no word with a
      successor has stride one, it stays inside the page, and it ends or is cut by the cap. */
  ghost predicate ChainOnPage(file: seq<byte>, seg: nat, mem: seq<byte>, page: nat) {
    HasChain(U16(file, seg + 22 + 2 * page)) ==>
      var slots := ChainSlots(mem, ChainOffset(file, seg, page), MAX_STEPS);
      && WideStrides(slots) && Within(slots, PageBase(file, seg, page), PageBase(file, seg, page + 1))
      && Ends(slots, MAX_STEPS)
  }

  ghost predicate Ends(slots: seq<Slot>, steps: nat) {
    |slots| == steps || (slots != [] && Next(slots[|slots| - 1].raw) == 0)
  }

  ghost predicate GoodPages(file: seq<byte>, seg: nat, mem: seq<byte>) {
    forall page :: 0 <= page < U16(file, seg + 20) ==> ChainOnPage(file, seg, mem, page)
  }

  /** A chain that ends, or is cut, has not left the image. */
  lemma {:induction false} EndsInside(mem: seq<byte>, off: nat, steps: nat)
    requires Ends(ChainSlots(mem, off, steps), steps)
    ensures ChainInside(mem, off, steps)
    decreases steps
  {
    hide U64, Next, ChainSlots;
    ChainUnfold(mem, off, steps);
    if steps != 0 && off + 8 <= |mem| && Next(U64(mem, off)) != 0 {
      var rest := ChainSlots(mem, off + 4 * Next(U64(mem, off)), steps - 1);
      var slots := [Slot(off, U64(mem, off))] + rest;
      assert rest != [] ==> slots[|slots| - 1] == rest[|rest| - 1];
      EndsInside(mem, off + 4 * Next(U64(mem, off)), steps - 1);
    }
  }

  lemma MulAscends(p: nat, q: nat, size: nat)
    requires p <= q
    ensures p * size <= q * size
  {
    assert q * size == p * size + (q - p) * size;
  }

  lemma PagesAscend(file: seq<byte>, seg: nat, p: nat, q: nat)
    requires p <= q
    ensures PageBase(file, seg, p) <= PageBase(file, seg, q)
  {
    hide U16, U64;
    MulAscends(p, q, U16(file, seg + 4));
  }

  /** What one page adds to the plan of its segment. */
  lemma PlanOfPage(file: seq<byte>, seg: nat, mem: seq<byte>, page: nat)
    requires page < U16(file, seg + 20)
    ensures var rest := SegmentStarts(file, seg, page + 1);
      Plan(mem, SegmentStarts(file, seg, page))
        == (if HasChain(U16(file, seg + 22 + 2 * page))
            then ChainSlots(mem, ChainOffset(file, seg, page), MAX_STEPS) else []) + Plan(mem, rest)
  {
    hide U16, HasChain, ChainOffset, ChainSlots;
    var rest := SegmentStarts(file, seg, page + 1);
    if HasChain(U16(file, seg + 22 + 2 * page)) {
      var start: nat := ChainOffset(file, seg, page);
      assert SegmentStarts(file, seg, page) == [start] + rest;
      assert ([start] + rest)[1..] == rest;
    } else {
      assert SegmentStarts(file, seg, page) == rest;
    }
  }

  /** Everything planned from page `page` on lies from there to the end of the segment's pages, and
      no two planned words overlap. */
  lemma {:induction false} PagesMakeDisjoint(file: seq<byte>, seg: nat, mem: seq<byte>, page: nat)
    requires page <= U16(file, seg + 20) && GoodPages(file, seg, mem)
    ensures var plan := Plan(mem, SegmentStarts(file, seg, page));
      && DisjointSlots(plan)
      && Within(plan, PageBase(file, seg, page), PageBase(file, seg, U16(file, seg + 20)))
    decreases U16(file, seg + 20) - page
  {
    hide U16, U64, HasChain, ChainOffset, PageBase, ChainSlots, WideStrides, Plan, Next;
    var count := U16(file, seg + 20);
    if page == count {
      NothingPlanned(file, seg, mem);
    } else {
      assert ChainOnPage(file, seg, mem, page);
      PagesAscend(file, seg, page, page + 1);
      PagesAscend(file, seg, page + 1, count);
      PlanOfPage(file, seg, mem, page);
      PagesMakeDisjoint(file, seg, mem, page + 1);
      if HasChain(U16(file, seg + 22 + 2 * page)) {
        StridesAddUp(mem, ChainOffset(file, seg, page), MAX_STEPS);
      }
    }
  }

  lemma NothingPlanned(file: seq<byte>, seg: nat, mem: seq<byte>)
    ensures Plan(mem, SegmentStarts(file, seg, U16(file, seg + 20))) == []
  {
    hide U16;
  }

  lemma {:induction false} PagesStayInside(file: seq<byte>, seg: nat, mem: seq<byte>, page: nat, k: nat)
    requires page <= U16(file, seg + 20) && GoodPages(file, seg, mem)
    requires k < |SegmentStarts(file, seg, page)|
    ensures ChainInside(mem, SegmentStarts(file, seg, page)[k], MAX_STEPS)
    decreases U16(file, seg + 20) - page
  {
    hide U16, U64, HasChain, ChainOffset, PageBase, ChainSlots, WideStrides, Next, ChainInside;
    assert ChainOnPage(file, seg, mem, page);
    if !HasChain(U16(file, seg + 22 + 2 * page)) {
      assert SegmentStarts(file, seg, page) == SegmentStarts(file, seg, page + 1);
      PagesStayInside(file, seg, mem, page + 1, k);
    } else if k > 0 {
      PagesStayInside(file, seg, mem, page + 1, k - 1);
    } else {
      EndsInside(mem, ChainOffset(file, seg, page), MAX_STEPS);
    }
  }

  // ---------- A whole image ----------

  /** The chain info of segment `i`. */
  function ChainInfo(file: seq<byte>, starts: nat, i: nat): nat {
    starts + U32(file, starts + 4 + 4 * i)
  }

  /** The pages of two segments do not meet. */
  predicate PagesApart(file: seq<byte>, a: nat, b: nat) {
    PageBase(file, a, U16(file, a + 20)) <= PageBase(file, b, 0)
    || PageBase(file, b, U16(file, b + 20)) <= PageBase(file, a, 0)
  }

  /** The payload keeps to the format: every page of every walked segment does, and the pages of
      different segments do not meet. */
  ghost predicate GoodPayload(file: seq<byte>, starts: nat, end: nat, segments: seq<SegmentInfo>, mem: seq<byte>) {
    && (forall i :: 0 <= i < U32(file, starts) && HasChains(file, starts, end, segments, i) ==>
          GoodPages(file, ChainInfo(file, starts, i), mem))
    && (forall i, j | 0 <= i < j < U32(file, starts) && HasChains(file, starts, end, segments, i) && HasChains(file, starts, end, segments, j) ::
          PagesApart(file, ChainInfo(file, starts, i), ChainInfo(file, starts, j)))
  }

  /** Each planned word lies in the pages of one of the segments from `i` on. */
  lemma {:induction false} PlannedInPages(file: seq<byte>, starts: nat, end: nat, segments: seq<SegmentInfo>, mem: seq<byte>, i: nat, k: nat)
    returns (j: nat)
    requires GoodPayload(file, starts, end, segments, mem)
    requires k < |Plan(mem, ImageStarts(file, starts, end, segments, i))|
    ensures i <= j < U32(file, starts) && HasChains(file, starts, end, segments, j)
    ensures var off := Plan(mem, ImageStarts(file, starts, end, segments, i))[k].off;
      var seg := ChainInfo(file, starts, j);
      PageBase(file, seg, 0) <= off && off + 8 <= PageBase(file, seg, U16(file, seg + 20))
    decreases U32(file, starts) - i
  {
    hide U16, U32, U64, PageBase, SegmentStarts, GoodPages, PagesApart, ChainSlots, HasChains;
    if i < U32(file, starts) {
      var here := StartsOf(file, starts, end, segments, i);
      var rest := ImageStarts(file, starts, end, segments, i + 1);
      PlanAppend(mem, here, rest);
      if k >= |Plan(mem, here)| {
        j := PlannedInPages(file, starts, end, segments, mem, i + 1, k - |Plan(mem, here)|);
      } else {
        j := i;
        PagesMakeDisjoint(file, ChainInfo(file, starts, i), mem, 0);
      }
    }
  }

  /** A payload that keeps to the format makes well-formed chains. */
  lemma {:induction false} PayloadMakesWellFormed(file: seq<byte>, starts: nat, end: nat, segments: seq<SegmentInfo>, mem: seq<byte>, i: nat)
    requires GoodPayload(file, starts, end, segments, mem)
    ensures WellFormed(mem, ImageStarts(file, starts, end, segments, i))
    decreases U32(file, starts) - i
  {
    hide U16, U32, U64, PageBase, SegmentStarts, GoodPages, ChainSlots, ChainInside, HasChains, Plan;
    if i >= U32(file, starts) {
      assert Plan(mem, []) == [] by { NoPlan(mem); }
    } else {
      var here := StartsOf(file, starts, end, segments, i);
      var rest := ImageStarts(file, starts, end, segments, i + 1);
      PayloadMakesWellFormed(file, starts, end, segments, mem, i + 1);
      PlanAppend(mem, here, rest);
      if !HasChains(file, starts, end, segments, i) {
        assert here == [] && here + rest == rest;
      } else {
        var seg := ChainInfo(file, starts, i);
        PagesMakeDisjoint(file, seg, mem, 0);
        forall k | 0 <= k < |here| ensures ChainInside(mem, here[k], MAX_STEPS) {
          PagesStayInside(file, seg, mem, 0, k);
        }
        var p, t := Plan(mem, here), Plan(mem, rest);
        forall a, b | 0 <= a < |p| && 0 <= b < |t| ensures Apart(p[a].off, t[b].off) {
          var j := PlannedInPages(file, starts, end, segments, mem, i + 1, b);
          assert PagesApart(file, ChainInfo(file, starts, i), ChainInfo(file, starts, j));
        }
      }
    }
  }

  lemma NoPlan(mem: seq<byte>)
    ensures Plan(mem, []) == []
  {
  }
}
