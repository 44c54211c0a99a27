/** When exactly the two-phase reading holds: the destructive walk gives it, whatever words become, if
    and only if no two planned words share a byte. */
module TwoPhase {
  import opened Memory
  import opened ChainFormat
  import opened ChainWalk
  import opened ChainCap

  /** Whatever words become, the walk from this memory is the two-phase result. */
  ghost predicate HoldsForEveryRule(mem: seq<byte>, tally: Tally, starts: seq<nat>) {
    forall rule: Rule ::
      FixedUp(rule, mem, WalkAll(rule, Image(mem, tally, false), starts).mem, Plan(mem, starts))
  }

  // ---------- Words that partly overlap ----------

  const STAIRS: u64 := 0x0706_0504_0302_0100

  lemma StairBytes()
    ensures forall k :: 0 <= k < 8 ==> Enc64(STAIRS)[k] == k
  {
    assert EncLE(0x07, 1) == [7];
    assert EncLE(0x0706, 2) == [6] + EncLE(0x07, 1);
    assert EncLE(0x0706_05, 3) == [5] + EncLE(0x0706, 2);
    assert EncLE(0x0706_0504, 4) == [4] + EncLE(0x0706_05, 3);
    assert EncLE(0x0706_0504_03, 5) == [3] + EncLE(0x0706_0504, 4);
    assert EncLE(0x0706_0504_0302, 6) == [2] + EncLE(0x0706_0504_03, 5);
    assert EncLE(0x0706_0504_0302_01, 7) == [1] + EncLE(0x0706_0504_0302, 6);
    assert EncLE(STAIRS, 8) == [0] + EncLE(0x0706_0504_0302_01, 7);
  }

  lemma HoldsStairs(mem: seq<byte>, off: nat)
    requires off + 8 <= |mem| && U64(mem, off) == STAIRS
    ensures forall i :: off <= i < off + 8 ==> mem[i] == i - off
  {
    hide U64, EncLE;
    var other := Store(mem, off, STAIRS);
    StoreHit(mem, off, STAIRS);
    WordBytes(mem, other, off);
    StairBytes();
    assert other[off..off + 8] == Enc64(STAIRS);
    forall i | off <= i < off + 8 ensures mem[i] == i - off {
      assert At(mem, i) == At(other, i);
      assert other[i] == other[off..off + 8][i - off];
    }
  }

  /** No memory holds the same stairs at two words that partly overlap. */
  lemma OverlapImpossible(mem: seq<byte>, a: nat, b: nat)
    requires a + 8 <= |mem| && b + 8 <= |mem|
    requires U64(mem, a) == STAIRS && U64(mem, b) == STAIRS
    ensures a == b || Apart(a, b)
  {
    hide U64;
    HoldsStairs(mem, a);
    HoldsStairs(mem, b);
    var shared := mem[if a < b then b else a];
  }

  /** If the two-phase result holds for every rule, planned words are equal or apart. */
  lemma PlanIsAligned(mem: seq<byte>, tally: Tally, starts: seq<nat>, i: nat, j: nat)
    requires HoldsForEveryRule(mem, tally, starts)
    requires i < |Plan(mem, starts)| && j < |Plan(mem, starts)|
    ensures var plan := Plan(mem, starts); plan[i].off == plan[j].off || Apart(plan[i].off, plan[j].off)
  {
    hide U64, Plan, WalkAll;
    var rule: Rule := (_: u64) => Rebased(STAIRS);
    var mem' := WalkAll(rule, Image(mem, tally, false), starts).mem;
    var plan := Plan(mem, starts);
    assert FixedUp(rule, mem, mem', plan);
    PlanReads(mem, starts);
    OverlapImpossible(mem', plan[i].off, plan[j].off);
  }

  // ---------- Words that two chains share ----------

  /** The rule keeps the links of all chains. */
  ghost predicate Gentle(rule: Rule) {
    forall x: u64 :: Next(FinalWord(rule, x)) == Next(x)
  }

  lemma MarkRuleIsGentle(r: u64)
    ensures Gentle(MarkRule(r))
  {
    hide Next, Flip;
    FlipsDiffer(r);
  }

  ghost predicate Aligned(offs: set<nat>) {
    forall a, b :: a in offs && b in offs ==> a == b || Apart(a, b)
  }

  ghost predicate SameLinks(m: seq<byte>, m': seq<byte>, offs: set<nat>) {
    |m| == |m'| && forall o :: o in offs ==> Next(U64(m, o)) == Next(U64(m', o))
  }

  function Offs(slots: seq<Slot>): (r: seq<nat>)
    ensures |r| == |slots| && forall k :: 0 <= k < |slots| ==> r[k] == slots[k].off
  {
    seq(|slots|, k requires 0 <= k < |slots| => slots[k].off)
  }

  ghost predicate AllIn(slots: seq<Slot>, offs: set<nat>) {
    forall k :: 0 <= k < |slots| ==> slots[k].off in offs
  }

  lemma GentleVisit(rule: Rule, mem: seq<byte>, s: Image, off: nat, offs: set<nat>)
    requires Gentle(rule) && Aligned(offs) && SameLinks(mem, s.mem, offs)
    requires off in offs && off + 8 <= |s.mem|
    ensures SameLinks(mem, Visit(rule, s, Slot(off, U64(s.mem, off))).mem, offs)
  {
    hide U64, Next;
    var raw := U64(s.mem, off);
    var s' := Visit(rule, s, Slot(off, raw));
    forall o | o in offs ensures Next(U64(mem, o)) == Next(U64(s'.mem, o)) {
      if o == off {
        VisitedWord(rule, s, off);
        assert Next(FinalWord(rule, raw)) == Next(raw);
      } else {
        VisitMisses(rule, s, Slot(off, raw), o);
      }
    }
  }

  lemma VisitedWord(rule: Rule, s: Image, off: nat)
    requires off + 8 <= |s.mem|
    ensures var raw := U64(s.mem, off);
      U64(Visit(rule, s, Slot(off, raw)).mem, off) == FinalWord(rule, raw)
  {
    hide U64;
    match rule(U64(s.mem, off)).Word()
    case None =>
    case Some(v) => StoreHit(s.mem, off, v);
  }

  /** A gentle walk along one chain visits its planned offsets, whatever was marked before. */
  lemma {:induction false} GentleChain(rule: Rule, mem: seq<byte>, s: Image, off: nat, steps: nat, offs: set<nat>)
    requires Gentle(rule) && Aligned(offs) && SameLinks(mem, s.mem, offs) && !s.trapped
    requires ChainInside(mem, off, steps) && AllIn(ChainSlots(mem, off, steps), offs)
    ensures Offs(ChainTrace(rule, s, off, steps)) == Offs(ChainSlots(mem, off, steps))
    ensures !WalkChain(rule, s, off, steps).trapped
    ensures SameLinks(mem, WalkChain(rule, s, off, steps).mem, offs)
    decreases steps
  {
    hide U64, Next, Visit, Gentle, Aligned, ChainSlots;
    ChainUnfold(mem, off, steps);
    if steps != 0 {
      var slots := ChainSlots(mem, off, steps);
      var slot := Slot(off, U64(s.mem, off));
      assert slots[0].off == off && off in offs;
      GentleVisit(rule, mem, s, off, offs);
      var next := Next(slot.raw);
      if next != 0 {
        var rest := ChainSlots(mem, off + 4 * next, steps - 1);
        assert slots[1..] == rest;
        assert forall k :: 0 <= k < |rest| ==> rest[k] == slots[k + 1];
        GentleChain(rule, mem, Visit(rule, s, slot), off + 4 * next, steps - 1, offs);
        OffsCons(slot, ChainTrace(rule, Visit(rule, s, slot), off + 4 * next, steps - 1));
        OffsCons(slots[0], rest);
      }
    }
  }

  lemma OffsCons(slot: Slot, rest: seq<Slot>)
    ensures Offs([slot] + rest) == [slot.off] + Offs(rest)
  {
  }

  lemma OffsAppend(a: seq<Slot>, b: seq<Slot>)
    ensures Offs(a + b) == Offs(a) + Offs(b)
  {
  }

  lemma {:induction false} GentleAll(rule: Rule, mem: seq<byte>, s: Image, starts: seq<nat>, offs: set<nat>)
    requires Gentle(rule) && Aligned(offs) && SameLinks(mem, s.mem, offs) && !s.trapped
    requires forall k :: 0 <= k < |starts| ==> ChainInside(mem, starts[k], MAX_STEPS)
    requires AllIn(Plan(mem, starts), offs)
    ensures Offs(Trace(rule, s, starts)) == Offs(Plan(mem, starts))
    decreases |starts|
  {
    hide U64, Next, Gentle, Aligned, ChainSlots, ChainInside, ChainTrace, WalkChain, SameLinks;
    if starts != [] {
      var c, t := ChainSlots(mem, starts[0], MAX_STEPS), Plan(mem, starts[1..]);
      assert Plan(mem, starts) == c + t;
      assert forall k :: 0 <= k < |c| ==> c[k] == (c + t)[k];
      assert forall k :: 0 <= k < |t| ==> t[k] == (c + t)[|c| + k];
      var s1 := WalkChain(rule, s, starts[0], MAX_STEPS);
      GentleChain(rule, mem, s, starts[0], MAX_STEPS, offs);
      assert forall k :: 0 <= k < |starts[1..]| ==> starts[1..][k] == starts[k + 1];
      GentleAll(rule, mem, s1, starts[1..], offs);
      OffsAppend(c, t);
      OffsAppend(ChainTrace(rule, s, starts[0], MAX_STEPS), Trace(rule, s1, starts[1..]));
    }
  }

  // ---------- How often a word is marked ----------

  function Marked(rule: Rule, w: u64, n: nat): u64
    decreases n
  {
    if n == 0 then w else Marked(rule, FinalWord(rule, w), n - 1)
  }

  lemma MarkedTwice(r: u64, n: nat)
    requires n >= 2
    ensures Marked(MarkRule(r), r, n) == Flip(r, 2)
  {
    hide Flip;
    FlipsDiffer(r);
    var rule := MarkRule(r);
    assert FinalWord(rule, r) == Flip(r, 1) && FinalWord(rule, Flip(r, 1)) == Flip(r, 2);
    assert Marked(rule, r, n) == Marked(rule, Flip(r, 1), n - 1) == Marked(rule, Flip(r, 2), n - 2);
    StaysMarked(r, n - 2);
  }

  lemma {:induction false} StaysMarked(r: u64, n: nat)
    ensures Marked(MarkRule(r), Flip(r, 2), n) == Flip(r, 2)
    decreases n
  {
    hide Flip;
    FlipsDiffer(r);
    if n > 0 {
      StaysMarked(r, n - 1);
    }
  }

  lemma {:induction false} MarkedOn(rule: Rule, w: u64, n: nat, m: nat)
    ensures Marked(rule, Marked(rule, w, n), m) == Marked(rule, w, n + m)
    decreases n
  {
    if n > 0 {
      MarkedOn(rule, FinalWord(rule, w), n - 1, m);
    }
  }

  /** The words visited are `o` or apart from it. */
  ghost predicate AlignedWith(slots: seq<Slot>, o: nat) {
    forall k :: 0 <= k < |slots| ==> slots[k].off == o || Apart(slots[k].off, o)
  }

  /** How often `o` is among the slots. */
  function Visits(slots: seq<Slot>, o: nat): nat
    decreases |slots|
  {
    if slots == [] then 0 else (if slots[0].off == o then 1 else 0) + Visits(slots[1..], o)
  }

  lemma {:induction false} VisitsAppend(a: seq<Slot>, b: seq<Slot>, o: nat)
    ensures Visits(a + b, o) == Visits(a, o) + Visits(b, o)
    decreases |a|
  {
    if a == [] {
      assert a + b == b;
    } else {
      assert (a + b)[1..] == a[1..] + b;
      VisitsAppend(a[1..], b, o);
    }
  }

  lemma VisitsCons(slot: Slot, rest: seq<Slot>, o: nat)
    ensures Visits([slot] + rest, o) == (if slot.off == o then 1 else 0) + Visits(rest, o)
    ensures AlignedWith([slot] + rest, o) ==> (slot.off == o || Apart(slot.off, o)) && AlignedWith(rest, o)
  {
    var slots := [slot] + rest;
    assert slots[1..] == rest && slots[0] == slot;
    assert forall k :: 0 <= k < |rest| ==> rest[k] == slots[k + 1];
  }

  /** A word ends as often marked as it was visited. */
  lemma {:induction false} ChainMarks(rule: Rule, s: Image, off: nat, steps: nat, o: nat)
    requires AlignedWith(ChainTrace(rule, s, off, steps), o)
    ensures U64(WalkChain(rule, s, off, steps).mem, o)
         == Marked(rule, U64(s.mem, o), Visits(ChainTrace(rule, s, off, steps), o))
    decreases steps
  {
    hide U64, Next, Visit, AlignedWith, ChainTrace, WalkChain;
    ChainTraceUnfold(rule, s, off, steps);
    WalkChainStep(rule, s, off, steps);
    if steps != 0 && !s.trapped && off + 8 <= |s.mem| {
      var slot := Slot(off, U64(s.mem, off));
      var s' := Visit(rule, s, slot);
      var next := Next(slot.raw);
      var rest := if next == 0 then [] else ChainTrace(rule, s', off + 4 * next, steps - 1);
      VisitsCons(slot, rest, o);
      if off == o {
        VisitedWord(rule, s, off);
      } else {
        VisitMisses(rule, s, slot, o);
      }
      if next != 0 {
        ChainMarks(rule, s', off + 4 * next, steps - 1, o);
      }
    }
  }

  lemma {:induction false} WalkMarks(rule: Rule, s: Image, starts: seq<nat>, o: nat)
    requires AlignedWith(Trace(rule, s, starts), o)
    ensures U64(WalkAll(rule, s, starts).mem, o)
         == Marked(rule, U64(s.mem, o), Visits(Trace(rule, s, starts), o))
    decreases |starts|
  {
    hide U64, WalkChain, ChainTrace;
    if starts != [] && !s.trapped {
      var c := ChainTrace(rule, s, starts[0], MAX_STEPS);
      var s1 := WalkChain(rule, s, starts[0], MAX_STEPS);
      var t := Trace(rule, s1, starts[1..]);
      assert Trace(rule, s, starts) == c + t;
      assert forall k :: 0 <= k < |c| ==> c[k] == (c + t)[k];
      assert forall k :: 0 <= k < |t| ==> t[k] == (c + t)[|c| + k];
      ChainMarks(rule, s, starts[0], MAX_STEPS, o);
      WalkMarks(rule, s1, starts[1..], o);
      VisitsAppend(c, t, o);
      MarkedOn(rule, U64(s.mem, o), Visits(c, o), Visits(t, o));
    }
  }

  lemma VisitsTwice(slots: seq<Slot>, i: nat, j: nat)
    requires i < j < |slots| && slots[i].off == slots[j].off
    ensures Visits(slots, slots[i].off) >= 2
  {
    var o := slots[i].off;
    assert slots == slots[..j] + slots[j..];
    VisitsAppend(slots[..j], slots[j..], o);
    VisitsOnce(slots[..j], i);
    VisitsOnce(slots[j..], 0);
  }

  lemma {:induction false} VisitsOnce(slots: seq<Slot>, i: nat)
    requires i < |slots|
    ensures Visits(slots, slots[i].off) >= 1
    decreases |slots|
  {
    if i > 0 {
      VisitsOnce(slots[1..], i - 1);
    }
  }

  lemma {:induction false} VisitsByOffsets(a: seq<Slot>, b: seq<Slot>, o: nat)
    requires Offs(a) == Offs(b)
    ensures Visits(a, o) == Visits(b, o)
    decreases |a|
  {
    assert |a| == |Offs(a)| == |b|;
    if a != [] {
      assert a[0].off == Offs(a)[0] == b[0].off;
      assert Offs(a[1..]) == Offs(a)[1..] == Offs(b[1..]);
      VisitsByOffsets(a[1..], b[1..], o);
    }
  }

  /** If two chains share a word, the rule that marks it shows that two phases are not enough. */
  lemma SharedWordBreaks(mem: seq<byte>, tally: Tally, starts: seq<nat>, i: nat, j: nat)
    requires forall k :: 0 <= k < |starts| ==> ChainInside(mem, starts[k], MAX_STEPS)
    requires HoldsForEveryRule(mem, tally, starts)
    requires i < j < |Plan(mem, starts)|
    ensures Plan(mem, starts)[i].off != Plan(mem, starts)[j].off
  {
    hide U64, Plan, WalkAll, Trace, ChainInside, Flip, Next, Gentle;
    var plan := Plan(mem, starts);
    var o := plan[i].off;
    if o == plan[j].off {
      var r := plan[i].raw;
      var rule := MarkRule(r);
      var s := Image(mem, tally, false);
      var trace := Trace(rule, s, starts);
      FlipsDiffer(r);
      assert FixedUp(rule, mem, WalkAll(rule, s, starts).mem, plan);
      assert U64(WalkAll(rule, s, starts).mem, o) == FinalWord(rule, r) == Flip(r, 1);
      var offs: set<nat> := set k | 0 <= k < |plan| :: plan[k].off;
      forall a, b | a in offs && b in offs ensures a == b || Apart(a, b) {
        var ka :| 0 <= ka < |plan| && plan[ka].off == a;
        var kb :| 0 <= kb < |plan| && plan[kb].off == b;
        PlanIsAligned(mem, tally, starts, ka, kb);
      }
      MarkRuleIsGentle(r);
      GentleAll(rule, mem, s, starts, offs);
      TraceAligned(plan, trace, offs, o);
      WalkMarks(rule, s, starts, o);
      VisitsByOffsets(trace, plan, o);
      VisitsTwice(plan, i, j);
      PlanReads(mem, starts);
      MarkedTwice(r, Visits(trace, o));
    }
  }

  lemma TraceAligned(plan: seq<Slot>, trace: seq<Slot>, offs: set<nat>, o: nat)
    requires Offs(trace) == Offs(plan) && AllIn(plan, offs) && Aligned(offs) && o in offs
    ensures AlignedWith(trace, o)
  {
    forall k | 0 <= k < |trace| ensures trace[k].off == o || Apart(trace[k].off, o) {
      assert trace[k].off == Offs(trace)[k] == plan[k].off;
    }
  }

  /** The exact condition: for chains that stay in the image, the destructive walk is the two-phase
      result whatever words become, if and only if no two planned words share a byte. */
  lemma HoldsIffDisjoint(mem: seq<byte>, tally: Tally, starts: seq<nat>)
    requires forall k :: 0 <= k < |starts| ==> ChainInside(mem, starts[k], MAX_STEPS)
    ensures HoldsForEveryRule(mem, tally, starts) <==> DisjointSlots(Plan(mem, starts))
  {
    hide U64, Plan, WalkAll, ChainInside;
    var plan := Plan(mem, starts);
    if DisjointSlots(plan) {
      forall rule: Rule
        ensures FixedUp(rule, mem, WalkAll(rule, Image(mem, tally, false), starts).mem, plan)
      {
        WalkRefinesTwoPhase(rule, Image(mem, tally, false), starts);
      }
    }
    if HoldsForEveryRule(mem, tally, starts) {
      forall i, j | 0 <= i < j < |plan| ensures Apart(plan[i].off, plan[j].off) {
        PlanIsAligned(mem, tally, starts, i, j);
        SharedWordBreaks(mem, tally, starts, i, j);
      }
    }
  }

  /** For one chain the condition is local: no word that has a successor has stride one. */
  lemma HoldsIffNoStrideOne(mem: seq<byte>, tally: Tally, start: nat)
    requires ChainInside(mem, start, MAX_STEPS)
    ensures HoldsForEveryRule(mem, tally, [start]) <==> WideStrides(ChainSlots(mem, start, MAX_STEPS))
  {
    hide U64, WalkAll, ChainInside, ChainSlots, HoldsForEveryRule;
    HoldsIffDisjoint(mem, tally, [start]);
    ChainApartIff(mem, start, MAX_STEPS);
    assert [start][1..] == [];
    assert Plan(mem, []) == [];
    assert Plan(mem, [start]) == ChainSlots(mem, start, MAX_STEPS);
  }
}
