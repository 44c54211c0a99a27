/** The chained-fixup walk: linked lists threaded through the very words it overwrites.

    `WalkAll` is what the loader does to memory, step by step. `Plan` is the simple reading: all
    chains taken from the initial memory, before any of them is touched. The main theorem is that
    the destructive walk gives exactly the image in which every planned word holds its own fixup. */
module ChainWalk {
  import opened Memory
  import opened ChainFormat

  /** The image memory with the fixup counters. `trapped` records that the program would have
      touched memory outside the image, which is undefined; the model stops there. */
  datatype Image = Image(mem: seq<byte>, tally: Tally, trapped: bool)

  /** The three counters of the loader context. */
  datatype Tally = Tally(rebases: u32, binds: u32, unresolved: u32)
  {
    function Count(o: Outcome): Tally {
      match o
      case Rebased(_) => this.(rebases := Inc32(rebases))
      case Bound(_) => this.(binds := Inc32(binds))
      case Unbound => this.(binds := Inc32(binds), unresolved := Inc32(unresolved))
    }

    /** The counters after this many more of each kind. */
    function Add(r: nat, b: nat, u: nat): Tally {
      Tally((rebases + r) % 0x1_0000_0000, (binds + b) % 0x1_0000_0000, (unresolved + u) % 0x1_0000_0000)
    }
  }

  /** What becomes of one word: a rebased or bound value, or a bind without a target. */
  datatype Outcome = Rebased(word: u64) | Bound(word: u64) | Unbound
  {
    function Word(): Option<u64> {
      if Unbound? then None else Some(word)
    }
  }

  /** How raw words are turned into pointers. */
  type Rule = u64 -> Outcome

  /** One visited word: its offset in the image, and what it held when it was read. */
  datatype Slot = Slot(off: nat, raw: u64)

  const MAX_STEPS: nat := 512

  // ---------- The destructive walk ----------

  /** The word of `slot` is fixed up and counted. */
  function Visit(rule: Rule, s: Image, slot: Slot): (r: Image)
    ensures |r.mem| == |s.mem| && r.trapped == s.trapped
  {
    var o := rule(slot.raw);
    s.(mem := ApplyPatch(s.mem, Patch(slot.off, o.Word())), tally := s.tally.Count(o))
  }

  function WalkChain(rule: Rule, s: Image, off: nat, steps: nat): (r: Image)
    ensures |r.mem| == |s.mem|
    decreases steps, off
  {
    if steps == 0 || s.trapped then s
    else if off + 8 > |s.mem| then s.(trapped := true)
    else
      var raw := U64(s.mem, off);
      var s' := Visit(rule, s, Slot(off, raw));
      if Next(raw) == 0 then s' else WalkChain(rule, s', off + 4 * Next(raw), steps - 1)
  }

  /** One step of the walk. */
  lemma WalkChainStep(rule: Rule, s: Image, off: nat, steps: nat)
    ensures steps > 0 && !s.trapped && off + 8 > |s.mem| ==>
      WalkChain(rule, s, off, steps) == s.(trapped := true)
    ensures steps > 0 && !s.trapped && off + 8 <= |s.mem| ==>
      var raw := U64(s.mem, off); var s' := Visit(rule, s, Slot(off, raw));
      WalkChain(rule, s, off, steps)
        == if Next(raw) == 0 then s' else WalkChain(rule, s', off + 4 * Next(raw), steps - 1)
    ensures steps == 0 || s.trapped ==> WalkChain(rule, s, off, steps) == s
  {
    hide U64, Next, Visit;
  }

  function WalkAll(rule: Rule, s: Image, starts: seq<nat>): (r: Image)
    ensures |r.mem| == |s.mem|
    decreases |starts|
  {
    if starts == [] || s.trapped then s
    else WalkAll(rule, WalkChain(rule, s, starts[0], MAX_STEPS), starts[1..])
  }

  lemma {:induction false} WalkAllAppend(rule: Rule, s: Image, a: seq<nat>, b: seq<nat>)
    ensures WalkAll(rule, s, a + b) == WalkAll(rule, WalkAll(rule, s, a), b)
    decreases |a|
  {
    if a == [] {
      assert a + b == b;
    } else if !s.trapped {
      assert (a + b)[1..] == a[1..] + b;
      WalkAllAppend(rule, WalkChain(rule, s, a[0], MAX_STEPS), a[1..], b);
    }
  }

  // ---------- The chains as the initial memory has them ----------

  function ChainSlots(mem: seq<byte>, off: nat, steps: nat): (r: seq<Slot>)
    ensures |r| <= steps
    decreases steps, off
  {
    if steps == 0 || off + 8 > |mem| then []
    else
      var raw := U64(mem, off);
      [Slot(off, raw)] + if Next(raw) == 0 then [] else ChainSlots(mem, off + 4 * Next(raw), steps - 1)
  }

  lemma ChainUnfold(mem: seq<byte>, off: nat, steps: nat)
    ensures steps == 0 || off + 8 > |mem| ==> ChainSlots(mem, off, steps) == []
    ensures steps > 0 && off + 8 <= |mem| ==>
      var raw := U64(mem, off);
      ChainSlots(mem, off, steps)
        == [Slot(off, raw)] + if Next(raw) == 0 then [] else ChainSlots(mem, off + 4 * Next(raw), steps - 1)
  {
    hide U64, Next;
  }

  function Plan(mem: seq<byte>, starts: seq<nat>): (r: seq<Slot>)
    ensures |r| <= MAX_STEPS * |starts|
    decreases |starts|
  {
    if starts == [] then [] else ChainSlots(mem, starts[0], MAX_STEPS) + Plan(mem, starts[1..])
  }

  lemma {:induction false} PlanAppend(mem: seq<byte>, a: seq<nat>, b: seq<nat>)
    ensures Plan(mem, a + b) == Plan(mem, a) + Plan(mem, b)
    decreases |a|
  {
    hide ChainSlots;
    if a == [] {
      assert a + b == b;
    } else {
      assert (a + b)[1..] == a[1..] + b;
      PlanAppend(mem, a[1..], b);
    }
  }

  /** The chain, cut after `steps` words, never leaves the image. */
  predicate ChainInside(mem: seq<byte>, off: nat, steps: nat)
    decreases steps, off
  {
    steps == 0 ||
    (off + 8 <= |mem| &&
     (Next(U64(mem, off)) == 0 || ChainInside(mem, off + 4 * Next(U64(mem, off)), steps - 1)))
  }

  ghost predicate DisjointSlots(slots: seq<Slot>) {
    forall i, j :: 0 <= i < j < |slots| ==> Apart(slots[i].off, slots[j].off)
  }

  /** Every chain stays in the image and no two planned words share a byte. */
  ghost predicate WellFormed(mem: seq<byte>, starts: seq<nat>) {
    && (forall k :: 0 <= k < |starts| ==> ChainInside(mem, starts[k], MAX_STEPS))
    && DisjointSlots(Plan(mem, starts))
  }

  ghost predicate Untouched(slots: seq<Slot>, i: int) {
    forall k :: 0 <= k < |slots| ==> !(slots[k].off <= i < slots[k].off + 8)
  }

  // ---------- The walk as a replay of what it visited ----------

  /** The words the destructive walk really visits, with the contents it reads. */
  function ChainTrace(rule: Rule, s: Image, off: nat, steps: nat): (r: seq<Slot>)
    ensures |r| <= steps
    decreases steps, off
  {
    if steps == 0 || s.trapped || off + 8 > |s.mem| then []
    else
      var slot := Slot(off, U64(s.mem, off));
      [slot] +
      if Next(slot.raw) == 0 then []
      else ChainTrace(rule, Visit(rule, s, slot), off + 4 * Next(slot.raw), steps - 1)
  }

  lemma ChainTraceUnfold(rule: Rule, s: Image, off: nat, steps: nat)
    ensures steps == 0 || s.trapped || off + 8 > |s.mem| ==> ChainTrace(rule, s, off, steps) == []
    ensures steps > 0 && !s.trapped && off + 8 <= |s.mem| ==>
      var slot := Slot(off, U64(s.mem, off));
      ChainTrace(rule, s, off, steps)
        == [slot] + if Next(slot.raw) == 0 then []
                    else ChainTrace(rule, Visit(rule, s, slot), off + 4 * Next(slot.raw), steps - 1)
  {
    hide U64, Next, Visit;
  }

  function Trace(rule: Rule, s: Image, starts: seq<nat>): (r: seq<Slot>)
    ensures |r| <= MAX_STEPS * |starts|
    decreases |starts|
  {
    if starts == [] || s.trapped then []
    else
      ChainTrace(rule, s, starts[0], MAX_STEPS)
      + Trace(rule, WalkChain(rule, s, starts[0], MAX_STEPS), starts[1..])
  }

  function Replay(rule: Rule, s: Image, slots: seq<Slot>): (r: Image)
    ensures |r.mem| == |s.mem| && r.trapped == s.trapped
    decreases |slots|
  {
    if slots == [] then s else Replay(rule, Visit(rule, s, slots[0]), slots[1..])
  }

  lemma {:induction false} ReplayAppend(rule: Rule, s: Image, a: seq<Slot>, b: seq<Slot>)
    ensures Replay(rule, s, a + b) == Replay(rule, Replay(rule, s, a), b)
    decreases |a|
  {
    if a == [] {
      assert a + b == b;
    } else {
      assert (a + b)[1..] == a[1..] + b;
      ReplayAppend(rule, Visit(rule, s, a[0]), a[1..], b);
    }
  }

  lemma {:induction false} TrapCommutes(rule: Rule, s: Image, slots: seq<Slot>, t: bool)
    ensures Replay(rule, s.(trapped := t), slots) == Replay(rule, s, slots).(trapped := t)
    decreases |slots|
  {
    if slots != [] {
      TrapCommutes(rule, Visit(rule, s, slots[0]), slots[1..], t);
    }
  }

  lemma ReplayCons(rule: Rule, s: Image, slot: Slot, rest: seq<Slot>)
    ensures Replay(rule, s, [slot] + rest) == Replay(rule, Visit(rule, s, slot), rest)
  {
    hide Visit;
    assert ([slot] + rest)[1..] == rest;
  }

  lemma {:induction false} WalkChainReplays(rule: Rule, s: Image, off: nat, steps: nat)
    ensures var r := WalkChain(rule, s, off, steps);
      r == Replay(rule, s, ChainTrace(rule, s, off, steps)).(trapped := r.trapped)
    decreases steps
  {
    hide U64, Next, Visit, ChainTrace, WalkChain;
    ChainTraceUnfold(rule, s, off, steps);
    WalkChainStep(rule, s, off, steps);
    if steps != 0 && !s.trapped && off + 8 <= |s.mem| {
      var slot := Slot(off, U64(s.mem, off));
      var s' := Visit(rule, s, slot);
      var off' := off + 4 * Next(slot.raw);
      if Next(slot.raw) == 0 {
        ReplayCons(rule, s, slot, []);
      } else {
        ReplayCons(rule, s, slot, ChainTrace(rule, s', off', steps - 1));
        WalkChainReplays(rule, s', off', steps - 1);
      }
    }
  }

  /** Whatever the chains look like, the walk is the replay of the words it visited. */
  lemma {:induction false} WalkAllReplays(rule: Rule, s: Image, starts: seq<nat>)
    ensures var r := WalkAll(rule, s, starts);
      r == Replay(rule, s, Trace(rule, s, starts)).(trapped := r.trapped)
    decreases |starts|
  {
    if starts != [] && !s.trapped {
      var s1 := WalkChain(rule, s, starts[0], MAX_STEPS);
      var c := ChainTrace(rule, s, starts[0], MAX_STEPS);
      var t := Trace(rule, s1, starts[1..]);
      WalkChainReplays(rule, s, starts[0], MAX_STEPS);
      WalkAllReplays(rule, s1, starts[1..]);
      ReplayAppend(rule, s, c, t);
      TrapCommutes(rule, Replay(rule, s, c), t, s1.trapped);
    }
  }

  // ---------- Well-formed chains: the trace is the plan ----------

  /** The two memories hold the same words at all of these slots. */
  ghost predicate AgreeOn(m: seq<byte>, m': seq<byte>, slots: seq<Slot>) {
    forall k :: 0 <= k < |slots| ==> U64(m, slots[k].off) == U64(m', slots[k].off)
  }

  lemma AgreeOnTail(m: seq<byte>, m': seq<byte>, slot: Slot, rest: seq<Slot>)
    requires AgreeOn(m, m', [slot] + rest)
    ensures U64(m, slot.off) == U64(m', slot.off) && AgreeOn(m, m', rest)
  {
    hide U64;
    var slots := [slot] + rest;
    assert slots[0] == slot && forall k :: 0 <= k < |rest| ==> rest[k] == slots[k + 1];
  }

  lemma {:induction false} ChainFrame(m: seq<byte>, m': seq<byte>, off: nat, steps: nat)
    requires |m| == |m'|
    requires AgreeOn(m, m', ChainSlots(m, off, steps))
    ensures ChainSlots(m', off, steps) == ChainSlots(m, off, steps)
    ensures ChainInside(m', off, steps) == ChainInside(m, off, steps)
    decreases steps
  {
    hide U64, Next, ChainSlots, AgreeOn;
    ChainUnfold(m, off, steps);
    ChainUnfold(m', off, steps);
    if steps != 0 && off + 8 <= |m| {
      var next := Next(U64(m, off));
      var rest := if next == 0 then [] else ChainSlots(m, off + 4 * next, steps - 1);
      AgreeOnTail(m, m', Slot(off, U64(m, off)), rest);
      if next != 0 {
        ChainFrame(m, m', off + 4 * next, steps - 1);
      }
    }
  }

  lemma {:induction false} PlanFrame(m: seq<byte>, m': seq<byte>, starts: seq<nat>)
    requires |m| == |m'|
    requires AgreeOn(m, m', Plan(m, starts))
    ensures Plan(m', starts) == Plan(m, starts)
    ensures forall k :: 0 <= k < |starts| ==>
      ChainInside(m', starts[k], MAX_STEPS) == ChainInside(m, starts[k], MAX_STEPS)
    decreases |starts|
  {
    if starts != [] {
      var c, t := ChainSlots(m, starts[0], MAX_STEPS), Plan(m, starts[1..]);
      assert forall k :: 0 <= k < |c| ==> Plan(m, starts)[k] == c[k];
      assert forall k :: 0 <= k < |t| ==> Plan(m, starts)[|c| + k] == t[k];
      ChainFrame(m, m', starts[0], MAX_STEPS);
      PlanFrame(m, m', starts[1..]);
    }
  }

  /** Slots read from memory carry the words of that memory, inside it. */
  lemma {:induction false} ChainReads(mem: seq<byte>, off: nat, steps: nat)
    ensures forall k :: 0 <= k < |ChainSlots(mem, off, steps)| ==>
      var slot := ChainSlots(mem, off, steps)[k];
      slot.off + 8 <= |mem| && slot.raw == U64(mem, slot.off)
    decreases steps, off
  {
    if steps != 0 && off + 8 <= |mem| && Next(U64(mem, off)) != 0 {
      ChainReads(mem, off + 4 * Next(U64(mem, off)), steps - 1);
    }
  }

  lemma {:induction false} PlanReads(mem: seq<byte>, starts: seq<nat>)
    ensures forall k :: 0 <= k < |Plan(mem, starts)| ==>
      var slot := Plan(mem, starts)[k];
      slot.off + 8 <= |mem| && slot.raw == U64(mem, slot.off)
    decreases |starts|
  {
    if starts != [] {
      ChainReads(mem, starts[0], MAX_STEPS);
      PlanReads(mem, starts[1..]);
    }
  }

  lemma VisitMisses(rule: Rule, s: Image, slot: Slot, o: nat)
    requires Apart(slot.off, o)
    ensures U64(Visit(rule, s, slot).mem, o) == U64(s.mem, o)
  {
    if rule(slot.raw).Word().Some? {
      StoreMiss(s.mem, slot.off, rule(slot.raw).word, o);
    }
  }

  lemma {:induction false} ReplayMisses(rule: Rule, s: Image, slots: seq<Slot>, o: nat)
    requires forall k :: 0 <= k < |slots| ==> Apart(slots[k].off, o)
    ensures U64(Replay(rule, s, slots).mem, o) == U64(s.mem, o)
    decreases |slots|
  {
    if slots != [] {
      VisitMisses(rule, s, slots[0], o);
      ReplayMisses(rule, Visit(rule, s, slots[0]), slots[1..], o);
    }
  }

  lemma VisitAgrees(rule: Rule, s: Image, slot: Slot, rest: seq<Slot>)
    requires DisjointSlots([slot] + rest)
    ensures AgreeOn(s.mem, Visit(rule, s, slot).mem, rest) && DisjointSlots(rest)
  {
    hide U64, Visit;
    var slots := [slot] + rest;
    forall k | 0 <= k < |rest| ensures U64(s.mem, rest[k].off) == U64(Visit(rule, s, slot).mem, rest[k].off) {
      assert Apart(slots[0].off, slots[k + 1].off);
      VisitMisses(rule, s, slot, rest[k].off);
    }
    forall i, j | 0 <= i < j < |rest| ensures Apart(rest[i].off, rest[j].off) {
      assert Apart(slots[i + 1].off, slots[j + 1].off);
    }
  }

  lemma {:induction false} ChainTraceIsPlan(rule: Rule, s: Image, off: nat, steps: nat)
    requires !s.trapped && ChainInside(s.mem, off, steps)
    requires DisjointSlots(ChainSlots(s.mem, off, steps))
    ensures ChainTrace(rule, s, off, steps) == ChainSlots(s.mem, off, steps)
    ensures !WalkChain(rule, s, off, steps).trapped
    decreases steps
  {
    hide U64, Next, Visit, DisjointSlots, AgreeOn;
    if steps != 0 && Next(U64(s.mem, off)) != 0 {
      var slot := Slot(off, U64(s.mem, off));
      var off' := off + 4 * Next(slot.raw);
      var s' := Visit(rule, s, slot);
      VisitAgrees(rule, s, slot, ChainSlots(s.mem, off', steps - 1));
      ChainFrame(s.mem, s'.mem, off', steps - 1);
      ChainTraceIsPlan(rule, s', off', steps - 1);
    }
  }

  lemma {:induction false} TraceIsPlan(rule: Rule, s: Image, starts: seq<nat>)
    requires !s.trapped && WellFormed(s.mem, starts)
    ensures Trace(rule, s, starts) == Plan(s.mem, starts)
    ensures !WalkAll(rule, s, starts).trapped
    decreases |starts|
  {
    if starts != [] {
      var plan := Plan(s.mem, starts);
      var c, t := ChainSlots(s.mem, starts[0], MAX_STEPS), Plan(s.mem, starts[1..]);
      assert forall k :: 0 <= k < |c| ==> plan[k] == c[k];
      assert forall k :: 0 <= k < |t| ==> plan[|c| + k] == t[k];
      assert DisjointSlots(c) && DisjointSlots(t);
      var s1 := WalkChain(rule, s, starts[0], MAX_STEPS);
      ChainTraceIsPlan(rule, s, starts[0], MAX_STEPS);
      WalkChainReplays(rule, s, starts[0], MAX_STEPS);
      forall k | 0 <= k < |t| ensures U64(s.mem, t[k].off) == U64(s1.mem, t[k].off) {
        forall i | 0 <= i < |c| ensures Apart(c[i].off, t[k].off) {
          assert Apart(plan[i].off, plan[|c| + k].off);
        }
        ReplayMisses(rule, s, c, t[k].off);
      }
      PlanFrame(s.mem, s1.mem, starts[1..]);
      assert forall k :: 0 <= k < |starts[1..]| ==> starts[1..][k] == starts[k + 1];
      TraceIsPlan(rule, s1, starts[1..]);
    }
  }

  // ---------- The main theorem ----------

  function PatchesOf(rule: Rule, slots: seq<Slot>): (r: seq<Patch>)
    ensures |r| == |slots|
    ensures forall k :: 0 <= k < |slots| ==> r[k] == Patch(slots[k].off, rule(slots[k].raw).Word())
  {
    seq(|slots|, k requires 0 <= k < |slots| => Patch(slots[k].off, rule(slots[k].raw).Word()))
  }

  lemma {:induction false} ReplayIsPatching(rule: Rule, s: Image, slots: seq<Slot>)
    ensures Replay(rule, s, slots).mem == ApplyPatches(s.mem, PatchesOf(rule, slots))
    decreases |slots|
  {
    if slots != [] {
      assert PatchesOf(rule, slots)[1..] == PatchesOf(rule, slots[1..]);
      ReplayIsPatching(rule, Visit(rule, s, slots[0]), slots[1..]);
    }
  }

  /** The word a slot ends with: its fixup, or what it held if the bind has no target. */
  function FinalWord(rule: Rule, raw: u64): u64 {
    match rule(raw).Word()
    case Some(v) => v
    case None => raw
  }

  /** `mem'` is `mem` with each of these slots fixed up from what it held, and nothing else changed. */
  ghost predicate FixedUp(rule: Rule, mem: seq<byte>, mem': seq<byte>, slots: seq<Slot>) {
    && |mem'| == |mem|
    && (forall k :: 0 <= k < |slots| ==> U64(mem', slots[k].off) == FinalWord(rule, slots[k].raw))
    && (forall i :: 0 <= i < |mem| && Untouched(slots, i) ==> mem'[i] == mem[i])
  }

  /** Main theorem: on well-formed chains the destructive walk gives the two-phase result. Every
      word of every chain, the chains taken from the initial memory, holds its own fixup; every
      other byte is unchanged; and the counters count the planned words. */
  lemma WalkRefinesTwoPhase(rule: Rule, s: Image, starts: seq<nat>)
    requires !s.trapped && WellFormed(s.mem, starts)
    ensures !WalkAll(rule, s, starts).trapped
    ensures FixedUp(rule, s.mem, WalkAll(rule, s, starts).mem, Plan(s.mem, starts))
    ensures WalkAll(rule, s, starts).tally == Replay(rule, s, Plan(s.mem, starts)).tally
  {
    hide U64, Next;
    var plan := Plan(s.mem, starts);
    var mem' := WalkAll(rule, s, starts).mem;
    var patches := PatchesOf(rule, plan);
    TraceIsPlan(rule, s, starts);
    WalkAllReplays(rule, s, starts);
    ReplayIsPatching(rule, s, plan);
    PlanReads(s.mem, starts);
    forall k | 0 <= k < |plan| ensures U64(mem', plan[k].off) == FinalWord(rule, plan[k].raw) {
      PatchesHit(s.mem, patches, k);
    }
    forall i | 0 <= i < |s.mem| && Untouched(plan, i) ensures mem'[i] == s.mem[i] {
      PatchesMiss(s.mem, patches, i);
    }
  }

  /** `FixedUp` leaves no freedom: it determines every byte of the final memory. */
  lemma FixedUpIsUnique(rule: Rule, mem: seq<byte>, m1: seq<byte>, m2: seq<byte>, slots: seq<Slot>)
    requires FixedUp(rule, mem, m1, slots) && FixedUp(rule, mem, m2, slots)
    ensures m1 == m2
  {
    hide U64;
    forall i | 0 <= i < |mem| ensures m1[i] == m2[i] {
      if k :| 0 <= k < |slots| && slots[k].off <= i < slots[k].off + 8 {
        assert U64(m1, slots[k].off) == U64(m2, slots[k].off);
        WordBytes(m1, m2, slots[k].off);
        assert At(m1, i) == At(m2, i);
      } else {
        assert Untouched(slots, i);
      }
    }
  }

  lemma WordBytes(f: seq<byte>, g: seq<byte>, p: nat)
    requires U64(f, p) == U64(g, p)
    ensures forall i :: p <= i < p + 8 ==> At(f, i) == At(g, i)
  {
    LEInjective(f, g, p, p + 8);
  }

  // ---------- Accounting ----------

  datatype Kind = Rebases | Binds | Unresolved
  {
    predicate Covers(o: Outcome) {
      match this
      case Rebases => o.Rebased?
      case Binds => !o.Rebased?
      case Unresolved => o.Unbound?
    }

    function One(o: Outcome): nat {
      if Covers(o) then 1 else 0
    }
  }

  function HowMany(rule: Rule, slots: seq<Slot>, kind: Kind): (n: nat)
    ensures n <= |slots|
    decreases |slots|
  {
    if slots == [] then 0
    else kind.One(rule(slots[0].raw)) + HowMany(rule, slots[1..], kind)
  }

  /** Every visited word is a rebase or a bind, and an unresolved one is a bind. */
  lemma {:induction false} KindsPartition(rule: Rule, slots: seq<Slot>)
    ensures HowMany(rule, slots, Rebases) + HowMany(rule, slots, Binds) == |slots|
    ensures HowMany(rule, slots, Unresolved) <= HowMany(rule, slots, Binds)
    decreases |slots|
  {
    if slots != [] {
      KindsPartition(rule, slots[1..]);
    }
  }

  lemma IncThenAdd(a: u32, n: nat)
    ensures (Inc32(a) + n) % 0x1_0000_0000 == (a + (n + 1)) % 0x1_0000_0000
  {
    if a + 1 == 0x1_0000_0000 {
      assert a + (n + 1) == n + 0x1_0000_0000;
    }
  }

  /** Counting one outcome first adds one to the count of each kind that covers it. */
  lemma CountThenAdd(t: Tally, o: Outcome, r: nat, b: nat, u: nat)
    ensures t.Count(o).Add(r, b, u)
         == t.Add(Rebases.One(o) + r, Binds.One(o) + b, Unresolved.One(o) + u)
  {
    hide Inc32;
    match o
    case Rebased(_) =>
      IncThenAdd(t.rebases, r);
    case Bound(_) =>
      IncThenAdd(t.binds, b);
    case Unbound =>
      IncThenAdd(t.binds, b);
      IncThenAdd(t.unresolved, u);
  }

  lemma AddNothing(t: Tally)
    ensures t.Add(0, 0, 0) == t
  {
  }

  lemma {:induction false} ReplayTally(rule: Rule, s: Image, slots: seq<Slot>)
    ensures Replay(rule, s, slots).tally
         == s.tally.Add(HowMany(rule, slots, Rebases), HowMany(rule, slots, Binds), HowMany(rule, slots, Unresolved))
    decreases |slots|
  {
    hide Tally.Count, Tally.Add, Kind.One, ApplyPatch;
    if slots == [] {
      AddNothing(s.tally);
    } else {
      var rest := slots[1..];
      CountThenAdd(s.tally, rule(slots[0].raw),
                   HowMany(rule, rest, Rebases), HowMany(rule, rest, Binds), HowMany(rule, rest, Unresolved));
      ReplayTally(rule, Visit(rule, s, slots[0]), rest);
    }
  }

  /** No counter wraps: 32 segments of at most 65535 pages and 512 words each stay below 2^32. The
      counters then add up to the visited words, for chains of any shape. The unresolved counter
      is carried over from before the walk. */
  lemma CountersAreExact(rule: Rule, s: Image, starts: seq<nat>)
    requires s.tally.rebases == 0 && s.tally.binds == 0 && |starts| <= 32 * 0xFFFF
    ensures var trace := Trace(rule, s, starts); var tally := WalkAll(rule, s, starts).tally;
      && tally.rebases + tally.binds == |trace|
      && tally.rebases == HowMany(rule, trace, Rebases)
      && tally.binds == HowMany(rule, trace, Binds)
      && tally.unresolved == (s.tally.unresolved + HowMany(rule, trace, Unresolved)) % TWO32
      && (s.tally.unresolved == 0 ==>
            tally.unresolved == HowMany(rule, trace, Unresolved) <= tally.binds)
  {
    hide WalkAll, Trace, Replay, HowMany;
    var trace := Trace(rule, s, starts);
    WalkAllReplays(rule, s, starts);
    ReplayTally(rule, s, trace);
    KindsPartition(rule, trace);
    assert |trace| <= 512 * 32 * 0xFFFF < 0x1_0000_0000;
  }

  // ---------- Two runs at different bases ----------

  /** The rules differ only in that rebased words slide by `d`. */
  ghost predicate Slides(r1: Rule, r2: Rule, d: int) {
    forall raw: u64 :: SlidWord(r1(raw), r2(raw), d)
  }

  predicate SlidWord(o1: Outcome, o2: Outcome, d: int) {
    if o1.Rebased? then o2.Rebased? && o1.word == Wrap64(o2.word + d) else o1 == o2
  }

  ghost predicate OutsideRebases(rule: Rule, slots: seq<Slot>, i: int) {
    forall k :: 0 <= k < |slots| && rule(slots[k].raw).Rebased? ==>
      !(slots[k].off <= i < slots[k].off + 8)
  }

  /** The two images differ at the rebased words only, and there by `d` modulo 2^64. */
  ghost predicate SlideApart(rule: Rule, slots: seq<Slot>, m1: seq<byte>, m2: seq<byte>, d: int) {
    && |m1| == |m2|
    && (forall k :: 0 <= k < |slots| && rule(slots[k].raw).Rebased? ==>
          U64(m1, slots[k].off) == Wrap64(U64(m2, slots[k].off) + d))
    && (forall i :: 0 <= i < |m1| && OutsideRebases(rule, slots, i) ==> m1[i] == m2[i])
  }

  /** Slide theorem: fixups by rules that differ by a slide leave images that differ by it. */
  lemma FixupsSlide(r1: Rule, r2: Rule, d: int, mem: seq<byte>, m1: seq<byte>, m2: seq<byte>, slots: seq<Slot>)
    requires Slides(r1, r2, d)
    requires FixedUp(r1, mem, m1, slots) && FixedUp(r2, mem, m2, slots)
    ensures SlideApart(r1, slots, m1, m2, d)
  {
    hide U64;
    assert forall k :: 0 <= k < |slots| ==> SlidWord(r1(slots[k].raw), r2(slots[k].raw), d);
    forall i | 0 <= i < |mem| && OutsideRebases(r1, slots, i) ensures m1[i] == m2[i] {
      if k :| 0 <= k < |slots| && slots[k].off <= i < slots[k].off + 8 {
        assert U64(m1, slots[k].off) == U64(m2, slots[k].off);
        WordBytes(m1, m2, slots[k].off);
        assert At(m1, i) == At(m2, i);
      } else {
        assert Untouched(slots, i);
      }
    }
  }

  lemma {:induction false} TallySlides(r1: Rule, r2: Rule, d: int, slots: seq<Slot>, kind: Kind)
    requires Slides(r1, r2, d)
    ensures HowMany(r1, slots, kind) == HowMany(r2, slots, kind)
    decreases |slots|
  {
    if slots != [] {
      assert SlidWord(r1(slots[0].raw), r2(slots[0].raw), d);
      TallySlides(r1, r2, d, slots[1..], kind);
    }
  }
}
