/** Strides, pages and the step cap: when chains keep apart, and what the cap of 512 steps leaves. */
module ChainCap {
  import opened Memory
  import opened ChainFormat
  import opened ChainWalk

  // ---------- Strides ----------

  /** Every word that has a successor in the chain is at least eight bytes before it. */
  ghost predicate WideStrides(slots: seq<Slot>) {
    forall k :: 0 <= k < |slots| - 1 ==> Next(slots[k].raw) != 1
  }

  ghost predicate Within(slots: seq<Slot>, lo: int, hi: int) {
    forall k :: 0 <= k < |slots| ==> lo <= slots[k].off && slots[k].off + 8 <= hi
  }

  /** The k-th slot lies at least 8k bytes after `off`, and no two slots share a byte. */
  ghost predicate Spaced(slots: seq<Slot>, off: nat) {
    DisjointSlots(slots) && forall k :: 0 <= k < |slots| ==> slots[k].off >= off + 8 * k
  }

  lemma NoneSpaced(off: nat)
    ensures Spaced([], off)
  {
  }

  lemma PrependSpaced(slot: Slot, rest: seq<Slot>, off': nat)
    requires Spaced(rest, off') && slot.off + 8 <= off'
    ensures Spaced([slot] + rest, slot.off)
  {
    var slots := [slot] + rest;
    assert forall k :: 1 <= k < |slots| ==> slots[k] == rest[k - 1];
  }

  lemma WideTail(slot: Slot, rest: seq<Slot>)
    requires WideStrides([slot] + rest)
    ensures WideStrides(rest) && (rest != [] ==> Next(slot.raw) != 1)
  {
    hide Next;
    var slots := [slot] + rest;
    assert slots[0] == slot && forall k :: 0 <= k < |rest| ==> rest[k] == slots[k + 1];
  }

  /** A chain with wide strides never overlaps itself, and its k-th word lies at least 8k bytes
      after the first. */
  lemma {:induction false} StridesAddUp(mem: seq<byte>, off: nat, steps: nat)
    requires WideStrides(ChainSlots(mem, off, steps))
    ensures Spaced(ChainSlots(mem, off, steps), off)
    decreases steps
  {
    hide U64, Next, ChainSlots, WideStrides, Spaced;
    ChainUnfold(mem, off, steps);
    if steps == 0 || off + 8 > |mem| {
      NoneSpaced(off);
    } else {
      var slot := Slot(off, U64(mem, off));
      var next := Next(slot.raw);
      var rest := if next == 0 then [] else ChainSlots(mem, off + 4 * next, steps - 1);
      WideTail(slot, rest);
      if rest == [] {
        NoneSpaced(off + 8);
        PrependSpaced(slot, rest, off + 8);
      } else {
        StridesAddUp(mem, off + 4 * next, steps - 1);
        PrependSpaced(slot, rest, off + 4 * next);
      }
    }
  }

  /** Each word is where the one before it points. */
  lemma {:induction false} ChainLinks(mem: seq<byte>, off: nat, steps: nat, k: nat)
    requires k < |ChainSlots(mem, off, steps)|
    ensures var slots := ChainSlots(mem, off, steps);
      && (k == 0 ==> slots[k].off == off)
      && (k + 1 < |slots| ==> slots[k + 1].off == slots[k].off + 4 * Next(slots[k].raw))
    decreases steps
  {
    hide U64, Next, ChainSlots;
    ChainUnfold(mem, off, steps);
    var next := Next(U64(mem, off));
    if next != 0 {
      var rest := ChainSlots(mem, off + 4 * next, steps - 1);
      if k > 0 {
        ChainLinks(mem, off + 4 * next, steps - 1, k - 1);
      } else if rest != [] {
        ChainLinks(mem, off + 4 * next, steps - 1, 0);
      }
    }
  }

  /** One chain keeps apart from itself exactly if no word with a successor has stride one. */
  lemma ChainApartIff(mem: seq<byte>, off: nat, steps: nat)
    ensures DisjointSlots(ChainSlots(mem, off, steps)) <==> WideStrides(ChainSlots(mem, off, steps))
  {
    hide U64, Next, ChainSlots;
    var slots := ChainSlots(mem, off, steps);
    if WideStrides(slots) {
      StridesAddUp(mem, off, steps);
    }
    if k :| 0 <= k < |slots| - 1 && Next(slots[k].raw) == 1 {
      ChainLinks(mem, off, steps, k);
      assert !Apart(slots[k].off, slots[k + 1].off);
    }
  }

  // ---------- The cap ----------

  /** Fewer steps give a prefix of the longer chain. */
  lemma {:induction false} CapIsPrefix(mem: seq<byte>, off: nat, cap: nat, steps: nat)
    requires cap <= steps
    ensures var full := ChainSlots(mem, off, steps);
      ChainSlots(mem, off, cap) == if |full| <= cap then full else full[..cap]
    decreases cap
  {
    hide U64, Next, ChainSlots;
    ChainUnfold(mem, off, cap);
    ChainUnfold(mem, off, steps);
    if cap != 0 && off + 8 <= |mem| && Next(U64(mem, off)) != 0 {
      var slot := Slot(off, U64(mem, off));
      var off' := off + 4 * Next(slot.raw);
      var rest := ChainSlots(mem, off', steps - 1);
      CapIsPrefix(mem, off', cap - 1, steps - 1);
      assert ([slot] + rest)[..if |rest| < cap then |rest| + 1 else cap]
          == [slot] + rest[..if |rest| < cap then |rest| else cap - 1];
    }
  }

  /** What a walk of `cap` steps leaves of a chain of any length: its first `cap` words are fixed up,
      the later ones are as they were, and so is every byte outside the first ones. */
  ghost predicate CappedFixup(rule: Rule, mem: seq<byte>, mem': seq<byte>, full: seq<Slot>, cap: nat) {
    && |mem'| == |mem|
    && (forall k :: 0 <= k < |full| ==>
          U64(mem', full[k].off) == if k < cap then FinalWord(rule, full[k].raw) else full[k].raw)
    && (forall i :: 0 <= i < |mem| && Untouched(full[..if |full| <= cap then |full| else cap], i) ==>
          mem'[i] == mem[i])
  }

  /** The cap on the walk itself: exactly the first min(cap, length) words of a chain are fixed up. */
  lemma WalkIsCapped(rule: Rule, s: Image, off: nat, cap: nat, steps: nat)
    requires !s.trapped && cap <= steps && ChainInside(s.mem, off, cap)
    requires DisjointSlots(ChainSlots(s.mem, off, steps))
    ensures !WalkChain(rule, s, off, cap).trapped
    ensures CappedFixup(rule, s.mem, WalkChain(rule, s, off, cap).mem, ChainSlots(s.mem, off, steps), cap)
  {
    hide U64, Next, ChainSlots, WalkChain, ChainTrace, ChainInside;
    var full, c := ChainSlots(s.mem, off, steps), ChainSlots(s.mem, off, cap);
    var mem' := WalkChain(rule, s, off, cap).mem;
    CapIsPrefix(s.mem, off, cap, steps);
    assert forall k :: 0 <= k < |c| ==> c[k] == full[k];
    ChainTraceIsPlan(rule, s, off, cap);
    WalkChainReplays(rule, s, off, cap);
    ReplayIsPatching(rule, s, c);
    ChainReads(s.mem, off, steps);
    forall k | 0 <= k < |full|
      ensures U64(mem', full[k].off) == if k < cap then FinalWord(rule, full[k].raw) else full[k].raw
    {
      if k < cap {
        PatchesHit(s.mem, PatchesOf(rule, c), k);
      } else {
        ReplayMisses(rule, s, c, full[k].off);
      }
    }
    forall i | 0 <= i < |s.mem| && Untouched(c, i) ensures mem'[i] == s.mem[i] {
      PatchesMiss(s.mem, PatchesOf(rule, c), i);
    }
    assert c == full[..if |full| <= cap then |full| else cap];
  }

  /** A chain with wide strides that stays inside one 0x1000-byte page has at most 512 words. */
  lemma SmallPageFitsCap(mem: seq<byte>, off: nat, steps: nat, page: nat)
    requires WideStrides(ChainSlots(mem, off, steps))
    requires Within(ChainSlots(mem, off, steps), page, page + 0x1000)
    ensures |ChainSlots(mem, off, steps)| <= 512
  {
    hide U64, Next, ChainSlots;
    var full := ChainSlots(mem, off, steps);
    StridesAddUp(mem, off, steps);
    if full != [] {
      var last := |full| - 1;
      ChainLinks(mem, off, steps, 0);
      assert full[last].off >= off + 8 * last && full[last].off + 8 <= page + 0x1000;
    }
  }

  // ---------- A rule that marks words ----------

  /** `r` with its lowest, or its second lowest, bit flipped. */
  function Flip(r: u64, bit: nat): u64
    requires bit == 1 || bit == 2
  {
    if r / bit % 2 == 0 then r + bit else r - bit
  }

  /** A word that holds `r` is marked once, then once more, and then left alone. */
  function MarkRule(r: u64): Rule {
    (x: u64) => if x == r then Rebased(Flip(r, 1)) else if x == Flip(r, 1) then Rebased(Flip(r, 2)) else Unbound
  }

  lemma FlipsDiffer(r: u64)
    ensures Flip(r, 1) != r && Flip(r, 2) != r && Flip(r, 1) != Flip(r, 2)
    ensures Next(Flip(r, 1)) == Next(r) && Next(Flip(r, 2)) == Next(r)
  {
    FlipKeepsHigh(r, 1);
    FlipKeepsHigh(r, 2);
  }

  lemma FlipKeepsHigh(r: u64, bit: nat)
    requires bit == 1 || bit == 2
    ensures Flip(r, bit) / 4 == r / 4
    ensures Next(Flip(r, bit)) == Next(r)
  {
    var q, low := r / 4, Flip(r, bit) - 4 * (r / 4);
    assert 0 <= low < 4 by {
      if bit == 2 {
        assert r / 2 == 2 * q + r % 4 / 2;
      }
    }
    HighBits(r, q, r - 4 * q);
    HighBits(Flip(r, bit), q, low);
  }

  lemma HighBits(x: u64, q: nat, low: nat)
    requires x == 4 * q + low && low < 4
    ensures x / 4 == q && x / 0x8_0000_0000_0000 == q / 0x2_0000_0000_0000
  {
    var h := q / 0x2_0000_0000_0000;
    Divides(x, 0x8_0000_0000_0000, h, x - 0x8_0000_0000_0000 * h);
  }

  /** The capped walk fixes up the whole chain, whatever words become, exactly if the chain has at
      most 512 words. */
  lemma CapSufficesIff(mem: seq<byte>, tally: Tally, off: nat, steps: nat)
    requires MAX_STEPS <= steps && ChainInside(mem, off, MAX_STEPS)
    requires DisjointSlots(ChainSlots(mem, off, steps))
    ensures (forall rule: Rule ::
        FixedUp(rule, mem, WalkChain(rule, Image(mem, tally, false), off, MAX_STEPS).mem, ChainSlots(mem, off, steps)))
      <==> |ChainSlots(mem, off, steps)| <= 512
  {
    hide U64, Next, ChainSlots, WalkChain, ChainInside, Flip;
    var s, full := Image(mem, tally, false), ChainSlots(mem, off, steps);
    forall rule: Rule
      ensures CappedFixup(rule, mem, WalkChain(rule, s, off, MAX_STEPS).mem, full, MAX_STEPS)
    {
      WalkIsCapped(rule, s, off, MAX_STEPS, steps);
    }
    if |full| <= 512 {
      assert full[..|full|] == full;
    } else {
      var rule := MarkRule(full[512].raw);
      FlipsDiffer(full[512].raw);
      assert CappedFixup(rule, mem, WalkChain(rule, s, off, MAX_STEPS).mem, full, MAX_STEPS);
    }
  }

  /** So on 0x1000-byte pages the cap never cuts: a chain with wide strides inside one page is
      fixed up completely, whatever words become. */
  lemma CapSufficesOnSmallPages(mem: seq<byte>, tally: Tally, off: nat, steps: nat, page: nat)
    requires MAX_STEPS <= steps && ChainInside(mem, off, MAX_STEPS)
    requires WideStrides(ChainSlots(mem, off, steps))
    requires Within(ChainSlots(mem, off, steps), page, page + 0x1000)
    ensures ChainSlots(mem, off, MAX_STEPS) == ChainSlots(mem, off, steps)
    ensures forall rule: Rule ::
      FixedUp(rule, mem, WalkChain(rule, Image(mem, tally, false), off, MAX_STEPS).mem, ChainSlots(mem, off, steps))
  {
    hide U64, Next, ChainSlots, WalkChain, ChainInside;
    SmallPageFitsCap(mem, off, steps, page);
    ChainApartIff(mem, off, steps);
    CapIsPrefix(mem, off, MAX_STEPS, steps);
    CapSufficesIff(mem, tally, off, steps);
  }

  // ---------- Windows ----------

  /** Chains that each stay in a window of their own, with wide strides, never overlap. */
  lemma {:induction false} WindowsMakeDisjoint(mem: seq<byte>, starts: seq<nat>, lo: seq<int>, hi: seq<int>)
    requires |lo| == |hi| == |starts|
    requires forall k :: 0 <= k < |starts| ==>
      WideStrides(ChainSlots(mem, starts[k], MAX_STEPS))
      && Within(ChainSlots(mem, starts[k], MAX_STEPS), lo[k], hi[k])
    requires forall i, j :: 0 <= i < j < |starts| ==> hi[i] <= lo[j] || hi[j] <= lo[i]
    ensures DisjointSlots(Plan(mem, starts))
    decreases |starts|
  {
    hide U64, Next;
    if starts != [] {
      var c, t := ChainSlots(mem, starts[0], MAX_STEPS), Plan(mem, starts[1..]);
      StridesAddUp(mem, starts[0], MAX_STEPS);
      assert forall k :: 0 <= k < |starts[1..]| ==> starts[1..][k] == starts[k + 1];
      WindowsMakeDisjoint(mem, starts[1..], lo[1..], hi[1..]);
      forall k | 0 <= k < |t| ensures t[k].off + 8 <= lo[0] || hi[0] <= t[k].off {
        var j := PlanWindow(mem, starts[1..], lo[1..], hi[1..], k);
      }
    }
  }

  lemma {:induction false} PlanWindow(mem: seq<byte>, starts: seq<nat>, lo: seq<int>, hi: seq<int>, k: nat)
    returns (j: nat)
    requires |lo| == |hi| == |starts| && k < |Plan(mem, starts)|
    requires forall k :: 0 <= k < |starts| ==> Within(ChainSlots(mem, starts[k], MAX_STEPS), lo[k], hi[k])
    ensures j < |starts|
    ensures lo[j] <= Plan(mem, starts)[k].off && Plan(mem, starts)[k].off + 8 <= hi[j]
    decreases |starts|
  {
    var c := ChainSlots(mem, starts[0], MAX_STEPS);
    if k < |c| {
      j := 0;
      assert Within(c, lo[0], hi[0]);
    } else {
      assert forall k :: 0 <= k < |starts[1..]| ==> starts[1..][k] == starts[k + 1];
      j := PlanWindow(mem, starts[1..], lo[1..], hi[1..], k - |c|);
      j := j + 1;
    }
  }

  // ---------- A page that the cap cuts ----------

  /** A page of `n` words, each pointing to the next one; the last one ends the chain. */
  function Ladder(n: nat): seq<byte> {
    seq(8 * n, i => if i % 8 == 6 && i / 8 + 1 < n then 0x10 else 0)
  }

  lemma LadderWord(n: nat, k: nat)
    requires k < n
    ensures Next(U64(Ladder(n), 8 * k)) == if k + 1 < n then 2 else 0
  {
    var f, p := Ladder(n), 8 * k;
    var b := if k + 1 < n then 0x10 else 0;
    assert forall i :: p <= i < p + 8 ==> f[i] == if i == p + 6 then b else 0;
    assert LE(f, p + 7, p + 8) == 0;
    assert LE(f, p + 6, p + 8) == b;
    assert LE(f, p + 5, p + 8) == 0x100 * b;
    assert LE(f, p + 4, p + 8) == 0x1_0000 * b;
    assert LE(f, p + 3, p + 8) == 0x100_0000 * b;
    assert LE(f, p + 2, p + 8) == 0x1_0000_0000 * b;
    assert LE(f, p + 1, p + 8) == 0x100_0000_0000 * b;
    assert LE(f, p, p + 8) == 0x1_0000_0000_0000 * b;
  }

  /** Words eight bytes apart from `off` on, each with stride two but the last. */
  ghost predicate Rungs(slots: seq<Slot>, off: nat) {
    && (forall j :: 0 <= j < |slots| ==> slots[j].off == off + 8 * j)
    && (forall j :: 0 <= j < |slots| - 1 ==> Next(slots[j].raw) == 2)
  }

  lemma OneMoreRung(slot: Slot, rest: seq<Slot>)
    requires Rungs(rest, slot.off + 8) && (rest != [] ==> Next(slot.raw) == 2)
    ensures Rungs([slot] + rest, slot.off)
  {
    hide Next;
    var slots := [slot] + rest;
    assert forall j :: 1 <= j < |slots| ==> slots[j] == rest[j - 1];
  }

  /** The chain of the ladder: it ends inside the page after all its words. */
  lemma {:induction false} LadderChain(n: nat, k: nat, steps: nat)
    requires k < n && n - k <= steps
    ensures ChainInside(Ladder(n), 8 * k, steps)
    ensures |ChainSlots(Ladder(n), 8 * k, steps)| == n - k && Rungs(ChainSlots(Ladder(n), 8 * k, steps), 8 * k)
    decreases steps
  {
    hide U64, Next, Ladder, Rungs, ChainSlots;
    assert |Ladder(n)| == 8 * n by { LadderSize(n); }
    LadderWord(n, k);
    ChainUnfold(Ladder(n), 8 * k, steps);
    var slot := Slot(8 * k, U64(Ladder(n), 8 * k));
    if k + 1 < n {
      LadderChain(n, k + 1, steps - 1);
      OneMoreRung(slot, ChainSlots(Ladder(n), 8 * (k + 1), steps - 1));
    } else {
      NoRungs(8 * n);
      OneMoreRung(slot, []);
      assert [slot] + [] == [slot];
    }
  }

  lemma NoRungs(off: nat)
    ensures Rungs([], off)
  {
  }

  lemma LadderSize(n: nat)
    ensures |Ladder(n)| == 8 * n
  {
  }

  /** On 0x4000-byte pages the cap does cut. This chain ends inside its page, its 2048 words do not
      overlap, and whatever words become, every word from the 513th on is left raw. */
  lemma CapCutsLargePage(rule: Rule, tally: Tally) returns (page: seq<byte>)
    ensures |page| == 0x4000 && ChainInside(page, 0, 2048)
    ensures |ChainSlots(page, 0, 2048)| == 2048 && DisjointSlots(ChainSlots(page, 0, 2048))
    ensures forall k :: 512 <= k < 2048 ==>
      U64(WalkChain(rule, Image(page, tally, false), 0, MAX_STEPS).mem, 8 * k) == U64(page, 8 * k)
  {
    hide U64, Next, Ladder, WalkChain, ChainSlots, ChainInside;
    page := Ladder(2048);
    LadderSize(2048);
    LadderChain(2048, 0, 2048);
    var s, full := Image(page, tally, false), ChainSlots(page, 0, 2048);
    ChainApartIff(page, 0, 2048);
    InsideShorter(page, 0, MAX_STEPS, 2048);
    WalkIsCapped(rule, s, 0, MAX_STEPS, 2048);
    ChainReads(page, 0, 2048);
    forall k | 512 <= k < 2048
      ensures U64(WalkChain(rule, s, 0, MAX_STEPS).mem, 8 * k) == U64(page, 8 * k)
    {
      assert full[k].off == 8 * k;
    }
  }

  lemma {:induction false} InsideShorter(mem: seq<byte>, off: nat, cap: nat, steps: nat)
    requires cap <= steps && ChainInside(mem, off, steps)
    ensures ChainInside(mem, off, cap)
    decreases cap
  {
    hide U64, Next;
    if cap != 0 && Next(U64(mem, off)) != 0 {
      InsideShorter(mem, off + 4 * Next(U64(mem, off)), cap - 1, steps - 1);
    }
  }
}
