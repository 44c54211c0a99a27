/** The chained-fixup payload as a linker writes it, with the structures of mach-o/fixup-chains.h: which
    chains the loader walks, and which import an ordinal means. */
module FixupPayload {
  import opened Memory
  import opened ChainFormat
  import opened LoaderState
  import opened ChainedFixups
  import opened Structs

  // ---------- The written payload ----------

  /** dyld_chained_starts_in_segment. */
  datatype Chains = Chains(
    size: u32, pageSize: u16, pointerFormat: u16, segmentOffset: u64, maxValid: u32, pages: seq<u16>)
  {
    /** The members before page_start[]. */
    function Fields(): seq<Field> {
      [Number(4, size), Number(2, pageSize), Number(2, pointerFormat),
       Number(8, segmentOffset), Number(4, maxValid), Number(2, |pages|)]
    }
  }

  /** dyld_chained_import, whose bit fields have 8, 1 and 23 bits, with the name it refers to. */
  datatype Import = Import(libOrdinal: nat, weak: nat, nameOffset: nat, name: Name)
  {
    predicate Valid() {
      libOrdinal < 0x100 && weak < 2 && nameOffset < 0x80_0000 && 0 !in name
    }

    function Entry(): nat {
      libOrdinal + 0x100 * weak + 0x200 * nameOffset
    }
  }

  /** The payload. Segment `i` has chains, `chains[i]`, unless its info offset is zero. */
  datatype Payload = Payload(
    version: u32, startsOffset: u32, importsOffset: u32, symbolsOffset: u32,
    importsFormat: u32, symbolsFormat: u32,
    infoOffsets: seq<u32>, chains: seq<Chains>, imports: seq<Import>)
  {
    /** dyld_chained_fixups_header. */
    function Header(): seq<Field> {
      [Number(4, version), Number(4, startsOffset), Number(4, importsOffset), Number(4, symbolsOffset),
       Number(4, |imports|), Number(4, importsFormat), Number(4, symbolsFormat)]
    }

    function ImportTable(): (r: seq<nat>)
      ensures |r| == |imports|
    {
      seq(|imports|, k requires 0 <= k < |imports| => imports[k].Entry())
    }
  }

  ghost predicate ChainsAt(file: seq<byte>, p: nat, c: Chains) {
    Written(file, p, c.Fields()) && Written(file, p + SizeOf(c.Fields()), Numbers(2, c.pages))
  }

  function SizeOf(fields: seq<Field>): nat {
    OffsetOf(fields, |fields|)
  }

  ghost predicate ImportAt(file: seq<byte>, symbols: nat, m: Import) {
    m.Valid() && Stands(file, symbols + m.nameOffset, m.name + [0])
  }

  /** The payload stands in the file at `at`. */
  ghost predicate PayloadAt(file: seq<byte>, at: nat, w: Payload) {
    var starts := at + w.startsOffset;
    && |w.chains| == |w.infoOffsets|
    && Written(file, at, w.Header())
    && Written(file, starts, [Number(4, |w.infoOffsets|)])
    && Written(file, starts + 4, Numbers(4, w.infoOffsets))
    && (forall i :: 0 <= i < |w.chains| && w.infoOffsets[i] != 0 ==>
          ChainsAt(file, starts + w.infoOffsets[i], w.chains[i]))
    && Written(file, at + w.importsOffset, Numbers(4, w.ImportTable()))
    && (forall k :: 0 <= k < |w.imports| ==> ImportAt(file, at + w.symbolsOffset, w.imports[k]))
  }

  // ---------- Imports ----------

  lemma HeaderReads(file: seq<byte>, at: nat, w: Payload)
    requires Written(file, at, w.Header())
    ensures U32(file, at + 4) == w.startsOffset && U32(file, at + 8) == w.importsOffset
    ensures U32(file, at + 12) == w.symbolsOffset && U32(file, at + 16) == |w.imports|
  {
    hide LE, Written;
    FieldReads(file, at, w.Header(), 1);
    FieldReads(file, at, w.Header(), 2);
    FieldReads(file, at, w.Header(), 3);
    FieldReads(file, at, w.Header(), 4);
  }

  /** An ordinal means the import of that index, and nothing past the last one. */
  lemma ImportIsRead(file: seq<byte>, at: nat, w: Payload, ordinal: u32)
    requires PayloadAt(file, at, w)
    ensures ImportName(file, at, ordinal)
         == if ordinal < |w.imports| then Some(w.imports[ordinal].name) else None
  {
    hide LE, CString, Written, Stands, Payload.Header, ChainsAt, Numbers;
    HeaderReads(file, at, w);
    if ordinal < |w.imports| {
      var m := w.imports[ordinal];
      assert ImportAt(file, at + w.symbolsOffset, m);
      ArrayReads(file, at + w.importsOffset, 4, w.ImportTable(), ordinal);
      Divides(m.Entry(), 0x200, m.nameOffset, m.libOrdinal + 0x100 * m.weak);
      CStringReads(file, at + w.symbolsOffset + m.nameOffset, m.name);
    }
  }

  /** What a packed pointer becomes: the base plus the target; or the address of the import that the
      ordinal names plus the addend as a signed byte, if the import is there and resolves. */
  function PointerValue(host: Host, base: u64, w: Payload, p: Pointer): Option<u64> {
    match p
    case Rebase(target, _, _, _) => Some(Wrap64(base + target))
    case Bind(ordinal, addend, _, _) =>
      if ordinal < |w.imports| && w.imports[ordinal].name in host.resolve
      then Some(Wrap64(host.resolve[w.imports[ordinal].name] + if addend < 0x80 then addend else addend - 0x100))
      else None
  }

  /** The loader's value for a packed pointer of a written payload. */
  lemma PointerIsFixed(host: Host, base: u64, file: seq<byte>, at: nat, w: Payload, p: Pointer)
    requires PayloadAt(file, at, w) && p.Valid()
    ensures FixWord(host, base, file, at, Pack(p)).Word() == PointerValue(host, base, w, p)
    ensures FixWord(host, base, file, at, Pack(p)).Rebased? <==> p.Rebase?
  {
    hide Pack, ImportName, PayloadAt, IsBind, BindOrdinal, BindAddend, RebaseTarget, Wrap64;
    AccessorsMatchLayout(p);
    if p.Bind? {
      AddendAgreesBelow128(p);
      ImportIsRead(file, at, w, p.ordinal);
    }
  }

  // ---------- The pages whose chains are walked ----------

  datatype Page = Page(segment: nat, page: nat)
  {
    predicate Before(other: Page) {
      segment < other.segment || (segment == other.segment && page < other.page)
    }
  }

  /** The chains of segment `i` are walked: its info is inside the payload, its pointers have the one
      supported format, and it is recorded and mapped. */
  predicate Walked(w: Payload, datasize: u32, segments: seq<SegmentInfo>, i: nat) {
    && i < |w.infoOffsets| && i < |w.chains| && w.infoOffsets[i] != 0
    && w.startsOffset + w.infoOffsets[i] + 24 <= datasize
    && w.chains[i].pointerFormat == 6
    && i < |segments| && segments[i].mapped != 0
  }

  /** This page of a walked segment has one chain: neither none nor several, which set the top bit. */
  predicate HasStart(w: Payload, datasize: u32, segments: seq<SegmentInfo>, p: Page) {
    && Walked(w, datasize, segments, p.segment)
    && p.page < |w.chains[p.segment].pages| && w.chains[p.segment].pages[p.page] < 0x8000
  }

  /** Where in the image the chain of this page starts. */
  function PageStart(c: Chains, page: nat): u64
    requires page < |c.pages|
  {
    (c.segmentOffset + page * c.pageSize + c.pages[page]) % 0x1_0000_0000_0000_0000
  }

  /** The starts are those of the pages `list`: all pages of segments from `i` on that have a start,
      each once, in order. */
  ghost predicate Lists(w: Payload, datasize: u32, segments: seq<SegmentInfo>, i: nat, list: seq<Page>, starts: seq<nat>) {
    && |list| == |starts|
    && (forall k :: 0 <= k < |list| ==> i <= list[k].segment && HasStart(w, datasize, segments, list[k]))
    && (forall k :: 0 <= k < |list| ==> starts[k] == PageStart(w.chains[list[k].segment], list[k].page))
    && Ascends(list)
    && (forall p: Page {:trigger p in list} :: HasStart(w, datasize, segments, p) && i <= p.segment ==> p in list)
  }

  lemma ChainsRead(file: seq<byte>, seg: nat, c: Chains)
    requires ChainsAt(file, seg, c)
    ensures U16(file, seg + 4) == c.pageSize && U16(file, seg + 6) == c.pointerFormat
    ensures U64(file, seg + 8) == c.segmentOffset && U16(file, seg + 20) == |c.pages|
    ensures forall n :: 0 <= n < |c.pages| ==> U16(file, seg + 22 + 2 * n) == c.pages[n]
  {
    hide LE, Written, Numbers;
    FieldReads(file, seg, c.Fields(), 1);
    FieldReads(file, seg, c.Fields(), 2);
    FieldReads(file, seg, c.Fields(), 3);
    FieldReads(file, seg, c.Fields(), 5);
    forall n | 0 <= n < |c.pages| ensures U16(file, seg + 22 + 2 * n) == c.pages[n] {
      ArrayReads(file, seg + 22, 2, c.pages, n);
    }
  }

  /** The same for one segment, from one of its pages on. */
  ghost predicate ListsPages(c: Chains, i: nat, page: nat, list: seq<Page>, starts: seq<nat>) {
    PagesMatch(c, i, page, list, starts) && Ascends(list) && CoversPages(c, i, page, list)
  }

  ghost predicate PagesMatch(c: Chains, i: nat, page: nat, list: seq<Page>, starts: seq<nat>) {
    |list| == |starts| && forall k :: 0 <= k < |list| ==> PageMatches(c, i, page, list[k], starts[k])
  }

  predicate PageMatches(c: Chains, i: nat, page: nat, p: Page, start: nat) {
    p.segment == i && page <= p.page < |c.pages| && c.pages[p.page] < 0x8000 && start == PageStart(c, p.page)
  }

  ghost predicate Ascends(list: seq<Page>) {
    forall j, k :: 0 <= j < k < |list| ==> list[j].Before(list[k])
  }

  ghost predicate CoversPages(c: Chains, i: nat, page: nat, list: seq<Page>) {
    forall n :: page <= n < |c.pages| && c.pages[n] < 0x8000 ==> Page(i, n) in list
  }

  lemma {:induction false} SegmentPages(file: seq<byte>, seg: nat, c: Chains, i: nat, page: nat) returns (list: seq<Page>)
    requires ChainsAt(file, seg, c) && page <= |c.pages|
    ensures ListsPages(c, i, page, list, SegmentStarts(file, seg, page))
    decreases |c.pages| - page
  {
    hide U16, U64, ChainsAt, ListsPages, HasChain, ChainOffset, PageStart;
    ChainsRead(file, seg, c);
    if page == |c.pages| {
      list := [];
      NoPages(c, i, page);
    } else {
      var rest := SegmentPages(file, seg, c, i, page + 1);
      PageIsRead(file, seg, c, page);
      OnePage(c, i, page, rest, SegmentStarts(file, seg, page + 1));
      list := (if c.pages[page] < 0x8000 then [Page(i, page)] else []) + rest;
    }
  }

  lemma NoPages(c: Chains, i: nat, page: nat)
    requires page == |c.pages|
    ensures ListsPages(c, i, page, [], [])
  {
  }

  lemma PageIsRead(file: seq<byte>, seg: nat, c: Chains, page: nat)
    requires ChainsAt(file, seg, c) && page < |c.pages|
    ensures SegmentStarts(file, seg, page)
         == (if c.pages[page] < 0x8000 then [PageStart(c, page) as nat] else []) + SegmentStarts(file, seg, page + 1)
  {
    hide U16, U64, ChainsAt;
    ChainsRead(file, seg, c);
    var start := c.pages[page];
    Divides(start, 0x8000, if start < 0x8000 then 0 else 1, if start < 0x8000 then start else start - 0x8000);
    assert ChainOffset(file, seg, page) == PageStart(c, page);
  }

  lemma OnePage(c: Chains, i: nat, page: nat, rest: seq<Page>, tail: seq<nat>)
    requires page < |c.pages| && ListsPages(c, i, page + 1, rest, tail)
    ensures ListsPages(c, i, page, (if c.pages[page] < 0x8000 then [Page(i, page)] else []) + rest,
                       (if c.pages[page] < 0x8000 then [PageStart(c, page) as nat] else []) + tail)
  {
    hide PageStart, Ascends, CoversPages;
    if c.pages[page] < 0x8000 {
      var list, starts := [Page(i, page)] + rest, [PageStart(c, page) as nat] + tail;
      assert forall k :: 1 <= k < |list| ==> list[k] == rest[k - 1] && starts[k] == tail[k - 1];
      AscendsPrepend(c, i, page, rest, tail);
    } else {
      assert [] + rest == rest && [] + tail == tail;
    }
    CoversOneMore(c, i, page, rest);
  }

  lemma AscendsPrepend(c: Chains, i: nat, page: nat, rest: seq<Page>, tail: seq<nat>)
    requires PagesMatch(c, i, page + 1, rest, tail) && Ascends(rest)
    ensures Ascends([Page(i, page)] + rest)
  {
    hide PageStart;
    var list := [Page(i, page)] + rest;
    assert forall k :: 1 <= k < |list| ==> list[k] == rest[k - 1];
    assert forall k :: 0 <= k < |rest| ==> PageMatches(c, i, page + 1, rest[k], tail[k]);
  }

  lemma CoversOneMore(c: Chains, i: nat, page: nat, rest: seq<Page>)
    requires page < |c.pages| && CoversPages(c, i, page + 1, rest)
    ensures CoversPages(c, i, page, (if c.pages[page] < 0x8000 then [Page(i, page)] else []) + rest)
  {
  }

  lemma WalkedIsRead(file: seq<byte>, at: nat, w: Payload, datasize: u32, segments: seq<SegmentInfo>, i: nat)
    requires PayloadAt(file, at, w) && i < |w.infoOffsets|
    ensures U32(file, at + w.startsOffset + 4 + 4 * i) == w.infoOffsets[i]
    ensures HasChains(file, at + w.startsOffset, at + datasize, segments, i) <==> Walked(w, datasize, segments, i)
  {
    hide LE, Written, Stands, Numbers, ImportAt, ChainsAt;
    ArrayReads(file, at + w.startsOffset + 4, 4, w.infoOffsets, i);
    if w.infoOffsets[i] != 0 {
      ChainsRead(file, at + w.startsOffset + w.infoOffsets[i], w.chains[i]);
    }
  }

  lemma CountIsRead(file: seq<byte>, at: nat, w: Payload)
    requires PayloadAt(file, at, w)
    ensures U32(file, at + w.startsOffset) == |w.infoOffsets|
  {
    hide LE, Written;
    FieldReads(file, at + w.startsOffset, [Number(4, |w.infoOffsets|)], 0);
  }

  lemma {:induction false} ImagePages(file: seq<byte>, at: nat, w: Payload, datasize: u32, segments: seq<SegmentInfo>, i: nat)
    returns (list: seq<Page>)
    requires PayloadAt(file, at, w) && i <= |w.infoOffsets|
    ensures Lists(w, datasize, segments, i, list, ImageStarts(file, at + w.startsOffset, at + datasize, segments, i))
    decreases |w.infoOffsets| - i
  {
    hide U32, PayloadAt, SegmentStarts, HasChains, ChainsAt, Lists, ListsPages, Walked;
    var starts, end := at + w.startsOffset, at + datasize;
    CountIsRead(file, at, w);
    if i == |w.infoOffsets| {
      list := [];
      NoSegments(w, datasize, segments, i);
    } else {
      var rest := ImagePages(file, at, w, datasize, segments, i + 1);
      var tail := ImageStarts(file, starts, end, segments, i + 1);
      WalkedIsRead(file, at, w, datasize, segments, i);
      if Walked(w, datasize, segments, i) {
        var seg := starts + w.infoOffsets[i];
        InfoStands(file, at, w, datasize, segments, i);
        var here := SegmentPages(file, seg, w.chains[i], i, 0);
        list := here + rest;
        ListsAppend(w, datasize, segments, i, here, SegmentStarts(file, seg, 0), rest, tail);
      } else {
        list := rest;
        assert [] + tail == tail;
        SegmentSkipped(w, datasize, segments, i, rest, tail);
      }
    }
  }

  lemma NoSegments(w: Payload, datasize: u32, segments: seq<SegmentInfo>, i: nat)
    requires i == |w.infoOffsets|
    ensures Lists(w, datasize, segments, i, [], [])
  {
  }

  lemma SegmentSkipped(w: Payload, datasize: u32, segments: seq<SegmentInfo>, i: nat, rest: seq<Page>, tail: seq<nat>)
    requires Lists(w, datasize, segments, i + 1, rest, tail) && !Walked(w, datasize, segments, i)
    ensures Lists(w, datasize, segments, i, rest, tail)
  {
    hide Walked, PageStart;
  }

  lemma InfoStands(file: seq<byte>, at: nat, w: Payload, datasize: u32, segments: seq<SegmentInfo>, i: nat)
    requires PayloadAt(file, at, w) && Walked(w, datasize, segments, i)
    ensures i < |w.infoOffsets| && i < |w.chains|
    ensures ChainsAt(file, at + w.startsOffset + w.infoOffsets[i], w.chains[i])
  {
    hide ChainsAt, Written, ImportAt;
  }

  lemma ListsAppend(w: Payload, datasize: u32, segments: seq<SegmentInfo>, i: nat, here: seq<Page>, starts: seq<nat>,
                    rest: seq<Page>, restStarts: seq<nat>)
    requires Walked(w, datasize, segments, i) && ListsPages(w.chains[i], i, 0, here, starts)
    requires Lists(w, datasize, segments, i + 1, rest, restStarts)
    ensures Lists(w, datasize, segments, i, here + rest, starts + restStarts)
  {
    hide PageStart;
    forall p: Page | HasStart(w, datasize, segments, p) && i <= p.segment ensures p in here + rest {
      if p.segment == i {
        assert p == Page(i, p.page) && Page(i, p.page) in here;
      } else {
        assert p in rest;
      }
    }
  }

  /** Which chains a fixup command walks: with a header that fits, the chain of every page that has one,
      of every walked segment, each once and in order, and no others. A segment without chains is
      passed over, and does not end the walk. Without such a header, none. */
  lemma StartsAreListed(file: seq<byte>, at: u32, datasize: u32, w: Payload, segments: seq<SegmentInfo>)
    returns (list: seq<Page>)
    requires PayloadAt(file, at, w)
    ensures datasize >= 28 && w.startsOffset + 4 <= datasize ==>
      Lists(w, datasize, segments, 0, list, FixupStarts(file, at, datasize, segments))
    ensures datasize < 28 || w.startsOffset + 4 > datasize ==> FixupStarts(file, at, datasize, segments) == []
  {
    hide U32, ImageStarts, Written, Lists, ChainsAt;
    HeaderReads(file, at, w);
    list := ImagePages(file, at, w, datasize, segments, 0);
  }
}
