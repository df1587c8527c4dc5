/**
The ACPI handler itself: reference counts on identity-mapped pages, over the paging context.
*/
module AcpiHandler {
  import opened Wrappers
  import opened MemoryMap
  import opened Mapper
  import opened FrameAllocator
  import opened KernelRuns
  import opened Paging
  import opened AcpiRuns

  // ---------------------------------------------------------------- regions

  /** The part of `PhysicalMapping` that is read again when the region is released. */
  datatype PhysicalMapping = PhysicalMapping(physicalStart: nat, regionLength: nat, mappedLength: nat)

  /** What `map_physical_region` returns: `end` is the start of the last frame. */
  function MappingFor(address: nat, size: nat): PhysicalMapping {
    var start, end := FirstPage(address) * PAGE_SIZE, (EndPage(address, size) - 1) * PAGE_SIZE;
    PhysicalMapping(start, size, end + PAGE_SIZE - start)
  }

  /** `Page::from_start_address`, which insists on alignment. */
  function PageAt(address: nat): Option<nat> {
    if address % PAGE_SIZE == 0 then Some(address / PAGE_SIZE) else None
  }

  /** The pages that releasing a region goes over, unless an end of it is not aligned. */
  function PagesOf(region: PhysicalMapping): Option<(nat, nat)> {
    var start, end := PageAt(region.physicalStart), PageAt(region.physicalStart + region.mappedLength);
    if start.None? || end.None? then None else Some((start.value, end.value))
  }

  /** A region with all its pages held. */
  function HoldingOf(region: PhysicalMapping): Holding
    requires PagesOf(region).Some?
  {
    Holding(PagesOf(region).value.0, PagesOf(region).value.1, PagesOf(region).value.1)
  }

  ghost predicate OwnsRegion(regions: map<nat, Holding>, id: nat, region: PhysicalMapping) {
    PagesOf(region).Some? && id in regions && regions[id] == HoldingOf(region)
  }

  /** For every address and size, releasing a region goes over exactly the pages that mapping it
      went over: the exclusive range of pages is the inclusive range of frames. That range is never
      empty and holds exactly the pages that have a byte from `address` to `address + size` on them.
      The region starts with the first of them and is as long as all of them. */
  lemma RegionPagesMatch(address: nat, size: nat)
    ensures PagesOf(MappingFor(address, size)) == Some((FirstPage(address), EndPage(address, size)))
    ensures FirstPage(address) < EndPage(address, size)
    ensures forall p: nat :: FirstPage(address) <= p < EndPage(address, size) <==>
      p * 4096 <= address + size && address < (p + 1) * 4096
    ensures forall byte: nat :: address <= byte <= address + size ==>
      FirstPage(address) <= FirstPage(byte) < EndPage(address, size)
    ensures var r := MappingFor(address, size);
      && r.physicalStart <= address < r.physicalStart + 4096 && r.physicalStart % 4096 == 0
      && r.regionLength == size
      && r.mappedLength == 4096 * (EndPage(address, size) - FirstPage(address))
  {
    var r, first, last := MappingFor(address, size), FirstPage(address), EndPage(address, size) - 1;
    MultipleOfPage(first);
    MultipleOfPage(last + 1);
    assert r.physicalStart + r.mappedLength == (last + 1) * PAGE_SIZE;
  }

  /** The pages that a release goes over are those of the two ends, and it panics exactly when one of
      the ends is not the start of a page. */
  lemma PagesOfExact(region: PhysicalMapping, first: nat, end: nat)
    ensures PagesOf(region) == Some((first, end)) <==>
      first * 4096 == region.physicalStart && end * 4096 == region.physicalStart + region.mappedLength
    ensures PagesOf(region).None? <==>
      region.physicalStart % 4096 != 0 || (region.physicalStart + region.mappedLength) % 4096 != 0
  {
  }

  lemma PagesOrdered(region: PhysicalMapping)
    requires PagesOf(region).Some?
    ensures PagesOf(region).value.0 <= PagesOf(region).value.1
  {
  }

  lemma MultipleOfPage(p: nat)
    ensures (p * PAGE_SIZE) % PAGE_SIZE == 0 && p * PAGE_SIZE / PAGE_SIZE == p
  {
  }

  // ---------------------------------------------------------------- counts over a range of pages

  /** `refs'` has one more reference than `refs` on each page from `lo` to `hi`, and the same
      number elsewhere. */
  ghost predicate OneMoreOn(refs: map<nat, Entry>, refs': map<nat, Entry>, lo: nat, hi: nat) {
    forall p: nat :: CountOf(refs', p) == CountOf(refs, p) + if lo <= p < hi then 1 else 0
  }

  ghost predicate AllReferenced(refs: map<nat, Entry>, lo: nat, hi: nat) {
    forall p: nat :: lo <= p < hi ==> 0 < CountOf(refs, p)
  }

  lemma OneMoreConcat(refs: map<nat, Entry>, refs1: map<nat, Entry>, refs2: map<nat, Entry>, lo: nat, mid: nat, hi: nat)
    requires lo <= mid <= hi && OneMoreOn(refs, refs1, lo, mid) && OneMoreOn(refs1, refs2, mid, hi)
    ensures OneMoreOn(refs, refs2, lo, hi)
  {
    forall p: nat
      ensures CountOf(refs2, p) == CountOf(refs, p) + if lo <= p < hi then 1 else 0
    {
      assert CountOf(refs1, p) == CountOf(refs, p) + if lo <= p < mid then 1 else 0;
    }
  }

  /** Every byte of the operand lies on a page with a reference. */
  ghost predicate OperandCovered(refs: map<nat, Entry>, address: nat, size: nat) {
    forall byte: nat :: address <= byte < address + size ==> 0 < CountOf(refs, FirstPage(byte))
  }

  /** A reference to the page of the address covers the operand exactly when the operand ends on
      that page or the next page had a reference already. */
  lemma CoveredExact(refs: map<nat, Entry>, refs': map<nat, Entry>, address: nat, size: nat)
    requires 0 < size <= PAGE_SIZE && OneMoreOn(refs, refs', FirstPage(address), FirstPage(address) + 1)
    ensures OperandCovered(refs', address, size) <==>
      address % PAGE_SIZE + size <= PAGE_SIZE || 0 < CountOf(refs, FirstPage(address) + 1)
  {
    var page := FirstPage(address);
    assert CountOf(refs', page + 1) == CountOf(refs, page + 1);
    if PAGE_SIZE < address % PAGE_SIZE + size {
      var last := address + size - 1;
      assert FirstPage(last) == page + 1;
    }
    forall byte: nat | address <= byte < address + size
      ensures FirstPage(byte) == page || (FirstPage(byte) == page + 1 && PAGE_SIZE < address % PAGE_SIZE + size)
    {
    }
  }

  /** Two bytes at 4095: the access maps page 0 and touches page 1. */
  lemma AccessCounterexample(refs: map<nat, Entry>, refs': map<nat, Entry>)
    requires OneMoreOn(refs, refs', FirstPage(4095), FirstPage(4095) + 1) && 1 !in refs
    ensures !OperandCovered(refs', 4095, 2)
  {
    CoveredExact(refs, refs', 4095, 2);
  }

  // ---------------------------------------------------------------- the events of a region

  /** Who the reference to a mapped page belongs to: the region with that number, or, without
      one, nobody, which makes it permanent. */
  type Owner = Option<nat>

  /** The owner is a region that is mapped up to page `p` and goes on to `end`. */
  ghost predicate Owns(s: AcpiState, owner: Owner, lo: nat, p: nat, end: nat) {
    owner.Some? ==> owner.value in s.regions && s.regions[owner.value] == Holding(lo, p, end)
  }

  ghost function TakeEvent(owner: Owner, p: nat): AcpiEvent {
    if owner.Some? then Extend(owner.value) else Pin(p * PAGE_SIZE)
  }

  /** The events `es` took a reference to each page from `p` to `q` for the owner, whose region
      started at `lo`, and left the pages of others alone. */
  ghost predicate Took(lookup: Lookup, m: seq<Region>, s: AcpiState, es: seq<AcpiEvent>, s': AcpiState,
                       owner: Owner, lo: nat, p: nat, q: nat, end: nat) {
    && AcpiRun(lookup, m, s, es, s') && Foreign(s') == Foreign(s)
    && OneMoreOn(s.refs, s'.refs, p, q)
    && (owner.Some? ==> s'.regions == s.regions[owner.value := Holding(lo, q, end)] && s'.pins == s.pins)
    && (owner.None? ==> s'.regions == s.regions && s'.pins == s.pins + multiset(Interval(p, q)))
  }

  lemma IntervalSplit(p: nat, q: nat, r: nat)
    requires p <= q <= r
    ensures multiset(Interval(p, r)) == multiset(Interval(p, q)) + multiset(Interval(q, r))
  {
    assert Interval(p, r) == Interval(p, q) + Interval(q, r);
  }

  lemma TookConcat(lookup: Lookup, m: seq<Region>, s: AcpiState, es: seq<AcpiEvent>, s1: AcpiState,
                   es1: seq<AcpiEvent>, s2: AcpiState, owner: Owner, lo: nat, p: nat, q: nat, r: nat, end: nat)
    requires p <= q <= r && Took(lookup, m, s, es, s1, owner, lo, p, q, end)
    requires Took(lookup, m, s1, es1, s2, owner, lo, q, r, end)
    ensures Took(lookup, m, s, es + es1, s2, owner, lo, p, r, end)
  {
    AcpiRunConcat(lookup, m, s, es, s1, es1, s2);
    OneMoreConcat(s.refs, s1.refs, s2.refs, p, q, r);
    IntervalSplit(p, q, r);
  }

  lemma TookNothing(lookup: Lookup, m: seq<Region>, s: AcpiState, es: seq<AcpiEvent>, s': AcpiState,
                    owner: Owner, lo: nat, p: nat, end: nat)
    requires Owns(s, owner, lo, p, end) && AcpiRun(lookup, m, s, es, s') && Foreign(s') == Foreign(s)
    requires s' == s.(kernel := s'.kernel)
    ensures Took(lookup, m, s, es, s', owner, lo, p, p, end)
  {
    assert Interval(p, p) == {};
  }

  lemma TakeStep(lookup: Lookup, m: seq<Region>, s: AcpiState, owner: Owner, lo: nat, p: nat, end: nat, s': AcpiState)
    requires Owns(s, owner, lo, p, end) && p < end
    requires HandlerMap(lookup, m, s.kernel, s.refs, p, s'.kernel, s'.refs)
    requires owner.Some? ==> s'.regions == s.regions[owner.value := Holding(lo, p + 1, end)] && s'.pins == s.pins
    requires owner.None? ==> s'.regions == s.regions && s'.pins == s.pins + multiset{p}
    ensures AcpiStep(lookup, m, s, TakeEvent(owner, p), s') && OneMoreOn(s.refs, s'.refs, p, p + 1)
  {
    MultipleOfPage(p);
  }

  /** Drawing page tables and then mapping page `p` for its owner. */
  lemma TakeRun(lookup: Lookup, m: seq<Region>, s: AcpiState, draws: seq<Event>, mid: State,
                owner: Owner, lo: nat, p: nat, end: nat, s': AcpiState)
    requires Run(lookup, m, s.kernel, draws, mid) && DrawEvents(draws) && mid.mapping == s.kernel.mapping
    requires Owns(s, owner, lo, p, end) && p < end
    requires HandlerMap(lookup, m, mid, s.refs, p, s'.kernel, s'.refs)
    requires owner.Some? ==> s'.regions == s.regions[owner.value := Holding(lo, p + 1, end)] && s'.pins == s.pins
    requires owner.None? ==> s'.regions == s.regions && s'.pins == s.pins + multiset{p}
    ensures Took(lookup, m, s, Draws(draws) + [TakeEvent(owner, p)], s', owner, lo, p, p + 1, end)
  {
    var s1 := s.(kernel := mid);
    DrawsRun(lookup, m, s, draws, mid);
    TakeStep(lookup, m, s1, owner, lo, p, end, s');
    AcpiRunSnoc(lookup, m, s, Draws(draws), s1, TakeEvent(owner, p), s');
    HandlerMapForeign(lookup, m, s1, p, s');
    assert Interval(p, p + 1) == {p};
  }

  /** What an access has done once its page is taken. */
  lemma Accessed(lookup: Lookup, m: seq<Region>, s: AcpiState, es: seq<AcpiEvent>, s': AcpiState,
                 address: nat, size: nat)
    requires 0 < size <= PAGE_SIZE
    requires Took(lookup, m, s, es, s', None, FirstPage(address),
                  FirstPage(address), FirstPage(address) + 1, FirstPage(address) + 1)
    ensures s'.regions == s.regions && s'.pins == s.pins + multiset{FirstPage(address)}
    ensures OneMoreOn(s.refs, s'.refs, FirstPage(address), FirstPage(address) + 1)
    ensures OperandCovered(s'.refs, address, size) <==>
      address % PAGE_SIZE + size <= PAGE_SIZE || 0 < CountOf(s.refs, FirstPage(address) + 1)
  {
    assert Interval(FirstPage(address), FirstPage(address) + 1) == {FirstPage(address)};
    CoveredExact(s.refs, s'.refs, address, size);
  }

  /** Opening a region and taking its pages. */
  lemma OpenAndTake(lookup: Lookup, m: seq<Region>, s: AcpiState, id: nat, address: nat, size: nat,
                    s1: AcpiState, es: seq<AcpiEvent>, s2: AcpiState)
    requires id !in s.regions && AcpiRun(lookup, m, s1, es, s2)
    requires s1 == s.(
      regions := s.regions[id := Holding(FirstPage(address), FirstPage(address), EndPage(address, size))])
    ensures AcpiRun(lookup, m, s, [Open(id, address, size)] + es, s2)
  {
    var e := Open(id, address, size);
    assert AcpiStep(lookup, m, s, e, s1);
    AcpiRunCons(lookup, m, s, e, s1, es, s2);
  }

  /** What dropping a reference to `p` means for the kernel. */
  ghost function ReleaseEvents(s: AcpiState, p: nat): seq<Event> {
    if p in s.refs && s.refs[p].count == 1 then [KernelRuns.Unmap(s.refs[p].guard)] else []
  }

  /** The references to the pages from `lo` to `p` were dropped and the pages of others left alone.
      For a region that was held with number `id`, `es` are the events. */
  ghost predicate Dropped(lookup: Lookup, m: seq<Region>, s: AcpiState, ks: seq<Event>, es: seq<AcpiEvent>,
                          s': AcpiState, owner: Owner, lo: nat, p: nat, end: nat) {
    && Foreign(s') == Foreign(s) && s'.pins == s.pins
    && OneMoreOn(s'.refs, s.refs, lo, p)
    && if owner.Some? then
         AcpiRun(lookup, m, s, es, s') && s'.regions == s.regions[owner.value := Holding(p, end, end)]
       else
         Run(lookup, m, s.kernel, ks, s'.kernel) && s'.regions == s.regions
  }

  lemma DroppedNothing(lookup: Lookup, m: seq<Region>, s: AcpiState, owner: Owner, lo: nat, end: nat)
    requires owner.Some? ==> owner.value in s.regions && s.regions[owner.value] == Holding(lo, end, end)
    ensures Dropped(lookup, m, s, [], [], s, owner, lo, lo, end)
  {
  }

  lemma DropCounts(lookup: Lookup, m: seq<Region>, s: AcpiState, p: nat, s': AcpiState)
    requires HandlerUnmap(lookup, m, s.kernel, s.refs, p, s'.kernel, s'.refs)
    ensures OneMoreOn(s'.refs, s.refs, p, p + 1)
  {
  }

  lemma DropKernel(lookup: Lookup, m: seq<Region>, k0: State, ks: seq<Event>, s: AcpiState, p: nat, s': AcpiState)
    requires Run(lookup, m, k0, ks, s.kernel) && HandlerUnmap(lookup, m, s.kernel, s.refs, p, s'.kernel, s'.refs)
    ensures Run(lookup, m, k0, ks + ReleaseEvents(s, p), s'.kernel)
  {
    if s.refs[p].count == 1 {
      RunSnoc(lookup, m, k0, ks, s.kernel, KernelRuns.Unmap(s.refs[p].guard), s'.kernel);
    } else {
      assert ks + [] == ks;
    }
  }

  lemma OneMoreBack(refs: map<nat, Entry>, refs1: map<nat, Entry>, refs2: map<nat, Entry>, lo: nat, p: nat)
    requires lo <= p && OneMoreOn(refs, refs1, p, p + 1) && OneMoreOn(refs1, refs2, lo, p)
    ensures OneMoreOn(refs, refs2, lo, p + 1)
  {
    forall q: nat
      ensures CountOf(refs2, q) == CountOf(refs, q) + if lo <= q < p + 1 then 1 else 0
    {
      assert CountOf(refs1, q) == CountOf(refs, q) + if p <= q < p + 1 then 1 else 0;
    }
  }

  /** One more page. */
  lemma DropRound(lookup: Lookup, m: seq<Region>, s0: AcpiState, ks: seq<Event>, es: seq<AcpiEvent>, s: AcpiState,
                  owner: Owner, lo: nat, p: nat, end: nat, s': AcpiState)
    requires lo <= p < end && Dropped(lookup, m, s0, ks, es, s, owner, lo, p, end)
    requires HandlerUnmap(lookup, m, s.kernel, s.refs, p, s'.kernel, s'.refs) && s.refs[p].guard.page == p
    requires s'.pins == s.pins
    requires s'.regions == if owner.Some? then s.regions[owner.value := Holding(p + 1, end, end)] else s.regions
    ensures Dropped(lookup, m, s0, ks + ReleaseEvents(s, p),
                    if owner.Some? then es + [Release(owner.value)] else es, s', owner, lo, p + 1, end)
  {
    HandlerUnmapForeign(lookup, m, s, p, s');
    DropCounts(lookup, m, s, p, s');
    OneMoreBack(s'.refs, s.refs, s0.refs, lo, p);
    if owner.Some? {
      assert AcpiStep(lookup, m, s, Release(owner.value), s');
      AcpiRunSnoc(lookup, m, s0, es, s, Release(owner.value), s');
    } else {
      DropKernel(lookup, m, s0.kernel, ks, s, p, s');
    }
  }

  // ---------------------------------------------------------------- the handler

  /** Why a frame without a reference cannot get one, as seen in the kernel afterwards: its type is
      not known or not one of the three accepted, its page is mapped, the walk ends at a huge page,
      or no frame is left for a page table. */
  ghost predicate Refused(lookup: Lookup, m: seq<Region>, k: State, frame: nat, walk: Walk) {
    || (var ty := GetFrameTy(lookup, m, frame);
        ty != Some(Reserved) && ty != Some(FrameZero) && ty != Some(KernelStack))
    || frame in k.mapping
    || walk.huge
    || (0 < walk.missing && NoneFree(m, k.used, k.next))
  }

  /** Mapping the frames from `lo` on stopped at frame `p`: it had no reference and cannot get one. */
  ghost predicate Stopped(lookup: Lookup, m: seq<Region>, s: AcpiState, s': AcpiState,
                          lo: nat, walks: seq<Walk>, p: nat) {
    && lo <= p < lo + |walks| && CountOf(s.refs, p) == 0
    && Refused(lookup, m, s'.kernel, p, walks[p - lo])
  }

  lemma StoppedAt(lookup: Lookup, m: seq<Region>, s0: AcpiState, s: AcpiState, s': AcpiState,
                  lo: nat, walks: seq<Walk>, p: nat)
    requires lo <= p < lo + |walks| && OneMoreOn(s0.refs, s.refs, lo, p) && CountOf(s.refs, p) == 0
    requires Refused(lookup, m, s'.kernel, p, walks[p - lo])
    ensures Stopped(lookup, m, s0, s', lo, walks, p)
  {
  }

  /** Every key has a positive count and a guard of its own page that still exists. */
  ghost predicate RefsFit(refs: map<nat, Entry>, guards: set<Guard>) {
    forall p: nat :: p in refs ==> 0 < refs[p].count && refs[p].guard.page == p && refs[p].guard in guards
  }

  lemma RefsFitWithout(refs: map<nat, Entry>, guards: set<Guard>, p: nat)
    requires RefsFit(refs, guards) && p in refs
    ensures RefsFit(refs - {p}, guards - {refs[p].guard})
  {
  }

  class Handler {
    const ctx: PagingContext
    var refs: map<nat, Entry>
    // The regions that are mapped, by number, and the references that nobody will give back.
    ghost var regions: map<nat, Holding>
    ghost var pins: multiset<nat>

    ghost predicate Valid()
      reads this`refs, ctx
    {
      && ctx.Valid()
      && RefsFit(refs, ctx.guards)
    }

    ghost function View(): AcpiState
      requires ctx.allocator.Valid()
      reads this, ctx, ctx.allocator, ctx.allocator.bitmap
    {
      AcpiState(ctx.View(), refs, regions, pins)
    }

    ghost predicate Runs(before: AcpiState, es: seq<AcpiEvent>, after: AcpiState) {
      AcpiRun(ctx.allocator.lookup, ctx.allocator.memoryMap, before, es, after)
    }

    constructor (ctx: PagingContext)
      requires ctx.Valid()
      ensures Valid() && this.ctx == ctx && View() == AcpiState(ctx.View(), map[], map[], multiset{})
    {
      this.ctx := ctx;
      refs := map[];
      regions, pins := map[], multiset{};
    }

    /** Takes a reference to a frame, identity mapping it if there was none. `ok` is false when
        the mapping fails, on which the kernel panics. */
    method Map(frame: nat, walk: Walk) returns (ok: bool, ghost draws: seq<Event>, ghost mid: State)
      requires Valid() && walk.Valid()
      modifies this`refs, ctx, ctx.allocator`nextUsable, ctx.allocator.bitmap
      ensures Valid()
      ensures ctx.Runs(old(ctx.View()), draws, mid) && DrawEvents(draws)
      ensures OnlyDrew(ctx.allocator.memoryMap, old(ctx.View()), mid) && mid.mapping == old(ctx.table)
      ensures frame in old(refs) ==> ok && mid == old(ctx.View())
      ensures ok ==> HandlerMap(ctx.allocator.lookup, ctx.allocator.memoryMap, mid, old(refs), frame, ctx.View(), refs)
      ensures ok && frame !in old(refs) ==> !walk.huge && |Drawn(old(ctx.View()), mid)| == walk.missing
      ensures !ok ==> refs == old(refs) && ctx.View() == mid
      ensures !ok ==> Refused(ctx.allocator.lookup, ctx.allocator.memoryMap, ctx.View(), frame, walk)
    {
      draws, mid := [], ctx.View();
      if frame in refs {
        refs := refs[frame := refs[frame].(count := refs[frame].count + 1)];
        return true, draws, mid;
      }
      var r;
      r, draws, mid := ctx.MmapDev(frame, true, walk);
      if !r.Mapped? {
        return false, draws, mid;
      }
      refs := refs[frame := Entry(1, r.guard)];
      ok := true;
    }

    /** Drops a reference to a page, unmapping it with the last one. `ok` is false when there is
        no reference, on which the kernel panics. */
    method Unmap(page: nat) returns (ok: bool)
      requires Valid()
      modifies this`refs, ctx`table, ctx`guards, ctx.allocator.bitmap
      ensures Valid()
      ensures ok <==> page in old(refs)
      ensures ok ==>
        HandlerUnmap(ctx.allocator.lookup, ctx.allocator.memoryMap, old(ctx.View()), old(refs), page, ctx.View(), refs)
      ensures !ok ==> refs == old(refs) && ctx.View() == old(ctx.View())
    {
      if page !in refs {
        return false;
      }
      var count := refs[page].count - 1;
      if count == 0 {
        var guard := refs[page].guard;
        RefsFitWithout(refs, ctx.guards, page);
        refs := refs - {page};
        ok := ctx.UnmapGuarded(guard);
      } else {
        refs := refs[page := refs[page].(count := count)];
        ok := true;
      }
    }

    /** One reference to one frame for its owner: all that the AML reads and writes do before they
        touch memory. Without success the page tables that were drawn stay, and nothing else. */
    method Take(frame: nat, walk: Walk, ghost owner: Owner, ghost lo: nat, ghost end: nat)
      returns (ok: bool, ghost es: seq<AcpiEvent>, ghost done: nat)
      requires Valid() && walk.Valid() && Owns(View(), owner, lo, frame, end) && frame < end
      modifies this, ctx, ctx.allocator`nextUsable, ctx.allocator.bitmap
      ensures Valid()
      ensures Took(ctx.allocator.lookup, ctx.allocator.memoryMap, old(View()), es, View(), owner, lo, frame, done, end)
      ensures done == if ok then frame + 1 else frame
      ensures !ok ==> frame !in old(refs)
      ensures !ok ==> Refused(ctx.allocator.lookup, ctx.allocator.memoryMap, ctx.View(), frame, walk)
    {
      ghost var s := View();
      ghost var draws, mid;
      ok, draws, mid := Map(frame, walk);
      es, done := Draws(draws), frame;
      if !ok {
        DrawsRun(ctx.allocator.lookup, ctx.allocator.memoryMap, s, draws, mid);
        TookNothing(ctx.allocator.lookup, ctx.allocator.memoryMap, s, es, View(), owner, lo, frame, end);
        return;
      }
      if owner.Some? {
        regions := regions[owner.value := Holding(lo, frame + 1, end)];
      } else {
        pins := pins + multiset{frame};
      }
      TakeRun(ctx.allocator.lookup, ctx.allocator.memoryMap, s, draws, mid, owner, lo, frame, end, View());
      es, done := es + [TakeEvent(owner, frame)], frame + 1;
    }

    /** One round of the mapping loops, after the frames from `lo` on, which led from `s0` to `s`. */
    method TakeNext(frame: nat, walks: seq<Walk>, ghost s0: AcpiState, ghost es: seq<AcpiEvent>, ghost s: AcpiState,
                    ghost owner: Owner, lo: nat, ghost end: nat)
      returns (ok: bool, ghost es': seq<AcpiEvent>, ghost s': AcpiState, ghost done: nat)
      requires Valid() && View() == s && lo <= frame < end
      requires |walks| == end - lo && forall i :: 0 <= i < |walks| ==> walks[i].Valid()
      requires Took(ctx.allocator.lookup, ctx.allocator.memoryMap, s0, es, s, owner, lo, lo, frame, end)
      modifies this, ctx, ctx.allocator`nextUsable, ctx.allocator.bitmap
      ensures Valid() && View() == s'
      ensures Took(ctx.allocator.lookup, ctx.allocator.memoryMap, s0, es', s', owner, lo, lo, done, end)
      ensures done == if ok then frame + 1 else frame
      ensures !ok ==> Stopped(ctx.allocator.lookup, ctx.allocator.memoryMap, s0, s', lo, walks, done)
    {
      ghost var taken;
      ok, taken, done := Take(frame, walks[frame - lo], owner, lo, end);
      es', s' := es + taken, View();
      TookConcat(ctx.allocator.lookup, ctx.allocator.memoryMap, s0, es, s, taken, s', owner, lo, lo, frame, done, end);
      if !ok {
        StoppedAt(ctx.allocator.lookup, ctx.allocator.memoryMap, s0, s, s', lo, walks, frame);
      }
    }

    /** The loop of `map_physical_region` and, without an owner, of the table-pinning code: one more
        reference on each frame from `lo` to `done`, where it stops. It can only fail on a frame
        without a reference. */
    method MapFrames(lo: nat, hi: nat, walks: seq<Walk>, ghost owner: Owner)
      returns (ok: bool, ghost es: seq<AcpiEvent>, ghost done: nat)
      requires Valid() && lo <= hi && |walks| == hi - lo && forall i :: 0 <= i < |walks| ==> walks[i].Valid()
      requires Owns(View(), owner, lo, lo, hi)
      modifies this, ctx, ctx.allocator`nextUsable, ctx.allocator.bitmap
      ensures Valid()
      ensures Took(ctx.allocator.lookup, ctx.allocator.memoryMap, old(View()), es, View(), owner, lo, lo, done, hi)
      ensures lo <= done <= hi && (ok <==> done == hi)
      ensures !ok ==> Stopped(ctx.allocator.lookup, ctx.allocator.memoryMap, old(View()), View(), lo, walks, done)
    {
      es, done := [], lo;
      ghost var before, s := View(), View();
      TookNothing(ctx.allocator.lookup, ctx.allocator.memoryMap, before, es, s, owner, lo, lo, hi);
      var frame := lo;
      while frame < hi
        invariant Valid() && View() == s && lo <= frame == done <= hi
        invariant Took(ctx.allocator.lookup, ctx.allocator.memoryMap, before, es, s, owner, lo, lo, done, hi)
      {
        ok, es, s, done := TakeNext(frame, walks, before, es, s, owner, lo, hi);
        if !ok {
          return;
        }
        frame := frame + 1;
      }
      ok := true;
    }

    /** Maps every frame from the one of `address` to the one of `address + size`, for the region
        with the new number `id`. `None` stands for a panic at frame `done`. */
    method MapPhysicalRegion(address: nat, size: nat, walks: seq<Walk>, ghost id: nat)
      returns (r: Option<PhysicalMapping>, ghost es: seq<AcpiEvent>, ghost done: nat)
      requires Valid() && id !in regions
      requires |walks| == EndPage(address, size) - FirstPage(address)
      requires forall i :: 0 <= i < |walks| ==> walks[i].Valid()
      modifies this, ctx, ctx.allocator`nextUsable, ctx.allocator.bitmap
      ensures Valid() && Runs(old(View()), es, View()) && Foreign(View()) == Foreign(old(View()))
      ensures r.Some? ==> r.value == MappingFor(address, size)
      ensures r.Some? ==> pins == old(pins)
      ensures r.Some? ==>
        regions == old(regions)[id := Holding(FirstPage(address), EndPage(address, size), EndPage(address, size))]
      ensures r.Some? ==> OneMoreOn(old(refs), refs, FirstPage(address), EndPage(address, size))
      ensures r.None? ==>
        Stopped(ctx.allocator.lookup, ctx.allocator.memoryMap, old(View()), View(), FirstPage(address), walks, done)
    {
      ghost var before := View();
      var first, end := FirstPage(address), EndPage(address, size);
      RegionPagesMatch(address, size);
      regions := regions[id := Holding(first, first, end)];
      ghost var afterOpen := View();
      var ok;
      ok, es, done := MapFrames(first, end, walks, Some(id));
      OpenAndTake(ctx.allocator.lookup, ctx.allocator.memoryMap, before, id, address, size, afterOpen, es, View());
      es := [Open(id, address, size)] + es;
      r := if ok then Some(MappingFor(address, size)) else None;
    }

    /** The frames of a table, from the one of `address` to the one of `address + length`, are
        mapped for good. `ok` is false on a panic at frame `done`. */
    method PinTable(address: nat, length: nat, walks: seq<Walk>)
      returns (ok: bool, ghost es: seq<AcpiEvent>, ghost done: nat)
      requires Valid()
      requires |walks| == EndPage(address, length) - FirstPage(address)
      requires forall i :: 0 <= i < |walks| ==> walks[i].Valid()
      modifies this, ctx, ctx.allocator`nextUsable, ctx.allocator.bitmap
      ensures Valid() && Runs(old(View()), es, View()) && Foreign(View()) == Foreign(old(View()))
      ensures ok ==> regions == old(regions)
      ensures ok ==> pins == old(pins) + multiset(Interval(FirstPage(address), EndPage(address, length)))
      ensures ok ==> OneMoreOn(old(refs), refs, FirstPage(address), EndPage(address, length))
      ensures !ok ==>
        Stopped(ctx.allocator.lookup, ctx.allocator.memoryMap, old(View()), View(), FirstPage(address), walks, done)
    {
      RegionPagesMatch(address, length);
      ok, es, done := MapFrames(FirstPage(address), EndPage(address, length), walks, None);
    }

    /** What the AML reads and writes of `size` bytes do before they touch memory: the page of the
        address gets a reference that nobody gives back. The operand is mapped exactly when it ends
        on that page or the next page was mapped already. */
    method Access(address: nat, ghost size: nat, walk: Walk) returns (ok: bool, ghost es: seq<AcpiEvent>)
      requires Valid() && walk.Valid() && size in {1, 2, 4, 8}
      modifies this, ctx, ctx.allocator`nextUsable, ctx.allocator.bitmap
      ensures Valid() && Runs(old(View()), es, View()) && Foreign(View()) == Foreign(old(View()))
      ensures ok ==> regions == old(regions) && pins == old(pins) + multiset{FirstPage(address)}
      ensures ok ==> (OperandCovered(refs, address, size) <==>
        address % PAGE_SIZE + size <= PAGE_SIZE || 0 < CountOf(old(refs), FirstPage(address) + 1))
      ensures ok ==> OneMoreOn(old(refs), refs, FirstPage(address), FirstPage(address) + 1)
      ensures !ok ==> FirstPage(address) !in old(refs)
      ensures !ok ==> Refused(ctx.allocator.lookup, ctx.allocator.memoryMap, ctx.View(), FirstPage(address), walk)
    {
      var page := FirstPage(address);
      ghost var done;
      ok, es, done := Take(page, walk, None, page, page + 1);
      if ok {
        Accessed(ctx.allocator.lookup, ctx.allocator.memoryMap, old(View()), es, View(), address, size);
      }
    }

    /** One round of releasing, after the pages from `lo` on, which led from `s0` to `s`. */
    method Drop(page: nat, ghost s0: AcpiState, ghost ks: seq<Event>, ghost es: seq<AcpiEvent>, ghost s: AcpiState,
                ghost owner: Owner, ghost lo: nat, ghost end: nat)
      returns (ok: bool, ghost ks': seq<Event>, ghost es': seq<AcpiEvent>, ghost s': AcpiState, ghost done: nat)
      requires Valid() && View() == s && lo <= page < end
      requires Dropped(ctx.allocator.lookup, ctx.allocator.memoryMap, s0, ks, es, s, owner, lo, page, end)
      modifies this`refs, this`regions, ctx`table, ctx`guards, ctx.allocator.bitmap
      ensures Valid() && View() == s'
      ensures Dropped(ctx.allocator.lookup, ctx.allocator.memoryMap, s0, ks', es', s', owner, lo, done, end)
      ensures done == if ok then page + 1 else page
      ensures !ok ==> CountOf(s0.refs, page) == 0
    {
      ks', es', done := ks, es, page;
      ok := Unmap(page);
      if ok {
        if owner.Some? {
          regions := regions[owner.value := Holding(page + 1, end, end)];
        }
        DropRound(ctx.allocator.lookup, ctx.allocator.memoryMap, s0, ks, es, s, owner, lo, page, end, View());
        ks' := ks + ReleaseEvents(s, page);
        es' := if owner.Some? then es + [Release(owner.value)] else es;
        done := page + 1;
      }
      s' := View();
    }

    /** The loop of `unmap_physical_region`; `done` is where it stops. */
    method DropPages(start: nat, end: nat, ghost owner: Owner)
      returns (ok: bool, ghost ks: seq<Event>, ghost es: seq<AcpiEvent>, ghost done: nat)
      requires Valid() && start <= end
      requires owner.Some? ==> owner.value in regions && regions[owner.value] == Holding(start, end, end)
      modifies this`refs, this`regions, ctx`table, ctx`guards, ctx.allocator.bitmap
      ensures Valid()
      ensures Dropped(ctx.allocator.lookup, ctx.allocator.memoryMap, old(View()), ks, es, View(),
                      owner, start, done, end)
      ensures start <= done <= end && (ok <==> done == end)
      ensures !ok ==> CountOf(old(refs), done) == 0
    {
      ks, es, done := [], [], start;
      ghost var before, s := View(), View();
      DroppedNothing(ctx.allocator.lookup, ctx.allocator.memoryMap, before, owner, start, end);
      var page := start;
      while page < end
        invariant Valid() && View() == s && start <= page == done <= end
        invariant Dropped(ctx.allocator.lookup, ctx.allocator.memoryMap, before, ks, es, s, owner, start, done, end)
      {
        ok, ks, es, s, done := Drop(page, before, ks, es, s, owner, start, end);
        if !ok {
          return;
        }
        page := page + 1;
      }
      ok := true;
    }

    /** Releases a region. `ok` is false on a panic: a region that is not aligned, or a page that
        has no reference left. `owner` is the number of the region, if it is a held one, and then
        this is a run of releases. */
    method UnmapPhysicalRegion(region: PhysicalMapping, ghost owner: Owner)
      returns (ok: bool, ghost ks: seq<Event>, ghost es: seq<AcpiEvent>)
      requires Valid()
      requires owner.Some? ==> OwnsRegion(regions, owner.value, region)
      modifies this`refs, this`regions, ctx`table, ctx`guards, ctx.allocator.bitmap
      ensures Valid() && ctx.Runs(old(ctx.View()), ks, ctx.View()) && Foreign(View()) == Foreign(old(View()))
      ensures owner.Some? ==> Runs(old(View()), es, View())
      ensures ok <==>
        PagesOf(region).Some? && AllReferenced(old(refs), PagesOf(region).value.0, PagesOf(region).value.1)
      ensures ok ==> Dropped(ctx.allocator.lookup, ctx.allocator.memoryMap, old(View()), ks, es, View(),
                             owner, PagesOf(region).value.0, PagesOf(region).value.1, PagesOf(region).value.1)
    {
      ks, es := [], [];
      var pages := PagesOf(region);
      if pages.None? {
        return false, ks, es;
      }
      PagesOrdered(region);
      ghost var done;
      ghost var before := View();
      ok, ks, es, done := DropPages(pages.value.0, pages.value.1, owner);
      if owner.Some? {
        ks := KernelPart(ctx.allocator.lookup, ctx.allocator.memoryMap, before, es, View());
      }
    }
  }

  /** In every state that a run can reach, releasing a held region never panics. */
  lemma HeldRegionReleases(lookup: Lookup, m: seq<Region>, s0: AcpiState, es: seq<AcpiEvent>, s: AcpiState,
                           id: nat, region: PhysicalMapping)
    requires AcpiStart(m, s0) && AcpiRun(lookup, m, s0, es, s) && OwnsRegion(s.regions, id, region)
    ensures AllReferenced(s.refs, PagesOf(region).value.0, PagesOf(region).value.1)
  {
    ReferenceConservation(lookup, m, s0, es, s);
    forall p: nat | PagesOf(region).value.0 <= p < PagesOf(region).value.1
      ensures 0 < CountOf(s.refs, p)
    {
      assert UnmapSucceeds(s.kernel, s.refs, p);
    }
  }
}
