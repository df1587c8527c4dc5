/**
The operations on the shared paging context: mapping a page range, mapping a device frame and
unmapping it again.
*/
module Paging {
  import opened Wrappers
  import opened MemoryMap
  import opened Mapper
  import opened Bitmap
  import opened FrameAllocator
  import opened KernelRuns

  /** What `mmap_dev` comes to. */
  datatype MmapResult = Mapped(guard: Guard) | NotMapped(error: MapToError) | Panicked

  // ---------------------------------------------------------------- frames drawn between two states

  /** The frames handed out between `s` and `s'`. */
  ghost function Drawn(s: State, s': State): seq<nat>
    requires s.handed <= s'.handed
  {
    s'.handed[|s.handed|..]
  }

  /** Between `s` and `s'` some frames were drawn, each usable, fresh and distinct from the
      others, and nothing was released. */
  ghost predicate OnlyDrew(m: seq<Region>, s: State, s': State) {
    && s.handed <= s'.handed && s'.guards == s.guards
    && NoDuplicates(Drawn(s, s'))
    && (forall f :: f in Drawn(s, s') ==> f !in s.used && IsUsable(m, f))
    && s'.used == s.used + Elements(Drawn(s, s'))
  }

  ghost function Elements(xs: seq<nat>): set<nat> {
    set x | x in xs
  }

  /** One more allocation, successful or not, after some frames were drawn. */
  lemma DrawAnother(lookup: Lookup, m: seq<Region>, s: State, es: seq<Event>, s1: State, e: Event, s2: State)
    requires e.Allocate? || e.Exhausted?
    requires Run(lookup, m, s, es, s1) && OnlyDrew(m, s, s1) && Step(lookup, m, s1, e, s2)
    ensures Run(lookup, m, s, es + [e], s2) && OnlyDrew(m, s, s2)
    ensures Drawn(s, s2) == Drawn(s, s1) + if e.Allocate? then [e.frame] else []
  {
    RunSnoc(lookup, m, s, es, s1, e, s2);
    if e.Allocate? {
      assert Drawn(s, s2) == Drawn(s, s1) + [e.frame];
      assert e.frame !in Drawn(s, s1);
    }
  }

  lemma DistinctConcat(xs: seq<nat>, ys: seq<nat>)
    requires NoDuplicates(xs) && NoDuplicates(ys)
    requires forall y :: y in ys ==> y !in xs
    ensures NoDuplicates(xs + ys)
  {
    forall i, j | 0 <= i < j < |xs + ys|
      ensures (xs + ys)[i] != (xs + ys)[j]
    {
      if i < |xs| <= j {
        assert (xs + ys)[j] == ys[j - |xs|] && ys[j - |xs|] in ys;
        assert (xs + ys)[i] == xs[i] && xs[i] in xs;
      }
    }
  }

  lemma DrawnConcat(m: seq<Region>, s: State, s1: State, s2: State)
    requires OnlyDrew(m, s, s1) && OnlyDrew(m, s1, s2)
    ensures OnlyDrew(m, s, s2) && Drawn(s, s2) == Drawn(s, s1) + Drawn(s1, s2)
  {
    assert Drawn(s, s2) == Drawn(s, s1) + Drawn(s1, s2);
    assert forall f :: f in Drawn(s, s1) ==> f in Elements(Drawn(s, s1));
    DistinctConcat(Drawn(s, s1), Drawn(s1, s2));
  }

  /** Why a page could not be mapped, as seen in the state afterwards. */
  ghost predicate Explains(error: MapToError, m: seq<Region>, s: State, page: nat, walk: Walk) {
    match error
    case PageAlreadyMapped => page in s.mapping
    case ParentEntryHugePage => page !in s.mapping && walk.huge
    case FrameAllocationFailed => NoneFree(m, s.used, s.next)
  }

  lemma {:induction false} DistinctCount(xs: seq<nat>)
    requires NoDuplicates(xs)
    ensures |Elements(xs)| == |xs|
  {
    if xs != [] {
      var k := |xs| - 1;
      DistinctCount(xs[..k]);
      assert xs == xs[..k] + [xs[k]];
      assert Elements(xs) == Elements(xs[..k]) + {xs[k]};
      assert xs[k] !in Elements(xs[..k]);
    }
  }

  /** The number of used frames grows by exactly the number of frames drawn. */
  lemma DrawnCount(m: seq<Region>, s: State, s': State)
    requires OnlyDrew(m, s, s')
    ensures |s'.used| == |s.used| + |Drawn(s, s')|
  {
    DistinctCount(Drawn(s, s'));
    assert s.used !! Elements(Drawn(s, s'));
  }

  lemma {:induction false} SumMissingSnoc(walks: seq<Walk>, i: nat)
    requires i < |walks|
    ensures SumMissing(walks[..i + 1]) == SumMissing(walks[..i]) + walks[i].missing
    decreases i
  {
    assert walks[..i + 1][0] == walks[0];
    assert walks[..i + 1][1..] == walks[1..][..i];
    if i != 0 {
      assert walks[..i][1..] == walks[1..][..i - 1];
      SumMissingSnoc(walks[1..], i - 1);
    }
  }

  /** Where the frame of page `i` of a range comes in the order of drawing: after the frames of
      the pages before it and their page tables. */
  function Position(walks: seq<Walk>, i: nat): nat
    requires i <= |walks|
  {
    i + SumMissing(walks[..i])
  }

  /** Page `i` of a range was not mapped before and now is, on the frame drawn at its position. */
  ghost predicate PageMapped(s: State, s': State, pages: seq<nat>, walks: seq<Walk>, i: nat)
    requires s.handed <= s'.handed
  {
    && i < |pages| == |walks| && pages[i] !in s.mapping && pages[i] in s'.mapping
    && Position(walks, i) < |Drawn(s, s')|
    && s'.mapping[pages[i]] == Drawn(s, s')[Position(walks, i)]
  }

  /** The first `done` pages were not mapped before and now are, each on its own frame, the one
      drawn at its position; every other page is as it was. */
  ghost predicate RangeMapped(s: State, s': State, pages: seq<nat>, walks: seq<Walk>, done: nat) {
    && s.handed <= s'.handed && done <= |pages| == |walks|
    && (forall i: nat :: i < done ==> PageMapped(s, s', pages, walks, i))
    && (forall p :: p in s.mapping ==> p in s'.mapping && s'.mapping[p] == s.mapping[p])
    && (forall p :: p in s'.mapping ==> p in s.mapping || p in pages[..done])
    && NoDuplicates(pages[..done])
  }

  lemma {:induction false} PositionMonotone(walks: seq<Walk>, i: nat, j: nat)
    requires i < j <= |walks|
    ensures Position(walks, i) < Position(walks, j)
    decreases j
  {
    SumMissingSnoc(walks, j - 1);
    if i < j - 1 {
      PositionMonotone(walks, i, j - 1);
    }
  }

  /** The frame of every mapped page was not in use before, and is the frame of one position
      only: no page table drawn on the way has it. */
  lemma RangeFrameFresh(m: seq<Region>, s: State, s': State, pages: seq<nat>, walks: seq<Walk>, done: nat,
                        i: nat, k: nat)
    requires RangeMapped(s, s', pages, walks, done) && OnlyDrew(m, s, s')
    requires i < done && k < |Drawn(s, s')|
    ensures pages[i] in s'.mapping && s'.mapping[pages[i]] !in s.used
    ensures s'.mapping[pages[i]] == Drawn(s, s')[k] <==> k == Position(walks, i)
  {
    assert PageMapped(s, s', pages, walks, i);
  }

  /** No two pages of a range share a frame. */
  lemma RangeFramesDistinct(m: seq<Region>, s: State, s': State, pages: seq<nat>, walks: seq<Walk>, done: nat,
                            i: nat, j: nat)
    requires RangeMapped(s, s', pages, walks, done) && OnlyDrew(m, s, s')
    requires i < j < done
    ensures pages[i] in s'.mapping && pages[j] in s'.mapping && s'.mapping[pages[i]] != s'.mapping[pages[j]]
  {
    assert PageMapped(s, s', pages, walks, i) && PageMapped(s, s', pages, walks, j);
    PositionMonotone(walks, i, j);
  }

  /** The page after the first `done` is none of them. */
  lemma PrefixGrows(pages: seq<nat>, done: nat)
    requires done < |pages| && NoDuplicates(pages[..done])
    requires forall i :: 0 <= i < done ==> pages[i] != pages[done]
    ensures NoDuplicates(pages[..done + 1])
    ensures forall p :: p in pages[..done + 1] <==> p in pages[..done] || p == pages[done]
  {
    assert pages[..done + 1] == pages[..done] + [pages[done]];
  }

  lemma PageMappedKept(s: State, s1: State, s2: State, pages: seq<nat>, walks: seq<Walk>, i: nat)
    requires s.handed <= s1.handed <= s2.handed && PageMapped(s, s1, pages, walks, i)
    requires pages[i] in s2.mapping && s2.mapping[pages[i]] == s1.mapping[pages[i]]
    ensures PageMapped(s, s2, pages, walks, i)
  {
    assert Drawn(s, s1) == Drawn(s, s2)[..|Drawn(s, s1)|];
  }

  lemma RangeMappedStep(s: State, s1: State, s2: State, pages: seq<nat>, walks: seq<Walk>, done: nat)
    requires RangeMapped(s, s1, pages, walks, done) && done < |pages|
    requires s1.handed <= s2.handed && pages[done] !in s1.mapping
    requires Position(walks, done) < |Drawn(s, s2)|
    requires s2.mapping == s1.mapping[pages[done] := Drawn(s, s2)[Position(walks, done)]]
    ensures RangeMapped(s, s2, pages, walks, done + 1)
  {
    forall i: nat | i < done
      ensures PageMapped(s, s2, pages, walks, i) && pages[i] != pages[done]
    {
      assert PageMapped(s, s1, pages, walks, i);
      PageMappedKept(s, s1, s2, pages, walks, i);
    }
    PrefixGrows(pages, done);
  }

  /** How far `map_range` has come. */
  ghost predicate RangeProgress(lookup: Lookup, m: seq<Region>, s: State, es: seq<Event>, s': State,
                                pages: seq<nat>, walks: seq<Walk>, done: nat) {
    && Run(lookup, m, s, es, s') && OnlyDrew(m, s, s')
    && RangeMapped(s, s', pages, walks, done)
    && |Drawn(s, s')| == Position(walks, done)
  }

  /** One more page. */
  lemma RangeRound(lookup: Lookup, m: seq<Region>, s: State, es: seq<Event>, s1: State, es1: seq<Event>, s2: State,
                   pages: seq<nat>, walks: seq<Walk>, done: nat)
    requires RangeProgress(lookup, m, s, es, s1, pages, walks, done) && done < |pages|
    requires Run(lookup, m, s1, es1, s2) && OnlyDrew(m, s1, s2)
    requires pages[done] !in s1.mapping && |Drawn(s1, s2)| == 1 + walks[done].missing
    requires s2.mapping == s1.mapping[pages[done] := Drawn(s1, s2)[0]]
    ensures RangeProgress(lookup, m, s, es + es1, s2, pages, walks, done + 1)
  {
    RunConcat(lookup, m, s, es, s1, es1, s2);
    DrawnConcat(m, s, s1, s2);
    SumMissingSnoc(walks, done);
    RangeMappedStep(s, s1, s2, pages, walks, done);
  }

  /** The page that cannot be mapped: what was done stays. */
  lemma RangeStop(lookup: Lookup, m: seq<Region>, s: State, es: seq<Event>, s1: State, es1: seq<Event>, s2: State,
                  pages: seq<nat>, walks: seq<Walk>, done: nat)
    requires RangeProgress(lookup, m, s, es, s1, pages, walks, done)
    requires Run(lookup, m, s1, es1, s2) && OnlyDrew(m, s1, s2) && s2.mapping == s1.mapping
    ensures Run(lookup, m, s, es + es1, s2) && OnlyDrew(m, s, s2) && RangeMapped(s, s2, pages, walks, done)
    ensures |Drawn(s, s2)| == Position(walks, done) + |Drawn(s1, s2)|
  {
    RunConcat(lookup, m, s, es, s1, es1, s2);
    DrawnConcat(m, s, s1, s2);
    forall i: nat | i < done
      ensures PageMapped(s, s2, pages, walks, i)
    {
      assert PageMapped(s, s1, pages, walks, i);
      PageMappedKept(s, s1, s2, pages, walks, i);
    }
  }

  // ---------------------------------------------------------------- the paging context

  class PagingContext {
    const allocator: GlobalFrameAllocator
    var table: map<nat, nat>
    ghost var guards: set<Guard>
    ghost var handed: seq<nat>

    ghost function View(): State
      requires allocator.Valid()
      reads this, allocator, allocator.bitmap
    {
      State(allocator.Used(), allocator.nextUsable, table, guards, handed)
    }

    /** Each guard's page is mapped to the frame of the same number, no two guards share a page,
        and the lookup knows the frame. */
    ghost predicate Valid()
      reads this
    {
      && allocator.Valid()
      && (forall g :: g in guards ==> g.page in table && table[g.page] == g.page)
      && (forall g :: g in guards ==> GetFrameTy(allocator.lookup, allocator.memoryMap, g.page).Some?)
      && (forall g, h :: g in guards && h in guards && g.page == h.page ==> g == h)
    }

    ghost predicate Runs(before: State, es: seq<Event>, after: State) {
      Run(allocator.lookup, allocator.memoryMap, before, es, after)
    }

    /** `n` is how many frames the bootstrap allocator had taken. */
    constructor (allocator: GlobalFrameAllocator, table: map<nat, nat>, ghost n: nat)
      requires allocator.Valid() && n <= |UsableFrames(allocator.memoryMap)|
      ensures Valid() && this.allocator == allocator
      ensures View() == State(allocator.Used(), allocator.nextUsable, table, {}, BootFrames(allocator.memoryMap, n))
    {
      this.allocator := allocator;
      this.table := table;
      guards, handed := {}, BootFrames(allocator.memoryMap, n);
    }

    method AllocateFrame() returns (r: Option<nat>, ghost e: Event)
      requires Valid()
      modifies this`handed, allocator`nextUsable, allocator.bitmap
      ensures Valid()
      ensures e == if r.Some? then Allocate(r.value) else Exhausted
      ensures Step(allocator.lookup, allocator.memoryMap, old(View()), e, View())
    {
      r := allocator.AllocateFrame();
      if r.Some? {
        handed := handed + [r.value];
        e := Allocate(r.value);
      } else {
        e := Exhausted;
      }
    }

    /** The page tables that a walk creates. */
    method DrawTables(missing: nat) returns (ok: bool, ghost es: seq<Event>)
      requires Valid()
      modifies this`handed, allocator`nextUsable, allocator.bitmap
      ensures Valid() && Runs(old(View()), es, View()) && DrawEvents(es)
      ensures OnlyDrew(allocator.memoryMap, old(View()), View())
      ensures |Drawn(old(View()), View())| <= missing && (ok <==> |Drawn(old(View()), View())| == missing)
      ensures !ok ==> NoneFree(allocator.memoryMap, View().used, View().next)
    {
      ghost var before, s := View(), View();
      es := [];
      for i := 0 to missing
        invariant Valid() && View() == s
        invariant Runs(before, es, s) && DrawEvents(es) && OnlyDrew(allocator.memoryMap, before, s)
        invariant |Drawn(before, s)| == i
      {
        var frame, e := AllocateFrame();
        DrawAnother(allocator.lookup, allocator.memoryMap, before, es, s, e, View());
        es, s := es + [e], View();
        if frame.None? {
          return false, es;
        }
      }
      return true, es;
    }

    /** The walk to a page that is about to be mapped. */
    method WalkTo(page: nat, walk: Walk) returns (r: Outcome, ghost es: seq<Event>)
      requires Valid() && walk.Valid()
      modifies this`handed, allocator`nextUsable, allocator.bitmap
      ensures Valid() && Runs(old(View()), es, View()) && DrawEvents(es)
      ensures OnlyDrew(allocator.memoryMap, old(View()), View())
      ensures |Drawn(old(View()), View())| <= walk.missing
      ensures page in table ==> View() == old(View())
      ensures r.Done? ==> page !in table && !walk.huge && |Drawn(old(View()), View())| == walk.missing
      ensures r.Failed? ==> Explains(r.error, allocator.memoryMap, View(), page, walk)
      ensures r == Failed(FrameAllocationFailed) ==> |Drawn(old(View()), View())| < walk.missing
    {
      if page in table {
        return Failed(PageAlreadyMapped), [];
      }
      var ok;
      ok, es := DrawTables(walk.missing);
      r := if !ok then Failed(FrameAllocationFailed)
           else if walk.huge then Failed(ParentEntryHugePage)
           else Done;
    }

    /** One round of `map_range`: a frame for the page, then the mapping. */
    method MapOne(page: nat, walk: Walk) returns (r: Outcome, ghost es: seq<Event>)
      requires Valid() && walk.Valid()
      modifies this`table, this`handed, allocator`nextUsable, allocator.bitmap
      ensures Valid() && Runs(old(View()), es, View())
      ensures OnlyDrew(allocator.memoryMap, old(View()), View())
      ensures |Drawn(old(View()), View())| <= 1 + walk.missing
      ensures r.Done? ==> page !in old(table) && !walk.huge && |Drawn(old(View()), View())| == 1 + walk.missing
      ensures r.Done? ==> table == old(table)[page := Drawn(old(View()), View())[0]]
      ensures r.Failed? ==> table == old(table) && Explains(r.error, allocator.memoryMap, View(), page, walk)
    {
      ghost var s0 := View();
      var frame, e := AllocateFrame();
      ghost var s1 := View();
      DrawAnother(allocator.lookup, allocator.memoryMap, s0, [], s0, e, s1);
      es := [e];
      if frame.None? {
        return Failed(FrameAllocationFailed), es;
      }
      ghost var es2;
      r, es2 := WalkTo(page, walk);
      ghost var s2 := View();
      DrawnConcat(allocator.memoryMap, s0, s1, s2);
      RunConcat(allocator.lookup, allocator.memoryMap, s0, es, s1, es2, s2);
      es := es + es2;
      if r.Done? {
        table := table[page := frame.value];
        RunSnoc(allocator.lookup, allocator.memoryMap, s0, es, s2, MapPage(page, frame.value), View());
        es := es + [MapPage(page, frame.value)];
      }
    }

    /** Maps a range of pages. On success every page was unmapped before and is now on its own
        fresh frame, and the frames drawn are exactly those and the missing page tables. On
        failure the pages before the failing one stay mapped. */
    method MapRange(pages: seq<nat>, walks: seq<Walk>) returns (r: Outcome, ghost done: nat, ghost es: seq<Event>)
      requires Valid() && |walks| == |pages| && forall i :: 0 <= i < |walks| ==> walks[i].Valid()
      modifies this`table, this`handed, allocator`nextUsable, allocator.bitmap
      ensures Valid() && Runs(old(View()), es, View())
      ensures OnlyDrew(allocator.memoryMap, old(View()), View())
      ensures RangeMapped(old(View()), View(), pages, walks, done)
      ensures r.Done? ==> done == |pages| && |Drawn(old(View()), View())| == |pages| + SumMissing(walks)
      ensures r.Done? ==> |View().used| == |old(View()).used| + |pages| + SumMissing(walks)
      ensures r.Failed? ==> done < |pages| && Explains(r.error, allocator.memoryMap, View(), pages[done], walks[done])
      ensures r.Failed? ==> |Drawn(old(View()), View())| <= Position(walks, done) + 1 + walks[done].missing
    {
      ghost var before, s := View(), View();
      es := [];
      for i := 0 to |pages|
        invariant Valid() && View() == s
        invariant RangeProgress(allocator.lookup, allocator.memoryMap, before, es, s, pages, walks, i)
      {
        ghost var es';
        r, es' := MapOne(pages[i], walks[i]);
        done := i;
        if r.Failed? {
          RangeStop(allocator.lookup, allocator.memoryMap, before, es, s, es', View(), pages, walks, i);
          return r, i, es + es';
        }
        RangeRound(allocator.lookup, allocator.memoryMap, before, es, s, es', View(), pages, walks, i);
        es, s := es + es', View();
      }
      assert walks[..|pages|] == walks;
      DrawnCount(allocator.memoryMap, before, s);
      return Done, |pages|, es;
    }

    /** Identity maps the frame of a memory mapped device, after drawing the page tables that are
        missing; `mid` is the state in between. */
    method MmapDev(frame: nat, acpi: bool, walk: Walk)
      returns (r: MmapResult, ghost es: seq<Event>, ghost mid: State)
      requires Valid() && walk.Valid()
      modifies this, allocator`nextUsable, allocator.bitmap
      ensures Valid()
      ensures DrawEvents(es)
      ensures Runs(old(View()), es, mid) && OnlyDrew(allocator.memoryMap, old(View()), mid) && mid.mapping == old(table)
      ensures var ty := GetFrameTy(allocator.lookup, allocator.memoryMap, frame);
        && (r.Panicked? <==>
              ty.Some? && ty !in {Some(Reserved), Some(FrameZero)} && !(acpi && ty == Some(KernelStack)))
        && (ty.None? ==> r == NotMapped(FrameAllocationFailed))
        && (ty.None? || r.Panicked? ==> mid == old(View()))
        && (ty.Some? && r.NotMapped? ==> Explains(r.error, allocator.memoryMap, mid, frame, walk))
        && (ty.Some? && r == NotMapped(FrameAllocationFailed) ==> |Drawn(old(View()), mid)| < walk.missing)
      ensures frame in old(table) ==> mid == old(View())
      ensures |Drawn(old(View()), mid)| <= walk.missing
      ensures !r.Mapped? ==> View() == mid
      ensures r.Mapped? ==>
        && Step(allocator.lookup, allocator.memoryMap, mid, MapDevice(frame, acpi), View())
        && r.guard == Guard(frame, frame !in mid.used)
        && |Drawn(old(View()), mid)| == walk.missing && !walk.huge
    {
      var ty := GetFrameTy(allocator.lookup, allocator.memoryMap, frame);
      es, mid := [], View();
      if ty.None? {
        return NotMapped(FrameAllocationFailed), es, mid;
      }
      if !DeviceType(ty, acpi) {
        return Panicked, es, mid;
      }
      var walked;
      walked, es := WalkTo(frame, walk);
      mid := View();
      if walked.Failed? {
        return NotMapped(walked.error), es, mid;
      }
      table := table[frame := frame];
      LookupBelowEnd(allocator.lookup, allocator.memoryMap, frame);
      var inUse := allocator.IsUsed(frame);
      var guard := Guard(frame, !inUse);
      guards := guards + {guard};
      return Mapped(guard), es, mid;
    }

    /** Unmaps the page of a guard and, if the guard says so, releases its frame. The guard is
        used up. This never fails, and the frame released is the one the guard was made for. */
    method UnmapGuarded(guard: Guard) returns (ok: bool)
      requires Valid() && guard in guards
      modifies this`table, this`guards, allocator.bitmap
      ensures Valid() && ok
      ensures Step(allocator.lookup, allocator.memoryMap, old(View()), Unmap(guard), View())
      ensures table == old(table) - {guard.page}
      ensures allocator.Used() ==
        if guard.unmapFrame then old(allocator.Used()) - {guard.page} else old(allocator.Used())
    {
      if guard.page !in table {
        return false;
      }
      var frame := table[guard.page];
      table := table - {guard.page};
      if guard.unmapFrame {
        LookupBelowEnd(allocator.lookup, allocator.memoryMap, frame);
        allocator.DeallocateFrame(frame);
      }
      guards := guards - {guard};
      return true;
    }
  }

  /** Start-up of the memory subsystem: the context it leaves is one from which the laws about
      whole runs hold. `None` stands for a panic. */
  method InitMemory(m: seq<Region>, lookup: Lookup, table: map<nat, nat>, walks: seq<Walk>, memory: seq<U32>)
    returns (r: Option<PagingContext>)
    requires ValidMap(m)
    requires |walks| == BitmapPages(EndFrame(m)) && forall i :: 0 <= i < |walks| ==> walks[i].Valid()
    requires |memory| == BitmapWords(EndFrame(m))
    ensures r.Some? <==> CanMapPages(m, 0, table, walks, BITMAP_START_PAGE)
    ensures r.Some? ==>
      var ctx := r.value;
      && ctx.Valid() && ctx.allocator.memoryMap == m && ctx.allocator.lookup == lookup
      && HandedOver(m, FramesOfMap(m, memory), |walks| + SumMissing(walks), ctx.View().used)
      && Start(m, ctx.View())
      && ctx.View().handed == BootFrames(m, |walks| + SumMissing(walks))
      && PagesMapped(m, 0, |walks| + SumMissing(walks), table, ctx.View().mapping, BITMAP_START_PAGE, |walks|)
  {
    var allocator, mapped := FrameAllocator.Init(m, lookup, table, walks, memory);
    if allocator.None? {
      return None;
    }
    ghost var n := |walks| + SumMissing(walks);
    StartupIsStart(m, FramesOfMap(m, memory), n, allocator.value.Used(), mapped);
    var ctx := new PagingContext(allocator.value, mapped, n);
    return Some(ctx);
  }
}
