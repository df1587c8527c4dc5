/**
The allocator that takes over from the bootstrap allocator: a bitmap of used frames and a
cursor that only moves forward.
*/
module FrameAllocator {
  import opened Wrappers
  import opened MemoryMap
  import opened Mapper
  import opened Bootstrap
  import opened Bitmap

  /** Page number of the virtual address where the bitmap lives. */
  const BITMAP_START_PAGE: nat := 0x6666_6666_0000 / 0x1000

  // ---------------------------------------------------------------- specification

  ghost predicate FreeFrom(m: seq<Region>, used: set<nat>, next: nat, f: nat) {
    IsUsable(m, f) && next <= f && f !in used
  }

  /** `f` is the least free usable frame at or above the cursor. */
  ghost predicate LeastFree(m: seq<Region>, used: set<nat>, next: nat, f: nat) {
    && FreeFrom(m, used, next, f)
    && forall g: nat :: FreeFrom(m, used, next, g) ==> f <= g
  }

  ghost predicate NoneFree(m: seq<Region>, used: set<nat>, next: nat) {
    forall g: nat :: !FreeFrom(m, used, next, g)
  }

  /** None of the first `k` usable frames is free. */
  ghost predicate NoneOfFirst(m: seq<Region>, used: set<nat>, next: nat, k: nat) {
    && k <= |UsableFrames(m)|
    && forall i :: 0 <= i < k ==> !FreeFrom(m, used, next, UsableFrames(m)[i].0)
  }

  /** Walking the usable frames in order, the first free one is the least. */
  lemma FirstIsLeast(m: seq<Region>, used: set<nat>, next: nat, k: nat)
    requires Sorted(m) && NoneOfFirst(m, used, next, k)
    ensures k < |UsableFrames(m)| && FreeFrom(m, used, next, UsableFrames(m)[k].0) ==>
      LeastFree(m, used, next, UsableFrames(m)[k].0)
    ensures k == |UsableFrames(m)| ==> NoneFree(m, used, next)
  {
    forall g: nat | FreeFrom(m, used, next, g)
      ensures k < |UsableFrames(m)| && UsableFrames(m)[k].0 <= g
    {
      var i := UsableFrameIndex(m, g);
      if k < i {
        UsableFramesOrder(m, k, i);
      }
    }
  }

  /** The search has come to usable frame number `k`, which is not below the cursor. */
  ghost predicate Scanned(m: seq<Region>, used: set<nat>, next: nat, k: nat) {
    NoneOfFirst(m, used, next, k) && (k < |UsableFrames(m)| ==> next <= UsableFrames(m)[k].0)
  }

  /** One round of the search: it ends at the first frame that is not used. */
  lemma ScanRound(m: seq<Region>, used: set<nat>, next: nat, k: nat)
    requires Sorted(m) && Scanned(m, used, next, k) && k < |UsableFrames(m)|
    ensures 0 < |m| && UsableFrames(m)[k].0 < EndFrame(m)
    ensures UsableFrames(m)[k].0 in used ==> Scanned(m, used, next, k + 1)
    ensures UsableFrames(m)[k].0 !in used ==> LeastFree(m, used, next, UsableFrames(m)[k].0)
  {
    UsableFrameInMap(m, k);
    FirstIsLeast(m, used, next, k);
    if k + 1 < |UsableFrames(m)| {
      UsableFramesOrder(m, k, k + 1);
    }
  }

  /** There is a least free frame, or none at all. */
  lemma FreeOrNone(m: seq<Region>, used: set<nat>, next: nat) returns (r: Option<nat>)
    requires Sorted(m)
    ensures r.Some? ==> LeastFree(m, used, next, r.value)
    ensures r.None? ==> NoneFree(m, used, next)
  {
    var k := 0;
    while k < |UsableFrames(m)| && !FreeFrom(m, used, next, UsableFrames(m)[k].0)
      invariant NoneOfFirst(m, used, next, k)
    {
      k := k + 1;
    }
    FirstIsLeast(m, used, next, k);
    r := if k < |UsableFrames(m)| then Some(UsableFrames(m)[k].0) else None;
  }

  /** The regions whose frames are not marked when the allocator starts. */
  predicate LeftUnmarked(ty: RegionType) {
    ty.Usable? || ty.Reserved? || ty.AcpiReclaimable? || ty.FrameZero?
  }

  ghost predicate InKernelRegion(m: seq<Region>, i: nat, f: nat) {
    i < |m| && !LeftUnmarked(m[i].ty) && Contains(m[i], f)
  }

  /** Frames that belong to the kernel, its stack, the bootloader and the like. */
  ghost predicate IsKernel(m: seq<Region>, f: nat) {
    exists i: nat :: InKernelRegion(m, i, f)
  }

  lemma KernelNotUsable(m: seq<Region>, f: nat)
    requires Sorted(m) && IsKernel(m, f)
    ensures !IsUsable(m, f)
    ensures 0 < |m| && f < EndFrame(m)
  {
    var i: nat :| InKernelRegion(m, i, f);
    InMapBelowEnd(m, i);
    if j: nat :| InUsableRegion(m, j, f) {
      assert i < j ==> m[i].end <= m[j].start;
      assert j < i ==> m[j].end <= m[i].start;
    }
  }

  /** The frames described by the counters of the first `blocks` entries. */
  ghost function Runs(m: seq<Region>, n: nat, blocks: nat): set<nat> {
    if blocks == 0 then {}
    else if blocks <= |m| then
      Runs(m, n, blocks - 1) + Interval(m[blocks - 1].start, m[blocks - 1].start + Counter(m, blocks - 1, n))
    else Runs(m, n, blocks - 1)
  }

  lemma {:induction false} InRuns(m: seq<Region>, n: nat, blocks: nat, f: nat)
    ensures f in Runs(m, n, blocks) <==> exists b: nat :: b < blocks && InCountedRun(m, b, n, f)
  {
    if blocks != 0 {
      InRuns(m, n, blocks - 1, f);
      if InCountedRun(m, blocks - 1, n, f) {
      }
    }
  }

  /** What one more counter adds: nothing, or the run of frames it describes. */
  lemma RunsNext(m: seq<Region>, used: seq<nat>, n: nat, block: nat)
    requires Sorted(m) && CountersFor(m, used, n) && block < MAX_REGIONS
    ensures used[block] == 0 ==> Runs(m, n, block + 1) == Runs(m, n, block)
    ensures used[block] != 0 ==>
      && block < |m| && m[block].start + used[block] <= EndFrame(m)
      && Runs(m, n, block + 1) == Runs(m, n, block) + Interval(m[block].start, m[block].start + used[block])
  {
    if block < |m| {
      InMapBelowEnd(m, block);
      assert used[block] == 0 ==> Interval(m[block].start, m[block].start + used[block]) == {};
    }
  }

  lemma RunsAreTaken(m: seq<Region>, n: nat, blocks: nat)
    requires n <= |UsableFrames(m)| && |m| <= blocks
    ensures Runs(m, n, blocks) == Taken(m, n)
  {
    forall f: nat
      ensures f in Runs(m, n, blocks) <==> f in Taken(m, n)
    {
      InRuns(m, n, blocks, f);
      CountersExact(m, n, f);
    }
  }

  /** The kernel frames of the first `regions` regions. */
  ghost function KernelFrames(m: seq<Region>, regions: nat): set<nat>
    requires regions <= |m|
  {
    if regions == 0 then {}
    else if LeftUnmarked(m[regions - 1].ty) then KernelFrames(m, regions - 1)
    else KernelFrames(m, regions - 1) + Interval(m[regions - 1].start, m[regions - 1].end)
  }

  lemma {:induction false} InKernelFrames(m: seq<Region>, regions: nat, f: nat)
    requires regions <= |m|
    ensures f in KernelFrames(m, regions) <==> exists i: nat :: i < regions && InKernelRegion(m, i, f)
  {
    if regions != 0 {
      InKernelFrames(m, regions - 1, f);
      if InKernelRegion(m, regions - 1, f) {
      }
    }
  }

  /** The kernel frames, by the type of their region. */
  lemma KernelTypes(m: seq<Region>, i: nat, f: nat)
    requires Sorted(m) && i < |m| && Contains(m[i], f)
    ensures f in KernelFrames(m, |m|) <==> m[i].ty !in {Usable, Reserved, AcpiReclaimable, FrameZero}
  {
    InKernelFrames(m, |m|, f);
    assert forall j: nat :: j < |m| && Contains(m[j], f) ==> j == i;
    assert !LeftUnmarked(m[i].ty) ==> InKernelRegion(m, i, f);
  }

  /** The used set after start-up: whatever the memory of the bitmap held, the frames taken by
      the bootstrap allocator, and the kernel's own. */
  ghost predicate HandedOver(m: seq<Region>, garbage: set<nat>, n: nat, used: set<nat>) {
    && n <= |UsableFrames(m)|
    && used == garbage + Taken(m, n) + KernelFrames(m, |m|)
  }

  /** Which frames start-up marks, by the type of their region: all frames of the kernel, its stack,
      the page tables, the bootloader and of every other region that must not be used, and none of
      the device and firmware regions unless the memory of the bitmap had their bit set. */
  lemma MarkedTypes(m: seq<Region>, garbage: set<nat>, n: nat, used: set<nat>, i: nat, f: nat)
    requires Sorted(m) && HandedOver(m, garbage, n, used) && i < |m| && Contains(m[i], f)
    ensures m[i].ty !in {Usable, Reserved, AcpiReclaimable, FrameZero} ==> f in used
    ensures m[i].ty in {Reserved, AcpiReclaimable, FrameZero} ==> (f in used <==> f in garbage)
  {
    KernelTypes(m, i, f);
    if f in Taken(m, n) {
      var k :| 0 <= k < n && UsableFrames(m)[k].0 == f;
      UsableFrameInMap(m, k);
      var j: nat :| InUsableRegion(m, j, f);
    }
  }

  /** The usable frames that are marked after start-up are the ones in the counted runs. */
  ghost predicate MarkedAreCounted(m: seq<Region>, n: nat, used: set<nat>) {
    forall f: nat :: IsUsable(m, f) ==> (f in used <==> exists b: nat :: InCountedRun(m, b, n, f))
  }

  /** That holds exactly when the memory of the bitmap had no bit set for a usable frame other than
      those taken: of all frames, only garbage can be marked by mistake. */
  lemma HandoverExact(m: seq<Region>, garbage: set<nat>, n: nat, used: set<nat>)
    requires Sorted(m) && HandedOver(m, garbage, n, used)
    ensures MarkedAreCounted(m, n, used) <==> forall f: nat :: f in garbage && IsUsable(m, f) ==> f in Taken(m, n)
  {
    forall f: nat
      ensures IsUsable(m, f) ==> (f in used <==> f in garbage || f in Taken(m, n))
      ensures f in Taken(m, n) <==> exists b: nat :: InCountedRun(m, b, n, f)
    {
      CountersExact(m, n, f);
      InKernelFrames(m, |m|, f);
      if IsKernel(m, f) {
        KernelNotUsable(m, f);
      }
    }
  }

  // ---------------------------------------------------------------- the allocator

  /** The frames marked in the words of the bitmap. */
  ghost function FramesOfMap(m: seq<Region>, words: seq<U32>): set<nat>
    requires ValidMap(m) && |words| == BitmapWords(EndFrame(m))
  {
    StorageSuffices(EndFrame(m), 0);
    Frames(words, EndFrame(m))
  }

  /** Cleared memory marks no frame, so start-up is exact on it. */
  lemma ClearedMemory(m: seq<Region>, words: seq<U32>)
    requires ValidMap(m) && |words| == BitmapWords(EndFrame(m))
    requires forall i :: 0 <= i < |words| ==> words[i].IsZero()
    ensures FramesOfMap(m, words) == {}
  {
    StorageSuffices(EndFrame(m), 0);
    forall f: nat
      ensures f !in FramesOfMap(m, words)
    {
      InFrames(words, EndFrame(m), f);
      if f < EndFrame(m) {
        ZeroWord(words[f / 32], Mask(f % 32));
      }
    }
  }

  lemma ZeroWord(w: U32, mask: U32)
    requires w.IsZero()
    ensures w.And(mask).IsZero()
  {
  }

  class GlobalFrameAllocator {
    const memoryMap: seq<Region>
    const lookup: Lookup
    var nextUsable: nat
    // The words of the pages mapped for the bitmap.
    const bitmap: array<U32>

    ghost predicate Valid() {
      ValidMap(memoryMap) && bitmap.Length == BitmapWords(EndFrame(memoryMap))
    }

    /** The frames whose bit is set. */
    ghost function Used(): (s: set<nat>)
      requires Valid()
      reads bitmap
    {
      FramesOfMap(memoryMap, bitmap[..])
    }

    constructor (m: seq<Region>, lookup: Lookup, memory: seq<U32>)
      requires ValidMap(m) && |memory| == BitmapWords(EndFrame(m))
      ensures Valid() && memoryMap == m && this.lookup == lookup && nextUsable == 0
      ensures bitmap[..] == memory && fresh(bitmap)
    {
      memoryMap := m;
      this.lookup := lookup;
      nextUsable := 0;
      bitmap := new U32[|memory|](i requires 0 <= i < |memory| => memory[i]);
    }

    method IsUsed(idx: nat) returns (b: bool)
      requires Valid() && idx < EndFrame(memoryMap)
      ensures b <==> idx in Used()
    {
      StorageSuffices(EndFrame(memoryMap), 0);
      var (word, mask) := FrameIdxToParts(idx);
      b := !bitmap[word].And(mask).IsZero();
      InFrames(bitmap[..], EndFrame(memoryMap), idx);
    }

    method MarkUsed(idx: nat)
      requires Valid() && idx < EndFrame(memoryMap)
      modifies bitmap
      ensures Valid() && Used() == old(Used()) + {idx}
    {
      StorageSuffices(EndFrame(memoryMap), 0);
      var (word, mask) := FrameIdxToParts(idx);
      bitmap[word] := bitmap[word].Or(mask);
      SetBit(old(bitmap[..]), bitmap[..], EndFrame(memoryMap), idx);
    }

    method MarkUnused(idx: nat)
      requires Valid() && idx < EndFrame(memoryMap)
      modifies bitmap
      ensures Valid() && Used() == old(Used()) - {idx}
    {
      StorageSuffices(EndFrame(memoryMap), 0);
      var (word, mask) := FrameIdxToParts(idx);
      bitmap[word] := bitmap[word].And(mask.Not());
      ClearBit(old(bitmap[..]), bitmap[..], EndFrame(memoryMap), idx);
    }

    /** Marks `start..end`. */
    method MarkRange(start: nat, end: nat)
      requires Valid() && end <= EndFrame(memoryMap)
      modifies bitmap
      ensures Valid() && Used() == old(Used()) + Interval(start, end)
    {
      var i := start;
      while i < end
        invariant Valid() && start <= i && (i <= end || i == start)
        invariant Used() == old(Used()) + Interval(start, i)
      {
        ghost var before := Used();
        MarkUsed(i);
        assert Used() == before + {i};
        i := i + 1;
      }
    }

    /** Moves the cursor to the least free usable frame at or above it, if there is one. */
    method RecalculateNextUsable() returns (found: bool)
      requires Valid()
      modifies this`nextUsable
      ensures found ==> LeastFree(memoryMap, Used(), old(nextUsable), nextUsable)
      ensures !found ==> nextUsable == old(nextUsable) && NoneFree(memoryMap, Used(), nextUsable)
    {
      var frames := UsableFrames(memoryMap);
      ghost var used := Used();
      var k := 0;
      while k < |frames| && frames[k].0 < nextUsable
        invariant NoneOfFirst(memoryMap, used, nextUsable, k)
      {
        k := k + 1;
      }
      while k < |frames|
        invariant Scanned(memoryMap, used, nextUsable, k) && nextUsable == old(nextUsable)
      {
        ScanRound(memoryMap, used, nextUsable, k);
        var inUse := IsUsed(frames[k].0);
        if !inUse {
          nextUsable := frames[k].0;
          return true;
        }
        k := k + 1;
      }
      FirstIsLeast(memoryMap, used, nextUsable, k);
      return false;
    }

    /** Hands out the least free usable frame at or above the cursor, marks it and leaves the
        cursor there; fails exactly when there is none. */
    method AllocateFrame() returns (r: Option<nat>)
      requires Valid()
      modifies this`nextUsable, bitmap
      ensures Valid()
      ensures r.Some? ==> LeastFree(memoryMap, old(Used()), old(nextUsable), r.value)
      ensures r.Some? ==> Used() == old(Used()) + {r.value} && nextUsable == r.value
      ensures r.None? ==> NoneFree(memoryMap, old(Used()), old(nextUsable))
      ensures r.None? ==> Used() == old(Used()) && nextUsable == old(nextUsable)
    {
      var found := RecalculateNextUsable();
      if found {
        var i := nextUsable;
        UsableBelowEnd(memoryMap, i);
        MarkUsed(i);
        return Some(i);
      } else {
        return None;
      }
    }

    method DeallocateFrame(frame: nat)
      requires Valid() && frame < EndFrame(memoryMap)
      modifies bitmap
      ensures Valid() && Used() == old(Used()) - {frame}
    {
      MarkUnused(frame);
    }
  }

  // ---------------------------------------------------------------- start-up

  /** Mapping consecutive pages from `page` on with the usable frames from number `n` on, one
      frame for each page and one for each missing page table. */
  function MapPages(m: seq<Region>, n: nat, table: map<nat, nat>, walks: seq<Walk>, page: nat): Option<map<nat, nat>>
    decreases |walks|
  {
    if walks == [] then Some(table)
    else if page in table || walks[0].huge || |UsableFrames(m)| < n + 1 + walks[0].missing then None
    else
      MapPages(m, n + 1 + walks[0].missing, table[page := UsableFrames(m)[n].0], walks[1..], page + 1)
  }

  predicate InRange(p: nat, page: nat, pages: nat) {
    page <= p < page + pages
  }

  /** `mapped` is `table` with `pages` new pages from `page` on, each on its own one of the
      usable frames number `n` to `n'`. */
  ghost predicate PagesMapped(m: seq<Region>, n: nat, n': nat, table: map<nat, nat>, mapped: map<nat, nat>,
                              page: nat, pages: nat) {
    && n <= n' <= |UsableFrames(m)|
    && (forall p: nat :: p in mapped <==> p in table || InRange(p, page, pages))
    && (forall p: nat :: p in table ==> mapped[p] == table[p])
    && (forall p: nat :: InRange(p, page, pages) ==> mapped[p] in Taken(m, n') - Taken(m, n))
    && (forall p: nat, q: nat :: InRange(p, page, pages) && InRange(q, page, pages) && p < q ==> mapped[p] != mapped[q])
  }

  /** What it takes to map the pages: none is mapped yet, no walk meets a huge page, and there
      are enough usable frames for the pages and the missing page tables. */
  ghost predicate CanMapPages(m: seq<Region>, n: nat, table: map<nat, nat>, walks: seq<Walk>, page: nat) {
    && (forall i :: 0 <= i < |walks| ==> !walks[i].huge)
    && (forall p: nat :: InRange(p, page, |walks|) ==> p !in table)
    && (walks == [] || n + |walks| + SumMissing(walks) <= |UsableFrames(m)|)
  }

  lemma NextNotTaken(m: seq<Region>, n: nat)
    requires Sorted(m) && n < |UsableFrames(m)|
    ensures UsableFrames(m)[n].0 !in Taken(m, n)
    ensures UsableFrames(m)[n].0 in Taken(m, n + 1)
  {
    forall k | 0 <= k < n
      ensures UsableFrames(m)[k].0 != UsableFrames(m)[n].0
    {
      UsableFramesOrder(m, k, n);
    }
  }

  lemma PagesMappedCons(m: seq<Region>, n: nat, n1: nat, n': nat, table: map<nat, nat>, mapped: map<nat, nat>,
                        page: nat, pages: nat)
    requires Sorted(m) && n < n1 <= n' <= |UsableFrames(m)| && page !in table
    requires PagesMapped(m, n1, n', table[page := UsableFrames(m)[n].0], mapped, page + 1, pages)
    ensures PagesMapped(m, n, n', table, mapped, page, pages + 1)
  {
    NextNotTaken(m, n);
    assert Taken(m, n) <= Taken(m, n + 1) <= Taken(m, n1) <= Taken(m, n');
    assert mapped[page] == UsableFrames(m)[n].0;
  }

  lemma {:induction false} MapPagesSound(m: seq<Region>, n: nat, table: map<nat, nat>, walks: seq<Walk>, page: nat,
                                         mapped: map<nat, nat>)
    requires Sorted(m) && n <= |UsableFrames(m)| && MapPages(m, n, table, walks, page) == Some(mapped)
    ensures PagesMapped(m, n, n + |walks| + SumMissing(walks), table, mapped, page, |walks|)
    decreases |walks|
  {
    if walks != [] {
      var n1, n' := n + 1 + walks[0].missing, n + |walks| + SumMissing(walks);
      var table', rest := table[page := UsableFrames(m)[n].0], walks[1..];
      MapPagesSound(m, n1, table', rest, page + 1, mapped);
      assert n1 + |rest| + SumMissing(rest) == n';
      PagesMappedCons(m, n, n1, n', table, mapped, page, |rest|);
    }
  }

  lemma {:induction false} MapPagesTotal(m: seq<Region>, n: nat, table: map<nat, nat>, walks: seq<Walk>, page: nat)
    ensures MapPages(m, n, table, walks, page).Some? <==> CanMapPages(m, n, table, walks, page)
    decreases |walks|
  {
    if walks != [] {
      var rest := walks[1..];
      assert InRange(page, page, |walks|);
      assert forall p: nat :: InRange(p, page, |walks|) <==> p == page || InRange(p, page + 1, |rest|);
      assert forall i :: 0 <= i < |rest| ==> rest[i] == walks[i + 1];
      if n < |UsableFrames(m)| {
        var table' := table[page := UsableFrames(m)[n].0];
        MapPagesTotal(m, n + 1 + walks[0].missing, table', rest, page + 1);
      }
    }
  }

  /** Maps the pages of the bitmap with the bootstrap allocator. `None` stands for a panic. */
  method MapBitmap(bootstrap: BootStrapAllocator, pages: nat, table: map<nat, nat>, walks: seq<Walk>)
    returns (r: Option<map<nat, nat>>)
    requires bootstrap.Valid() && bootstrap.next == 0
    requires |walks| == pages && forall i :: 0 <= i < pages ==> walks[i].Valid()
    modifies bootstrap`next, bootstrap.used
    ensures bootstrap.Valid()
    ensures r == MapPages(bootstrap.memoryMap, 0, table, walks, BITMAP_START_PAGE)
    ensures r.Some? ==> bootstrap.next == pages + SumMissing(walks)
  {
    var mapped := table;
    for i := 0 to pages
      invariant bootstrap.Valid() && bootstrap.next + pages - i + SumMissing(walks[i..]) == pages + SumMissing(walks)
      invariant MapPages(bootstrap.memoryMap, 0, table, walks, BITMAP_START_PAGE) ==
        MapPages(bootstrap.memoryMap, bootstrap.next, mapped, walks[i..], BITMAP_START_PAGE + i)
    {
      assert walks[i..][1..] == walks[i + 1..];
      var step := bootstrap.AllocateBitmapFrame(mapped, BITMAP_START_PAGE + i, walks[i]);
      if step.None? {
        return None;
      }
      mapped := step.value;
    }
    return Some(mapped);
  }

  /** Marks the run of frames that each counter describes: exactly the frames taken. */
  method MarkTaken(allocator: GlobalFrameAllocator, used: seq<nat>, ghost n: nat)
    requires allocator.Valid() && n <= |UsableFrames(allocator.memoryMap)|
    requires CountersFor(allocator.memoryMap, used, n)
    modifies allocator.bitmap
    ensures allocator.Valid()
    ensures allocator.Used() == old(allocator.Used()) + Taken(allocator.memoryMap, n)
  {
    var m := allocator.memoryMap;
    for block := 0 to MAX_REGIONS
      invariant allocator.Valid()
      invariant allocator.Used() == old(allocator.Used()) + Runs(m, n, block)
    {
      RunsNext(m, used, n, block);
      var size := used[block];
      if size != 0 {
        var start := m[block].start;
        allocator.MarkRange(start, start + size);
      }
    }
    RunsAreTaken(m, n, MAX_REGIONS);
  }

  /** Marks every frame of the regions that must not be used. */
  method MarkKernel(allocator: GlobalFrameAllocator)
    requires allocator.Valid()
    modifies allocator.bitmap
    ensures allocator.Valid()
    ensures allocator.Used() == old(allocator.Used()) + KernelFrames(allocator.memoryMap, |allocator.memoryMap|)
    ensures forall i, f: nat :: 0 <= i < |allocator.memoryMap| && Contains(allocator.memoryMap[i], f) ==>
      (f in allocator.Used() <==>
         f in old(allocator.Used()) ||
         allocator.memoryMap[i].ty !in {Usable, Reserved, AcpiReclaimable, FrameZero})
  {
    var m := allocator.memoryMap;
    for i := 0 to |m|
      invariant allocator.Valid()
      invariant allocator.Used() == old(allocator.Used()) + KernelFrames(m, i)
    {
      if !LeftUnmarked(m[i].ty) {
        InMapBelowEnd(m, i);
        allocator.MarkRange(m[i].start, m[i].end);
      }
    }
    forall i: nat, f: nat | i < |m| && Contains(m[i], f)
      ensures f in KernelFrames(m, |m|) <==> m[i].ty !in {Usable, Reserved, AcpiReclaimable, FrameZero}
    {
      KernelTypes(m, i, f);
    }
  }

  /** Builds the allocator over the memory of the bitmap and marks what is in use. */
  method HandOver(m: seq<Region>, lookup: Lookup, memory: seq<U32>, used: seq<nat>, ghost n: nat)
    returns (a: GlobalFrameAllocator)
    requires ValidMap(m) && |memory| == BitmapWords(EndFrame(m))
    requires n <= |UsableFrames(m)| && CountersFor(m, used, n)
    ensures fresh(a) && fresh(a.bitmap)
    ensures a.Valid() && a.memoryMap == m && a.lookup == lookup && a.nextUsable == 0
    ensures HandedOver(m, FramesOfMap(m, memory), n, a.Used())
  {
    a := new GlobalFrameAllocator(m, lookup, memory);
    MarkTaken(a, used, n);
    MarkKernel(a);
  }

  /** The bootstrap phase: the page table with the bitmap mapped, and the counters. */
  method RunBootstrap(m: seq<Region>, table: map<nat, nat>, walks: seq<Walk>)
    returns (r: Option<map<nat, nat>>, used: seq<nat>)
    requires ValidMap(m)
    requires |walks| == BitmapPages(EndFrame(m)) && forall i :: 0 <= i < |walks| ==> walks[i].Valid()
    ensures r == MapPages(m, 0, table, walks, BITMAP_START_PAGE)
    ensures r.Some? ==> CountersFor(m, used, |walks| + SumMissing(walks))
  {
    var bootstrap := new BootStrapAllocator(m);
    r := MapBitmap(bootstrap, BitmapPages(EndFrame(m)), table, walks);
    used := bootstrap.used[..];
  }

  /** Start-up: `memory` is what the bitmap's pages happen to contain, which the code never
      clears. `None` stands for a panic. */
  method Init(m: seq<Region>, lookup: Lookup, table: map<nat, nat>, walks: seq<Walk>, memory: seq<U32>)
    returns (r: Option<GlobalFrameAllocator>, mapped: map<nat, nat>)
    requires ValidMap(m)
    requires |walks| == BitmapPages(EndFrame(m)) && forall i :: 0 <= i < |walks| ==> walks[i].Valid()
    requires |memory| == BitmapWords(EndFrame(m))
    ensures r.Some? <==> CanMapPages(m, 0, table, walks, BITMAP_START_PAGE)
    ensures r.Some? ==> fresh(r.value) && fresh(r.value.bitmap) && r.value.Valid()
    ensures r.Some? ==> r.value.memoryMap == m && r.value.lookup == lookup && r.value.nextUsable == 0
    ensures r.Some? ==>
      var n := |walks| + SumMissing(walks);
      && HandedOver(m, FramesOfMap(m, memory), n, r.value.Used())
      && PagesMapped(m, 0, n, table, mapped, BITMAP_START_PAGE, |walks|) && BITMAP_START_PAGE == 0x6_6666_6660
    ensures r.Some? ==> forall i, f: nat :: 0 <= i < |m| && Contains(m[i], f) ==>
      && (m[i].ty !in {Usable, Reserved, AcpiReclaimable, FrameZero} ==> f in r.value.Used())
      && (m[i].ty in {Reserved, AcpiReclaimable, FrameZero} ==>
            (f in r.value.Used() <==> f in FramesOfMap(m, memory)))
  {
    MapPagesTotal(m, 0, table, walks, BITMAP_START_PAGE);
    var bootstrapped, used := RunBootstrap(m, table, walks);
    if bootstrapped.None? {
      return None, table;
    }
    MapPagesSound(m, 0, table, walks, BITMAP_START_PAGE, bootstrapped.value);
    var allocator := HandOver(m, lookup, memory, used, |walks| + SumMissing(walks));
    forall i: nat, f: nat | i < |m| && Contains(m[i], f)
      ensures m[i].ty !in {Usable, Reserved, AcpiReclaimable, FrameZero} ==> f in allocator.Used()
      ensures m[i].ty in {Reserved, AcpiReclaimable, FrameZero} ==>
        (f in allocator.Used() <==> f in FramesOfMap(m, memory))
    {
      MarkedTypes(m, FramesOfMap(m, memory), |walks| + SumMissing(walks), allocator.Used(), i, f);
    }
    return Some(allocator), bootstrapped.value;
  }
}
