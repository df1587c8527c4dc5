/**
Whole runs of the memory subsystem: the bitmap allocator, the page table and the guards of
device mappings, under any interleaving of the operations on them.
*/
module KernelRuns {
  import opened Wrappers
  import opened MemoryMap
  import opened Mapper
  import opened Bitmap
  import opened Bootstrap
  import opened FrameAllocator

  /** What `mmap_dev` returns: not cloneable, and consumed by `unmap`. */
  datatype Guard = Guard(page: nat, unmapFrame: bool)

  /** `used` and `next` are the allocator, `mapping` is the page table, `guards` are the guards
      that still exist, and `handed` lists every frame handed out so far, by the bootstrap
      allocator and after it, to callers and to page tables. The kernel has no operation that
      gives an allocated frame back, so every frame in `handed` stays live. */
  datatype State = State(
    used: set<nat>, next: nat, mapping: map<nat, nat>, guards: set<Guard>, handed: seq<nat>)

  datatype Event =
    | Allocate(frame: nat)
    | Exhausted
    | MapPage(page: nat, frame: nat)
    | MapDevice(frame: nat, acpi: bool)
    | Unmap(guard: Guard)

  /** The region types on which `mmap_dev` does not panic. */
  predicate DeviceType(ty: Option<RegionType>, acpi: bool) {
    ty == Some(Reserved) || ty == Some(FrameZero) || (ty == Some(KernelStack) && acpi)
  }

  ghost predicate Step(lookup: Lookup, m: seq<Region>, s: State, e: Event, s': State) {
    match e
    case Allocate(f) =>
      && LeastFree(m, s.used, s.next, f)
      && s' == s.(used := s.used + {f}, next := f, handed := s.handed + [f])
    case Exhausted =>
      NoneFree(m, s.used, s.next) && s' == s
    case MapPage(page, frame) =>
      page !in s.mapping && s' == s.(mapping := s.mapping[page := frame])
    case MapDevice(f, acpi) =>
      && DeviceType(GetFrameTy(lookup, m, f), acpi)
      && f !in s.mapping
      && s' == s.(mapping := s.mapping[f := f], guards := s.guards + {Guard(f, f !in s.used)})
    case Unmap(g) =>
      && g in s.guards && g.page in s.mapping
      && s' == s.(used := if g.unmapFrame then s.used - {s.mapping[g.page]} else s.used,
                  mapping := s.mapping - {g.page},
                  guards := s.guards - {g})
  }

  ghost predicate Run(lookup: Lookup, m: seq<Region>, s: State, es: seq<Event>, s': State)
    decreases |es|
  {
    if es == [] then s' == s
    else exists s1 :: Step(lookup, m, s, es[0], s1) && Run(lookup, m, s1, es[1..], s')
  }

  lemma {:induction false} RunConcat(lookup: Lookup, m: seq<Region>, s: State, es: seq<Event>, s1: State,
                                     es': seq<Event>, s2: State)
    requires Run(lookup, m, s, es, s1) && Run(lookup, m, s1, es', s2)
    ensures Run(lookup, m, s, es + es', s2)
    decreases |es|
  {
    if es == [] {
      assert es + es' == es';
    } else {
      var t :| Step(lookup, m, s, es[0], t) && Run(lookup, m, t, es[1..], s1);
      RunConcat(lookup, m, t, es[1..], s1, es', s2);
      assert (es + es')[1..] == es[1..] + es';
    }
  }

  lemma RunOne(lookup: Lookup, m: seq<Region>, s: State, e: Event, s': State)
    requires Step(lookup, m, s, e, s')
    ensures Run(lookup, m, s, [e], s')
  {
    assert [e][1..] == [];
    assert Run(lookup, m, s', [], s');
  }

  /** Only attempts to allocate, as when page tables are drawn. */
  ghost predicate DrawEvents(es: seq<Event>) {
    forall i :: 0 <= i < |es| ==> es[i].Allocate? || es[i].Exhausted?
  }

  lemma RunSnoc(lookup: Lookup, m: seq<Region>, s: State, es: seq<Event>, s1: State, e: Event, s2: State)
    requires Run(lookup, m, s, es, s1) && Step(lookup, m, s1, e, s2)
    ensures Run(lookup, m, s, es + [e], s2)
  {
    RunOne(lookup, m, s1, e, s2);
    RunConcat(lookup, m, s, es, s1, [e], s2);
  }

  ghost predicate NoDuplicates(xs: seq<nat>) {
    forall i, j :: 0 <= i < j < |xs| ==> xs[i] != xs[j]
  }

  /** The states that start-up leaves behind: the frames handed out so far are distinct, usable
      and marked, the cursor is at zero, and there are no guards. */
  ghost predicate Start(m: seq<Region>, s: State) {
    && s.next == 0 && s.guards == {}
    && NoDuplicates(s.handed)
    && forall i :: 0 <= i < |s.handed| ==> s.handed[i] in s.used && IsUsable(m, s.handed[i])
  }

  /** The first `n` usable frames, in order. */
  function BootFrames(m: seq<Region>, n: nat): seq<nat>
    requires n <= |UsableFrames(m)|
  {
    seq(n, i requires 0 <= i < n => UsableFrames(m)[i].0)
  }

  /** Start-up, whatever the bitmap memory held, ends in such a state. */
  lemma StartupIsStart(m: seq<Region>, garbage: set<nat>, n: nat, used: set<nat>, mapping: map<nat, nat>)
    requires Sorted(m) && HandedOver(m, garbage, n, used)
    ensures Start(m, State(used, 0, mapping, {}, BootFrames(m, n)))
  {
    UsableFramesSorted(m);
  }

  // ---------------------------------------------------------------- what every run keeps

  /** A usable frame that is free at the start, whose identity page is not mapped, and that the
      lookup takes for a device frame. */
  ghost predicate Exposed(lookup: Lookup, m: seq<Region>, s0: State, f: nat) {
    && IsUsable(m, f) && f !in s0.used && f !in s0.mapping
    && DeviceType(GetFrameTy(lookup, m, f), true)
  }

  ghost predicate GuardsOk(lookup: Lookup, m: seq<Region>, s0: State, s: State) {
    && (forall g :: g in s.guards ==> g.page in s.mapping && s.mapping[g.page] == g.page)
    && (forall g :: g in s.guards ==> g.page !in s0.mapping && DeviceType(GetFrameTy(lookup, m, g.page), true))
    && (forall g :: g in s.guards && g.unmapFrame ==> g.page !in s0.used)
    && (forall g, h :: g in s.guards && h in s.guards && g.page == h.page ==> g == h)
  }

  /** Every frame handed out is usable and, unless exposed, still marked as used. */
  ghost predicate HandedOk(lookup: Lookup, m: seq<Region>, s0: State, s: State) {
    forall i :: 0 <= i < |s.handed| ==>
      IsUsable(m, s.handed[i]) && (s.handed[i] in s.used || Exposed(lookup, m, s0, s.handed[i]))
  }

  /** Every usable frame below the cursor is, unless exposed, marked as used. */
  ghost predicate CursorOk(lookup: Lookup, m: seq<Region>, s0: State, s: State) {
    && (s.next == 0 || (IsUsable(m, s.next) && s.next !in s0.used))
    && forall f: nat :: f < s.next && IsUsable(m, f) ==> f in s.used || Exposed(lookup, m, s0, f)
  }

  ghost predicate Inv(lookup: Lookup, m: seq<Region>, s0: State, s: State) {
    && s0.used <= s.used
    && (forall p :: p in s0.mapping ==> p in s.mapping && s.mapping[p] == s0.mapping[p])
    && GuardsOk(lookup, m, s0, s)
    && HandedOk(lookup, m, s0, s)
    && CursorOk(lookup, m, s0, s)
  }

  lemma AllocateKeepsInv(lookup: Lookup, m: seq<Region>, s0: State, s: State, f: nat, s': State)
    requires Inv(lookup, m, s0, s) && Step(lookup, m, s, Allocate(f), s')
    ensures Inv(lookup, m, s0, s')
  {
    forall g: nat | g < f && IsUsable(m, g)
      ensures g in s'.used || Exposed(lookup, m, s0, g)
    {
      assert !FreeFrom(m, s.used, s.next, g);
    }
  }

  lemma MappingKeepsInv(lookup: Lookup, m: seq<Region>, s0: State, s: State, e: Event, s': State)
    requires e.MapPage? || e.MapDevice?
    requires Inv(lookup, m, s0, s) && Step(lookup, m, s, e, s')
    ensures Inv(lookup, m, s0, s')
  {
  }

  lemma UnmapKeepsInv(lookup: Lookup, m: seq<Region>, s0: State, s: State, g: Guard, s': State)
    requires Inv(lookup, m, s0, s) && Step(lookup, m, s, Unmap(g), s')
    ensures Inv(lookup, m, s0, s')
  {
    assert g.unmapFrame && IsUsable(m, g.page) ==> Exposed(lookup, m, s0, g.page);
  }

  lemma StepKeepsInv(lookup: Lookup, m: seq<Region>, s0: State, s: State, e: Event, s': State)
    requires Inv(lookup, m, s0, s) && Step(lookup, m, s, e, s')
    ensures Inv(lookup, m, s0, s')
  {
    match e
    case Allocate(f) => AllocateKeepsInv(lookup, m, s0, s, f, s');
    case Exhausted =>
    case MapPage(_, _) => MappingKeepsInv(lookup, m, s0, s, e, s');
    case MapDevice(_, _) => MappingKeepsInv(lookup, m, s0, s, e, s');
    case Unmap(g) => UnmapKeepsInv(lookup, m, s0, s, g, s');
  }

  lemma {:induction false} RunKeepsInv(lookup: Lookup, m: seq<Region>, s0: State, s: State, es: seq<Event>, s': State)
    requires Inv(lookup, m, s0, s) && Run(lookup, m, s, es, s')
    ensures Inv(lookup, m, s0, s')
    decreases |es|
  {
    if es != [] {
      var s1 :| Step(lookup, m, s, es[0], s1) && Run(lookup, m, s1, es[1..], s');
      StepKeepsInv(lookup, m, s0, s, es[0], s1);
      RunKeepsInv(lookup, m, s0, s1, es[1..], s');
    }
  }

  lemma ReachableInv(lookup: Lookup, m: seq<Region>, s0: State, es: seq<Event>, s: State)
    requires Start(m, s0) && Run(lookup, m, s0, es, s)
    ensures Inv(lookup, m, s0, s)
  {
    RunKeepsInv(lookup, m, s0, s0, es, s);
  }

  // ---------------------------------------------------------------- no live frame is handed out twice

  ghost predicate NoneExposed(lookup: Lookup, m: seq<Region>, s0: State) {
    forall f: nat :: !Exposed(lookup, m, s0, f)
  }

  /** In this state no frame was handed out twice, and all that were handed out are marked. */
  ghost predicate Safe(s: State) {
    NoDuplicates(s.handed) && forall i :: 0 <= i < |s.handed| ==> s.handed[i] in s.used
  }

  lemma {:induction false} SafeRun(lookup: Lookup, m: seq<Region>, s0: State, s: State, es: seq<Event>, s': State)
    requires NoneExposed(lookup, m, s0)
    requires Inv(lookup, m, s0, s) && NoDuplicates(s.handed) && Run(lookup, m, s, es, s')
    ensures Inv(lookup, m, s0, s') && Safe(s')
    decreases |es|
  {
    if es != [] {
      var s1 :| Step(lookup, m, s, es[0], s1) && Run(lookup, m, s1, es[1..], s');
      StepKeepsInv(lookup, m, s0, s, es[0], s1);
      assert es[0].Allocate? ==> forall i :: 0 <= i < |s.handed| ==> s.handed[i] in s.used;
      SafeRun(lookup, m, s0, s1, es[1..], s');
    }
  }

  /** Allocating until frame `f` comes up. */
  lemma {:induction false} AllocateUntil(lookup: Lookup, m: seq<Region>, s: State, f: nat)
    returns (es: seq<Event>, s': State)
    requires Sorted(m) && FreeFrom(m, s.used, s.next, f)
    ensures Run(lookup, m, s, es, s')
    ensures s'.next == f && f in s'.used && s'.mapping == s.mapping && s'.guards == s.guards
    ensures s.handed <= s'.handed && |s.handed| < |s'.handed| && s'.handed[|s'.handed| - 1] == f
    decreases f - s.next, s.next !in s.used
  {
    var r := FreeOrNone(m, s.used, s.next);
    assert FreeFrom(m, s.used, s.next, f);
    var g := r.value;
    var s1 := s.(used := s.used + {g}, next := g, handed := s.handed + [g]);
    assert Step(lookup, m, s, Allocate(g), s1);
    RunOne(lookup, m, s, Allocate(g), s1);
    if g == f {
      es, s' := [Allocate(g)], s1;
    } else {
      var rest;
      rest, s' := AllocateUntil(lookup, m, s1, f);
      RunConcat(lookup, m, s, [Allocate(g)], s1, rest, s');
      es := [Allocate(g)] + rest;
    }
  }

  /** Mapping an exposed frame as a device, and then allocating until `g` at or above it comes
      up: the guard is still there and releases the frame. */
  lemma ReleaseExposed(lookup: Lookup, m: seq<Region>, s0: State, f: nat, g: nat)
    returns (es: seq<Event>, s: State)
    requires Sorted(m) && Start(m, s0) && Exposed(lookup, m, s0, f)
    requires f <= g && IsUsable(m, g) && g !in s0.used
    ensures Run(lookup, m, s0, es, s)
    ensures s.next == g && f !in s.used
    ensures f == g ==> 0 < |s.handed| && s.handed[|s.handed| - 1] == f
  {
    var guard := Guard(f, true);
    var s1 := s0.(mapping := s0.mapping[f := f], guards := {guard});
    assert Step(lookup, m, s0, MapDevice(f, true), s1);
    RunOne(lookup, m, s0, MapDevice(f, true), s1);
    var es2, s2 := AllocateUntil(lookup, m, s1, g);
    RunConcat(lookup, m, s0, [MapDevice(f, true)], s1, es2, s2);
    s := s2.(used := s2.used - {f}, mapping := s2.mapping - {f}, guards := s2.guards - {guard});
    assert Step(lookup, m, s2, Unmap(guard), s);
    RunOne(lookup, m, s2, Unmap(guard), s);
    RunConcat(lookup, m, s0, [MapDevice(f, true)] + es2, s2, [Unmap(guard)], s);
    es := [MapDevice(f, true)] + es2 + [Unmap(guard)];
  }

  /** From an exposed frame to a run that hands it out twice. */
  lemma HandedOutTwice(lookup: Lookup, m: seq<Region>, s0: State, f: nat) returns (es: seq<Event>, s: State)
    requires Sorted(m) && Start(m, s0) && Exposed(lookup, m, s0, f)
    ensures Run(lookup, m, s0, es, s) && !NoDuplicates(s.handed)
  {
    var es1, s1 := ReleaseExposed(lookup, m, s0, f, f);
    s := s1.(used := s1.used + {f}, next := f, handed := s1.handed + [f]);
    assert LeastFree(m, s1.used, s1.next, f);
    assert Step(lookup, m, s1, Allocate(f), s);
    RunOne(lookup, m, s1, Allocate(f), s);
    RunConcat(lookup, m, s0, es1, s1, [Allocate(f)], s);
    es := es1 + [Allocate(f)];
    assert s.handed[|s1.handed| - 1] == s.handed[|s1.handed|];
  }

  /** The law of the allocator, exactly: in every run no live frame is handed out again and every
      live frame stays marked, if and only if start-up leaves no frame exposed. */
  lemma HandoutSafety(lookup: Lookup, m: seq<Region>, s0: State)
    requires Sorted(m) && Start(m, s0)
    ensures NoneExposed(lookup, m, s0) <==> forall es, s :: Run(lookup, m, s0, es, s) ==> NoDuplicates(s.handed)
    ensures NoneExposed(lookup, m, s0) <==> forall es, s :: Run(lookup, m, s0, es, s) ==> Safe(s)
  {
    if NoneExposed(lookup, m, s0) {
      forall es, s | Run(lookup, m, s0, es, s)
        ensures Safe(s)
      {
        SafeRun(lookup, m, s0, s0, es, s);
      }
    } else {
      var f: nat :| Exposed(lookup, m, s0, f);
      var es, s := HandedOutTwice(lookup, m, s0, f);
      assert Run(lookup, m, s0, es, s) && !NoDuplicates(s.handed) && !Safe(s);
    }
  }

  /** Whatever the lookup, every frame handed out is usable, frames marked at start-up (the
      kernel's own among them) stay marked, and unmapping with a guard never fails. */
  lemma EveryRun(lookup: Lookup, m: seq<Region>, s0: State, es: seq<Event>, s: State)
    requires Start(m, s0) && Run(lookup, m, s0, es, s)
    ensures forall i :: 0 <= i < |s.handed| ==> IsUsable(m, s.handed[i])
    ensures s0.used <= s.used
    ensures forall p :: p in s0.mapping ==> p in s.mapping && s.mapping[p] == s0.mapping[p]
    ensures forall g :: g in s.guards ==> g.page in s.mapping && s.mapping[g.page] == g.page
    ensures forall g :: g in s.guards && g.page in s0.used ==> !g.unmapFrame
  {
    ReachableInv(lookup, m, s0, es, s);
  }

  ghost predicate Unguarded(s: State, p: nat) {
    p in s.mapping && forall g :: g in s.guards ==> g.page != p
  }

  /** From any state on, a page that is mapped without a guard keeps its frame for good: the pages
      of `map_range` do, whenever they were mapped. */
  lemma {:induction false} UnguardedKept(lookup: Lookup, m: seq<Region>, s: State, es: seq<Event>, s': State, p: nat)
    requires Run(lookup, m, s, es, s') && Unguarded(s, p)
    ensures Unguarded(s', p) && s'.mapping[p] == s.mapping[p]
    decreases |es|
  {
    if es != [] {
      var s1 :| Step(lookup, m, s, es[0], s1) && Run(lookup, m, s1, es[1..], s');
      UnguardedKept(lookup, m, s1, es[1..], s', p);
    }
  }

  /** From start-up on, and whatever the lookup, the frames of the kernel, its stack and of every
      other region that is neither usable nor a device's nor the firmware's stay marked, are never
      handed out, and are not released by any guard made for them. */
  lemma KernelFramesKept(lookup: Lookup, m: seq<Region>, garbage: set<nat>, n: nat, s0: State,
                         es: seq<Event>, s: State, i: nat, f: nat)
    requires Sorted(m) && HandedOver(m, garbage, n, s0.used) && Start(m, s0) && Run(lookup, m, s0, es, s)
    requires i < |m| && Contains(m[i], f) && m[i].ty !in {Usable, Reserved, AcpiReclaimable, FrameZero}
    ensures f in s.used && f !in s.handed
    ensures forall g :: g in s.guards && g.page == f ==> !g.unmapFrame
  {
    MarkedTypes(m, garbage, n, s0.used, i, f);
    assert forall j: nat :: j < |m| && Contains(m[j], f) ==> j == i;
    EveryRun(lookup, m, s0, es, s);
  }

  /** The bitmap is safe from the kernel that uses it: in every run its pages stay on their own
      bootstrap frames, which stay marked. */
  lemma BitmapKept(lookup: Lookup, m: seq<Region>, garbage: set<nat>, n: nat, table: map<nat, nat>, pages: nat,
                   s0: State, es: seq<Event>, s: State, p: nat)
    requires HandedOver(m, garbage, n, s0.used) && Start(m, s0) && Run(lookup, m, s0, es, s)
    requires PagesMapped(m, 0, n, table, s0.mapping, BITMAP_START_PAGE, pages)
    requires InRange(p, BITMAP_START_PAGE, pages)
    ensures p in s.mapping && s.mapping[p] == s0.mapping[p]
    ensures s.mapping[p] in Taken(m, n) && s.mapping[p] in s.used
    ensures forall q: nat :: InRange(q, BITMAP_START_PAGE, pages) && p < q ==>
      q in s.mapping && s.mapping[q] != s.mapping[p]
  {
    EveryRun(lookup, m, s0, es, s);
  }

  // ---------------------------------------------------------------- exhaustion is real

  /** No exposed frame has a free usable frame above it. */
  ghost predicate ExposedOnTop(lookup: Lookup, m: seq<Region>, s0: State) {
    forall f: nat, g: nat :: Exposed(lookup, m, s0, f) && IsUsable(m, g) && g !in s0.used ==> g <= f
  }

  /** An allocation that fails does so because every usable frame is used. */
  ghost predicate ExhaustionReal(m: seq<Region>, s: State) {
    NoneFree(m, s.used, s.next) ==> forall f: nat :: IsUsable(m, f) ==> f in s.used
  }

  lemma ExhaustionRun(lookup: Lookup, m: seq<Region>, s0: State, es: seq<Event>, s: State)
    requires Start(m, s0) && ExposedOnTop(lookup, m, s0) && Run(lookup, m, s0, es, s)
    ensures ExhaustionReal(m, s)
  {
    ReachableInv(lookup, m, s0, es, s);
    forall f: nat | NoneFree(m, s.used, s.next) && IsUsable(m, f)
      ensures f in s.used
    {
      assert !FreeFrom(m, s.used, s.next, f);
    }
  }

  /** Allocating until nothing is left never touches a frame below the cursor. */
  lemma {:induction false} AllocateAll(lookup: Lookup, m: seq<Region>, s: State)
    returns (es: seq<Event>, s': State)
    requires Sorted(m)
    ensures Run(lookup, m, s, es, s') && NoneFree(m, s'.used, s'.next)
    ensures forall f: nat :: f < s.next ==> (f in s'.used <==> f in s.used)
    decreases if m == [] || EndFrame(m) < s.next then 0 else EndFrame(m) - s.next, s.next !in s.used
  {
    var r := FreeOrNone(m, s.used, s.next);
    if r.None? {
      es, s' := [], s;
    } else {
      var g := r.value;
      UsableBelowEnd(m, g);
      var s1 := s.(used := s.used + {g}, next := g, handed := s.handed + [g]);
      assert Step(lookup, m, s, Allocate(g), s1);
      RunOne(lookup, m, s, Allocate(g), s1);
      var rest;
      rest, s' := AllocateAll(lookup, m, s1);
      RunConcat(lookup, m, s, [Allocate(g)], s1, rest, s');
      es := [Allocate(g)] + rest;
    }
  }

  /** Allocation only fails when every usable frame is used, in every run, if and only if no
      exposed frame lies below a free one: the cursor never moves back. */
  lemma ExhaustionSafety(lookup: Lookup, m: seq<Region>, s0: State)
    requires Sorted(m) && Start(m, s0)
    ensures ExposedOnTop(lookup, m, s0) <==> forall es, s :: Run(lookup, m, s0, es, s) ==> ExhaustionReal(m, s)
    ensures NoneExposed(lookup, m, s0) ==> ExposedOnTop(lookup, m, s0)
  {
    if ExposedOnTop(lookup, m, s0) {
      forall es, s | Run(lookup, m, s0, es, s)
        ensures ExhaustionReal(m, s)
      {
        ExhaustionRun(lookup, m, s0, es, s);
      }
    } else {
      var f: nat, g: nat :| Exposed(lookup, m, s0, f) && IsUsable(m, g) && g !in s0.used && f < g;
      var es1, s1 := ReleaseExposed(lookup, m, s0, f, g);
      var es2, s2 := AllocateAll(lookup, m, s1);
      RunConcat(lookup, m, s0, es1, s1, es2, s2);
      assert Run(lookup, m, s0, es1 + es2, s2) && !ExhaustionReal(m, s2);
    }
  }

  // ---------------------------------------------------------------- which frames are exposed

  /** With the containment test no frame is ever exposed. */
  lemma ContainmentIsSafe(m: seq<Region>, s0: State)
    requires Sorted(m)
    ensures NoneExposed(Containment, m, s0)
  {
    forall f: nat
      ensures !Exposed(Containment, m, s0, f)
    {
      ContainmentLookup(m, f);
    }
  }

  /** Frame `f` lies in usable region `i`, not at its start, and the next region has a type that
      `mmap_dev` accepts. */
  ghost predicate BeforeDevice(m: seq<Region>, i: nat, f: nat) {
    && InUsableRegion(m, i, f) && m[i].start < f
    && i + 1 < |m| && m[i + 1].ty in {Reserved, FrameZero, KernelStack}
  }

  /** With the written test the exposed frames are the free and unmapped ones of usable regions,
      other than the first of the region, where a device region comes next in the map. */
  lemma WrittenExposes(m: seq<Region>, s0: State, f: nat)
    requires Sorted(m)
    ensures Exposed(AsWritten, m, s0, f) <==>
      f !in s0.used && f !in s0.mapping && exists i: nat :: BeforeDevice(m, i, f)
  {
    if i: nat :| InUsableRegion(m, i, f) {
      WrittenIsNext(m, f, i);
      ContainmentLookup(m, f);
      assert forall j: nat :: InUsableRegion(m, j, f) ==> j == i;
      assert DeviceType(GetFrameTy(AsWritten, m, f), true) ==> BeforeDevice(m, i, f);
    }
  }

  /** The law for the code as it is written: it holds in every run exactly when each frame of a
      usable region that has a device region next in the map, other than the region's first, is
      already used or has its identity page mapped when start-up ends. */
  lemma WrittenHandoutSafety(m: seq<Region>, s0: State)
    requires Sorted(m) && Start(m, s0)
    ensures (forall es, s :: Run(AsWritten, m, s0, es, s) ==> Safe(s)) <==>
      forall i: nat, f: nat :: BeforeDevice(m, i, f) ==> f in s0.used || f in s0.mapping
  {
    HandoutSafety(AsWritten, m, s0);
    forall f: nat
      ensures Exposed(AsWritten, m, s0, f) <==>
        f !in s0.used && f !in s0.mapping && exists i: nat :: BeforeDevice(m, i, f)
    {
      WrittenExposes(m, s0, f);
    }
  }

  /** Real exhaustion for the code as it is written: it holds in every run exactly when each such
      frame that has a free usable frame above it is already used or has its identity page mapped. */
  lemma WrittenExhaustionSafety(m: seq<Region>, s0: State)
    requires Sorted(m) && Start(m, s0)
    ensures (forall es, s :: Run(AsWritten, m, s0, es, s) ==> ExhaustionReal(m, s)) <==>
      forall i: nat, f: nat, g: nat :: BeforeDevice(m, i, f) && IsUsable(m, g) && g !in s0.used && f < g ==>
        f in s0.used || f in s0.mapping
  {
    ExhaustionSafety(AsWritten, m, s0);
    forall f: nat
      ensures Exposed(AsWritten, m, s0, f) <==>
        f !in s0.used && f !in s0.mapping && exists i: nat :: BeforeDevice(m, i, f)
    {
      WrittenExposes(m, s0, f);
    }
  }

  /** The law with the containment test: it holds in every run, on every map. */
  lemma ContainmentHandoutSafety(m: seq<Region>, s0: State)
    requires Sorted(m) && Start(m, s0)
    ensures forall es, s :: Run(Containment, m, s0, es, s) ==> Safe(s) && ExhaustionReal(m, s)
  {
    ContainmentIsSafe(m, s0);
    HandoutSafety(Containment, m, s0);
    ExhaustionSafety(Containment, m, s0);
  }

  // ---------------------------------------------------------------- machines on which the laws fail

  /** Usable memory from frame 1 to `end`, with frame zero before it and a device after it. */
  function Machine(end: nat): seq<Region> {
    [Region(FrameZero, 0, 1), Region(Usable, 1, end), Region(Reserved, end, end + 1)]
  }

  /** What start-up leaves on it: frame 1 holds the one page of bitmap. */
  function MachineStart(): State {
    State({1}, 0, map[BITMAP_START_PAGE := 1], {}, [1])
  }

  /** `s0` is the state that start-up leaves on `m`, over cleared memory. */
  ghost predicate StartedUp(m: seq<Region>, s0: State) {
    && ValidMap(m) && Start(m, s0)
    && HandedOver(m, {}, 1, s0.used) && s0.handed == BootFrames(m, 1)
    && BitmapPages(EndFrame(m)) == 1
    && MapPages(m, 0, map[], [Walk(0, false)], BITMAP_START_PAGE) == Some(s0.mapping)
  }

  /** A small machine on which the written test hands a frame out twice. */
  lemma WrittenCounterexample() returns (m: seq<Region>, s0: State, es: seq<Event>, s: State)
    ensures StartedUp(m, s0)
    ensures Run(AsWritten, m, s0, es, s) && !NoDuplicates(s.handed)
  {
    m, s0 := Machine(3), MachineStart();
    MachineStartsUp(3);
    MachineExposes(3);
    es, s := HandedOutTwice(AsWritten, m, s0, 2);
  }

  /** One more usable frame, and with the written test allocation fails although frame 2 is free. */
  lemma WrittenExhaustionCounterexample() returns (m: seq<Region>, s0: State, es: seq<Event>, s: State)
    ensures StartedUp(m, s0)
    ensures Run(AsWritten, m, s0, es, s) && NoneFree(m, s.used, s.next) && IsUsable(m, 2) && 2 !in s.used
  {
    m, s0 := Machine(4), MachineStart();
    MachineStartsUp(4);
    MachineExposes(4);
    assert InUsableRegion(m, 1, 3);
    var es1, s1 := ReleaseExposed(AsWritten, m, s0, 2, 3);
    var es2;
    es2, s := AllocateAll(AsWritten, m, s1);
    RunConcat(AsWritten, m, s0, es1, s1, es2, s);
    es := es1 + es2;
  }

  lemma MachineExposes(end: nat)
    requires 2 < end
    ensures ValidMap(Machine(end)) && Start(Machine(end), MachineStart())
    ensures Exposed(AsWritten, Machine(end), MachineStart(), 2)
  {
    assert InUsableRegion(Machine(end), 1, 1) && BeforeDevice(Machine(end), 1, 2);
    WrittenExposes(Machine(end), MachineStart(), 2);
  }

  lemma MachineFrames(m: seq<Region>)
    requires |m| == 3 && !m[0].ty.Usable? && m[1].ty.Usable? && m[1].start == 1 < m[1].end
    ensures 0 < |UsableFrames(m)| && UsableFrames(m)[0] == (1, 1)
  {
    UsableFramesSlice(m, 0);
    UsableFramesSlice(m, 1);
    UsableFramesSlice(m, 2);
    assert m[..3] == m && m[..0] == [];
    assert UsableFrames(m)[0..m[1].end - 1] == FramesOf(m[1], 1);
  }

  lemma MachineKernel(m: seq<Region>)
    requires |m| == 3 && forall i :: 0 <= i < 3 ==> LeftUnmarked(m[i].ty)
    ensures KernelFrames(m, |m|) == {}
  {
    assert KernelFrames(m, 3) == KernelFrames(m, 2) == KernelFrames(m, 1) == {};
  }

  lemma MachineMapping(m: seq<Region>, page: nat)
    requires 0 < |UsableFrames(m)| && UsableFrames(m)[0] == (1, 1)
    ensures MapPages(m, 0, map[], [Walk(0, false)], page) == Some(map[page := 1])
  {
    assert [Walk(0, false)][1..] == [];
  }

  lemma MachineStartsUp(end: nat)
    requires 2 < end < BITS_PER_FRAME
    ensures StartedUp(Machine(end), MachineStart())
  {
    var m := Machine(end);
    MachineFrames(m);
    MachineKernel(m);
    MachineMapping(m, BITMAP_START_PAGE);
    MachineExposes(end);
    assert forall f :: f in Taken(m, 1) <==> f == UsableFrames(m)[0].0;
  }
}
