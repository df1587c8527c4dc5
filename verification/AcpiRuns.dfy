/**
The reference counts that the ACPI handler keeps on identity-mapped pages, over whole runs in
which regions are mapped and released page by page, tables and AML accesses pin pages, and the
rest of the kernel goes on allocating and mapping.
*/
module AcpiRuns {
  import opened MemoryMap
  import opened KernelRuns

  const PAGE_SIZE: nat := 0x1000

  /** A key's reference count and the guard of its mapping. */
  datatype Entry = Entry(count: nat, guard: Guard)

  /** A region on its way from being mapped to being released: its pages from `lo` to `hi` are
      held at the moment, and `end` is where mapping stops. */
  datatype Holding = Holding(lo: nat, hi: nat, end: nat)

  datatype AcpiState = AcpiState(
    kernel: State, refs: map<nat, Entry>, regions: map<nat, Holding>, pins: multiset<nat>)

  datatype AcpiEvent =
    | Elsewhere(event: Event)
    | Open(id: nat, address: nat, size: nat)
    | Extend(id: nat)
    | Release(id: nat)
    | Pin(address: nat)

  function FirstPage(address: nat): nat {
    address / PAGE_SIZE
  }

  /** One past the last frame of `range_inclusive` from the frame of `address` to the frame of
      `address + size`. */
  function EndPage(address: nat, size: nat): nat {
    (address + size) / PAGE_SIZE + 1
  }

  ghost predicate HandlerMap(lookup: Lookup, m: seq<Region>, k: State, refs: map<nat, Entry>, p: nat,
                             k': State, refs': map<nat, Entry>) {
    if p in refs then
      k' == k && refs' == refs[p := refs[p].(count := refs[p].count + 1)]
    else
      && Step(lookup, m, k, MapDevice(p, true), k')
      && refs' == refs[p := Entry(1, Guard(p, p !in k.used))]
  }

  /** The three ways in which `unmap` could panic: the key is missing, the count underflows, or
      the page of the guard is not mapped. */
  ghost predicate UnmapSucceeds(k: State, refs: map<nat, Entry>, p: nat) {
    && p in refs && 0 < refs[p].count
    && (refs[p].count == 1 ==> refs[p].guard in k.guards && refs[p].guard.page in k.mapping)
  }

  ghost predicate HandlerUnmap(lookup: Lookup, m: seq<Region>, k: State, refs: map<nat, Entry>, p: nat,
                               k': State, refs': map<nat, Entry>) {
    && UnmapSucceeds(k, refs, p)
    && if refs[p].count == 1 then
         Step(lookup, m, k, Unmap(refs[p].guard), k') && refs' == refs - {p}
       else
         k' == k && refs' == refs[p := refs[p].(count := refs[p].count - 1)]
  }

  ghost predicate AcpiStep(lookup: Lookup, m: seq<Region>, s: AcpiState, e: AcpiEvent, s': AcpiState) {
    match e
    case Elsewhere(event) =>
      && Step(lookup, m, s.kernel, event, s'.kernel)
      // The handler's guards are its own: nobody else can hand them to `unmap`.
      && (event.Unmap? ==> forall p :: p in s.refs ==> s.refs[p].guard != event.guard)
      && s' == s.(kernel := s'.kernel)
    case Open(id, address, size) =>
      && id !in s.regions
      && s' == s.(regions := s.regions[id := Holding(FirstPage(address), FirstPage(address), EndPage(address, size))])
    case Extend(id) =>
      && id in s.regions && s.regions[id].hi < s.regions[id].end
      && HandlerMap(lookup, m, s.kernel, s.refs, s.regions[id].hi, s'.kernel, s'.refs)
      && s' == AcpiState(s'.kernel, s'.refs, s.regions[id := s.regions[id].(hi := s.regions[id].hi + 1)], s.pins)
    case Release(id) =>
      && id in s.regions && s.regions[id].lo < s.regions[id].hi == s.regions[id].end
      && HandlerUnmap(lookup, m, s.kernel, s.refs, s.regions[id].lo, s'.kernel, s'.refs)
      && s' == AcpiState(s'.kernel, s'.refs, s.regions[id := s.regions[id].(lo := s.regions[id].lo + 1)], s.pins)
    case Pin(address) =>
      && HandlerMap(lookup, m, s.kernel, s.refs, FirstPage(address), s'.kernel, s'.refs)
      && s' == AcpiState(s'.kernel, s'.refs, s.regions, s.pins + multiset{FirstPage(address)})
  }

  ghost predicate AcpiRun(lookup: Lookup, m: seq<Region>, s: AcpiState, es: seq<AcpiEvent>, s': AcpiState)
    decreases |es|
  {
    if es == [] then s' == s
    else exists s1 :: AcpiStep(lookup, m, s, es[0], s1) && AcpiRun(lookup, m, s1, es[1..], s')
  }

  lemma AcpiRunCons(lookup: Lookup, m: seq<Region>, s: AcpiState, e: AcpiEvent, s1: AcpiState,
                    es: seq<AcpiEvent>, s2: AcpiState)
    requires AcpiStep(lookup, m, s, e, s1) && AcpiRun(lookup, m, s1, es, s2)
    ensures AcpiRun(lookup, m, s, [e] + es, s2)
  {
    assert ([e] + es)[1..] == es;
  }

  lemma AcpiRunHead(lookup: Lookup, m: seq<Region>, s: AcpiState, es: seq<AcpiEvent>, s': AcpiState)
    returns (t: AcpiState)
    requires es != [] && AcpiRun(lookup, m, s, es, s')
    ensures AcpiStep(lookup, m, s, es[0], t) && AcpiRun(lookup, m, t, es[1..], s')
  {
    t :| AcpiStep(lookup, m, s, es[0], t) && AcpiRun(lookup, m, t, es[1..], s');
  }

  lemma {:induction false} AcpiRunConcat(lookup: Lookup, m: seq<Region>, s: AcpiState, es: seq<AcpiEvent>,
                                         s1: AcpiState, es': seq<AcpiEvent>, s2: AcpiState)
    requires AcpiRun(lookup, m, s, es, s1) && AcpiRun(lookup, m, s1, es', s2)
    ensures AcpiRun(lookup, m, s, es + es', s2)
    decreases |es|
  {
    if es == [] {
      assert es + es' == es';
    } else {
      var t := AcpiRunHead(lookup, m, s, es, s1);
      var rest := es[1..] + es';
      assert es + es' == [es[0]] + rest;
      AcpiRunConcat(lookup, m, t, es[1..], s1, es', s2);
      AcpiRunCons(lookup, m, s, es[0], t, rest, s2);
    }
  }

  lemma AcpiRunSnoc(lookup: Lookup, m: seq<Region>, s: AcpiState, es: seq<AcpiEvent>, s1: AcpiState,
                    e: AcpiEvent, s2: AcpiState)
    requires AcpiRun(lookup, m, s, es, s1) && AcpiStep(lookup, m, s1, e, s2)
    ensures AcpiRun(lookup, m, s, es + [e], s2)
  {
    assert AcpiRun(lookup, m, s2, [], s2);
    AcpiRunCons(lookup, m, s1, e, s2, [], s2);
    assert [e] + [] == [e];
    AcpiRunConcat(lookup, m, s, es, s1, [e], s2);
  }

  /** The page tables drawn before a mapping, as events of the whole system. */
  ghost function Draws(es: seq<Event>): (ds: seq<AcpiEvent>)
    ensures |ds| == |es|
  {
    seq(|es|, i requires 0 <= i < |es| => Elsewhere(es[i]))
  }

  lemma {:induction false} DrawsRun(lookup: Lookup, m: seq<Region>, s: AcpiState, es: seq<Event>, k': State)
    requires Run(lookup, m, s.kernel, es, k') && DrawEvents(es)
    ensures AcpiRun(lookup, m, s, Draws(es), s.(kernel := k'))
    decreases |es|
  {
    if es != [] {
      var k1 :| Step(lookup, m, s.kernel, es[0], k1) && Run(lookup, m, k1, es[1..], k');
      var s1 := s.(kernel := k1);
      assert AcpiStep(lookup, m, s, Elsewhere(es[0]), s1);
      DrawsRun(lookup, m, s1, es[1..], k');
      assert Draws(es)[1..] == Draws(es[1..]);
      assert s1.(kernel := k') == s.(kernel := k');
    }
  }

  // ---------------------------------------------------------------- conservation of references

  /** The regions that hold page `p`. */
  ghost function Covering(regions: map<nat, Holding>, p: nat): set<nat> {
    set id | id in regions && regions[id].lo <= p < regions[id].hi
  }

  /** The references to page `p` that exist: live regions covering it, and permanent pins. */
  ghost function References(s: AcpiState, p: nat): nat {
    |Covering(s.regions, p)| + s.pins[p]
  }

  function CountOf(refs: map<nat, Entry>, p: nat): nat {
    if p in refs then refs[p].count else 0
  }

  ghost predicate KeysCounted(refs: map<nat, Entry>) {
    forall p: nat :: p in refs <==> 0 < CountOf(refs, p)
  }

  /** Each count is the number of references, and there is a key exactly when there are any. */
  ghost predicate Conserved(s: AcpiState) {
    forall p: nat :: CountOf(s.refs, p) == References(s, p) && (p in s.refs <==> 0 < References(s, p))
  }

  /** Every key has a live guard of its own, whose page is identity mapped. */
  ghost predicate Held(s: AcpiState) {
    forall p: nat :: p in s.refs ==>
      && s.refs[p].guard.page == p && s.refs[p].guard in s.kernel.guards
      && p in s.kernel.mapping && s.kernel.mapping[p] == p
  }

  ghost predicate Ordered(s: AcpiState) {
    forall id :: id in s.regions ==> s.regions[id].lo <= s.regions[id].hi <= s.regions[id].end
  }

  ghost predicate AcpiInv(lookup: Lookup, m: seq<Region>, k0: State, s: AcpiState) {
    Inv(lookup, m, k0, s.kernel) && Conserved(s) && Held(s) && Ordered(s)
  }

  ghost predicate AcpiStart(m: seq<Region>, s: AcpiState) {
    Start(m, s.kernel) && s.refs == map[] && s.regions == map[] && s.pins == multiset{}
  }

  lemma ExtendCovering(regions: map<nat, Holding>, id: nat, p: nat)
    requires id in regions && regions[id].lo <= regions[id].hi
    ensures |Covering(regions[id := regions[id].(hi := regions[id].hi + 1)], p)| ==
      |Covering(regions, p)| + if p == regions[id].hi then 1 else 0
  {
    var after := regions[id := regions[id].(hi := regions[id].hi + 1)];
    if p == regions[id].hi {
      assert Covering(after, p) == Covering(regions, p) + {id};
    } else {
      assert Covering(after, p) == Covering(regions, p);
    }
  }

  lemma ReleaseCovering(regions: map<nat, Holding>, id: nat, p: nat)
    requires id in regions && regions[id].lo < regions[id].hi
    ensures |Covering(regions, p)| ==
      |Covering(regions[id := regions[id].(lo := regions[id].lo + 1)], p)| + if p == regions[id].lo then 1 else 0
  {
    var after := regions[id := regions[id].(lo := regions[id].lo + 1)];
    if p == regions[id].lo {
      assert Covering(regions, p) == Covering(after, p) + {id};
    } else {
      assert Covering(after, p) == Covering(regions, p);
    }
  }

  /** Mapping adds one to the count of its page and to no other. */
  lemma HandlerMapCounts(refs: map<nat, Entry>, p: nat, refs': map<nat, Entry>, guard: Guard)
    requires KeysCounted(refs)
    requires refs' == if p in refs then refs[p := refs[p].(count := refs[p].count + 1)] else refs[p := Entry(1, guard)]
    ensures forall q: nat :: CountOf(refs', q) == CountOf(refs, q) + if q == p then 1 else 0
    ensures KeysCounted(refs')
  {
  }

  lemma HandlerUnmapCounts(refs: map<nat, Entry>, p: nat, refs': map<nat, Entry>)
    requires p in refs && 0 < refs[p].count && KeysCounted(refs)
    requires refs' == if refs[p].count == 1 then refs - {p} else refs[p := refs[p].(count := refs[p].count - 1)]
    ensures forall q: nat :: CountOf(refs, q) == CountOf(refs', q) + if q == p then 1 else 0
    ensures KeysCounted(refs')
  {
  }

  lemma HandlerMapKeeps(lookup: Lookup, m: seq<Region>, k0: State, s: AcpiState, p: nat, s': AcpiState)
    requires Inv(lookup, m, k0, s.kernel) && Held(s)
    requires HandlerMap(lookup, m, s.kernel, s.refs, p, s'.kernel, s'.refs)
    ensures Inv(lookup, m, k0, s'.kernel)
    ensures Held(s')
  {
    if p !in s.refs {
      StepKeepsInv(lookup, m, k0, s.kernel, MapDevice(p, true), s'.kernel);
    }
  }

  lemma UnmapKeepsHeld(k: State, k': State, s: AcpiState, p: nat, s': AcpiState)
    requires Held(s) && s.kernel == k && p in s.refs && s'.refs == s.refs - {p}
    requires s'.kernel == k' && k'.guards == k.guards - {s.refs[p].guard} && k'.mapping == k.mapping - {p}
    ensures Held(s')
  {
  }

  lemma HandlerUnmapKeeps(lookup: Lookup, m: seq<Region>, k0: State, s: AcpiState, p: nat, s': AcpiState)
    requires Inv(lookup, m, k0, s.kernel) && Held(s)
    requires HandlerUnmap(lookup, m, s.kernel, s.refs, p, s'.kernel, s'.refs)
    ensures Inv(lookup, m, k0, s'.kernel)
    ensures Held(s')
  {
    if s.refs[p].count == 1 {
      StepKeepsInv(lookup, m, k0, s.kernel, Unmap(s.refs[p].guard), s'.kernel);
      UnmapKeepsHeld(s.kernel, s'.kernel, s, p, s');
    }
  }

  lemma HandlerStepKeepsHeld(lookup: Lookup, m: seq<Region>, k0: State, s: AcpiState, e: AcpiEvent, s': AcpiState)
    requires Inv(lookup, m, k0, s.kernel) && Held(s) && AcpiStep(lookup, m, s, e, s')
    ensures Inv(lookup, m, k0, s'.kernel) && Held(s')
  {
    match e
    case Elsewhere(event) =>
      StepKeepsInv(lookup, m, k0, s.kernel, event, s'.kernel);
    case Open(_, _, _) =>
    case Extend(id) =>
      HandlerMapKeeps(lookup, m, k0, s, s.regions[id].hi, s');
    case Release(id) =>
      HandlerUnmapKeeps(lookup, m, k0, s, s.regions[id].lo, s');
    case Pin(address) =>
      HandlerMapKeeps(lookup, m, k0, s, FirstPage(address), s');
  }

  lemma ExtendKeepsConserved(lookup: Lookup, m: seq<Region>, s: AcpiState, id: nat, s': AcpiState)
    requires Conserved(s) && Ordered(s) && AcpiStep(lookup, m, s, Extend(id), s')
    ensures Conserved(s')
  {
    var q := s.regions[id].hi;
    HandlerMapCounts(s.refs, q, s'.refs, Guard(q, q !in s.kernel.used));
    forall p: nat
      ensures References(s', p) == References(s, p) + if p == q then 1 else 0
    {
      ExtendCovering(s.regions, id, p);
    }
  }

  lemma ReleaseKeepsConserved(lookup: Lookup, m: seq<Region>, s: AcpiState, id: nat, s': AcpiState)
    requires Conserved(s) && Ordered(s) && AcpiStep(lookup, m, s, Release(id), s')
    ensures Conserved(s')
  {
    var q := s.regions[id].lo;
    HandlerUnmapCounts(s.refs, q, s'.refs);
    forall p: nat
      ensures References(s, p) == References(s', p) + if p == q then 1 else 0
    {
      ReleaseCovering(s.regions, id, p);
    }
  }

  lemma PinKeepsConserved(lookup: Lookup, m: seq<Region>, s: AcpiState, address: nat, s': AcpiState)
    requires Conserved(s) && AcpiStep(lookup, m, s, Pin(address), s')
    ensures Conserved(s')
  {
    var q := FirstPage(address);
    HandlerMapCounts(s.refs, q, s'.refs, Guard(q, q !in s.kernel.used));
    assert forall p: nat :: References(s', p) == References(s, p) + if p == q then 1 else 0;
  }

  lemma OpenKeepsConserved(lookup: Lookup, m: seq<Region>, s: AcpiState, e: AcpiEvent, s': AcpiState)
    requires e.Open? || e.Elsewhere?
    requires Conserved(s) && AcpiStep(lookup, m, s, e, s')
    ensures Conserved(s')
  {
    assert forall p: nat :: Covering(s'.regions, p) == Covering(s.regions, p);
    assert forall p: nat :: References(s', p) == References(s, p);
  }

  lemma StepKeepsOrdered(lookup: Lookup, m: seq<Region>, s: AcpiState, e: AcpiEvent, s': AcpiState)
    requires Ordered(s) && AcpiStep(lookup, m, s, e, s')
    ensures Ordered(s')
  {
    if e.Open? {
      assert FirstPage(e.address) < EndPage(e.address, e.size);
    }
  }

  lemma StepKeepsConserved(lookup: Lookup, m: seq<Region>, s: AcpiState, e: AcpiEvent, s': AcpiState)
    requires Conserved(s) && Ordered(s) && AcpiStep(lookup, m, s, e, s')
    ensures Conserved(s')
  {
    match e
    case Elsewhere(_) => OpenKeepsConserved(lookup, m, s, e, s');
    case Open(_, _, _) => OpenKeepsConserved(lookup, m, s, e, s');
    case Extend(id) => ExtendKeepsConserved(lookup, m, s, id, s');
    case Release(id) => ReleaseKeepsConserved(lookup, m, s, id, s');
    case Pin(address) => PinKeepsConserved(lookup, m, s, address, s');
  }

  lemma AcpiStepKeepsInv(lookup: Lookup, m: seq<Region>, k0: State, s: AcpiState, e: AcpiEvent, s': AcpiState)
    requires AcpiInv(lookup, m, k0, s) && AcpiStep(lookup, m, s, e, s')
    ensures AcpiInv(lookup, m, k0, s')
  {
    HandlerStepKeepsHeld(lookup, m, k0, s, e, s');
    StepKeepsConserved(lookup, m, s, e, s');
    StepKeepsOrdered(lookup, m, s, e, s');
  }

  lemma {:induction false} AcpiRunKeepsInv(lookup: Lookup, m: seq<Region>, k0: State, s: AcpiState,
                                           es: seq<AcpiEvent>, s': AcpiState)
    requires AcpiInv(lookup, m, k0, s) && AcpiRun(lookup, m, s, es, s')
    ensures AcpiInv(lookup, m, k0, s')
    decreases |es|
  {
    if es != [] {
      var s1 :| AcpiStep(lookup, m, s, es[0], s1) && AcpiRun(lookup, m, s1, es[1..], s');
      AcpiStepKeepsInv(lookup, m, k0, s, es[0], s1);
      AcpiRunKeepsInv(lookup, m, k0, s1, es[1..], s');
    }
  }

  // ---------------------------------------------------------------- the page table of the others

  /** The page table without the handler's pages. */
  ghost function Foreign(s: AcpiState): map<nat, nat> {
    s.kernel.mapping - s.refs.Keys
  }

  /** What an event does to the pages of others: nothing, unless it maps or unmaps elsewhere. */
  ghost function ForeignEffect(table: map<nat, nat>, e: AcpiEvent): map<nat, nat> {
    match e
    case Elsewhere(MapPage(page, frame)) => table[page := frame]
    case Elsewhere(MapDevice(frame, _)) => table[frame := frame]
    case Elsewhere(Unmap(guard)) => table - {guard.page}
    case _ => table
  }

  ghost function ForeignReplay(table: map<nat, nat>, es: seq<AcpiEvent>): map<nat, nat>
    decreases |es|
  {
    if es == [] then table else ForeignReplay(ForeignEffect(table, es[0]), es[1..])
  }

  lemma HandlerMapForeign(lookup: Lookup, m: seq<Region>, s: AcpiState, p: nat, s': AcpiState)
    requires HandlerMap(lookup, m, s.kernel, s.refs, p, s'.kernel, s'.refs)
    ensures Foreign(s') == Foreign(s)
  {
  }

  lemma HandlerUnmapForeign(lookup: Lookup, m: seq<Region>, s: AcpiState, p: nat, s': AcpiState)
    requires HandlerUnmap(lookup, m, s.kernel, s.refs, p, s'.kernel, s'.refs) && s.refs[p].guard.page == p
    ensures Foreign(s') == Foreign(s)
  {
  }

  /** No two guards are for the same page, so the guards of others are for pages of others. */
  lemma GuardsOfOthers(lookup: Lookup, m: seq<Region>, k0: State, s: AcpiState, g: Guard)
    requires Inv(lookup, m, k0, s.kernel) && Held(s)
    requires g in s.kernel.guards && forall p :: p in s.refs ==> s.refs[p].guard != g
    ensures g.page !in s.refs
  {
  }

  lemma ElsewhereForeign(lookup: Lookup, m: seq<Region>, s: AcpiState, e: Event, s': AcpiState)
    requires Held(s) && AcpiStep(lookup, m, s, Elsewhere(e), s')
    requires e.Unmap? ==> e.guard.page !in s.refs
    ensures Foreign(s') == ForeignEffect(Foreign(s), Elsewhere(e))
  {
  }

  /** The handler's own steps leave the pages of others alone. */
  lemma StepForeign(lookup: Lookup, m: seq<Region>, k0: State, s: AcpiState, e: AcpiEvent, s': AcpiState)
    requires Inv(lookup, m, k0, s.kernel) && Held(s) && AcpiStep(lookup, m, s, e, s')
    ensures Foreign(s') == ForeignEffect(Foreign(s), e)
  {
    match e
    case Elsewhere(event) =>
      if event.Unmap? {
        GuardsOfOthers(lookup, m, k0, s, event.guard);
      }
      ElsewhereForeign(lookup, m, s, event, s');
    case Open(_, _, _) =>
    case Extend(id) => HandlerMapForeign(lookup, m, s, s.regions[id].hi, s');
    case Release(id) => HandlerUnmapForeign(lookup, m, s, s.regions[id].lo, s');
    case Pin(address) => HandlerMapForeign(lookup, m, s, FirstPage(address), s');
  }

  lemma {:induction false} RunForeign(lookup: Lookup, m: seq<Region>, k0: State, s: AcpiState,
                                      es: seq<AcpiEvent>, s': AcpiState)
    requires AcpiInv(lookup, m, k0, s) && AcpiRun(lookup, m, s, es, s')
    ensures Foreign(s') == ForeignReplay(Foreign(s), es)
    decreases |es|
  {
    if es != [] {
      var s1 :| AcpiStep(lookup, m, s, es[0], s1) && AcpiRun(lookup, m, s1, es[1..], s');
      StepForeign(lookup, m, k0, s, es[0], s1);
      AcpiStepKeepsInv(lookup, m, k0, s, es[0], s1);
      RunForeign(lookup, m, k0, s1, es[1..], s');
    }
  }

  function IdentityOn(pages: set<nat>): map<nat, nat> {
    map p | p in pages :: p
  }

  /** The page table is the others' pages and the identity on the handler's, without overlap. */
  ghost predicate TableIs(s: AcpiState, others: map<nat, nat>) {
    others.Keys !! s.refs.Keys && s.kernel.mapping == others + IdentityOn(s.refs.Keys)
  }

  lemma HeldTable(s: AcpiState)
    requires Held(s)
    ensures TableIs(s, Foreign(s))
  {
    var whole := Foreign(s) + IdentityOn(s.refs.Keys);
    assert forall p: nat :: p in s.refs.Keys <==> p in s.refs;
    forall p: nat
      ensures p in whole <==> p in s.kernel.mapping
      ensures p in whole ==> whole[p] == s.kernel.mapping[p]
    {
    }
    assert whole == s.kernel.mapping;
  }

  // ---------------------------------------------------------------- the law of the handler

  lemma StartInv(lookup: Lookup, m: seq<Region>, s0: AcpiState)
    requires AcpiStart(m, s0)
    ensures AcpiInv(lookup, m, s0.kernel, s0) && Foreign(s0) == s0.kernel.mapping
  {
    assert forall p: nat :: Covering(s0.regions, p) == {};
    assert forall p: nat :: References(s0, p) == 0;
  }

  /** Every page that a region holds has a key, so a release of it succeeds. */
  lemma HoldingHasKeys(lookup: Lookup, m: seq<Region>, k0: State, s: AcpiState, id: nat, p: nat)
    requires AcpiInv(lookup, m, k0, s)
    requires id in s.regions && s.regions[id].lo <= p < s.regions[id].hi
    ensures UnmapSucceeds(s.kernel, s.refs, p)
  {
    assert id in Covering(s.regions, p);
    assert 0 < References(s, p);
  }

  /** The law of the handler, in every run: each page's count is the number of live regions
      covering it plus its pins; a key is there exactly when that number is positive; the page
      table is what the others mapped and the identity on exactly the pages with a key; and the
      release of any held page succeeds. */
  lemma ReferenceConservation(lookup: Lookup, m: seq<Region>, s0: AcpiState, es: seq<AcpiEvent>, s: AcpiState)
    requires AcpiStart(m, s0) && AcpiRun(lookup, m, s0, es, s)
    ensures AcpiInv(lookup, m, s0.kernel, s)
    ensures forall p: nat :: CountOf(s.refs, p) == References(s, p)
    ensures forall p: nat :: 0 < References(s, p) <==> p in s.refs
    ensures TableIs(s, ForeignReplay(s0.kernel.mapping, es))
    ensures forall id, p: nat :: id in s.regions && s.regions[id].lo <= p < s.regions[id].hi ==>
      UnmapSucceeds(s.kernel, s.refs, p)
  {
    StartInv(lookup, m, s0);
    AcpiRunKeepsInv(lookup, m, s0.kernel, s0, es, s);
    RunForeign(lookup, m, s0.kernel, s0, es, s);
    HeldTable(s);
    forall id, p: nat | id in s.regions && s.regions[id].lo <= p < s.regions[id].hi
      ensures UnmapSucceeds(s.kernel, s.refs, p)
    {
      HoldingHasKeys(lookup, m, s0.kernel, s, id, p);
    }
  }

  // ---------------------------------------------------------------- taking and releasing

  /** Between `s` and `t` the handler's region operations balance: the regions of `s` hold what
      they held, and every region opened since has been released or was never mapped. */
  ghost predicate Balanced(s: AcpiState, t: AcpiState) {
    && (forall id :: id in s.regions ==> id in t.regions && t.regions[id] == s.regions[id])
    && (forall id :: id in t.regions && id !in s.regions ==> t.regions[id].lo == t.regions[id].hi)
  }

  lemma BalancedCovering(s: AcpiState, t: AcpiState, p: nat)
    requires Balanced(s, t)
    ensures Covering(t.regions, p) == Covering(s.regions, p)
  {
  }

  /** After balanced region operations, with any pins and any events elsewhere among them, each
      count has grown by exactly the pins since, and the page table is the others' part, replayed,
      and the identity on the pages that still have a key. */
  lemma BalancedRestores(lookup: Lookup, m: seq<Region>, s0: AcpiState, es: seq<AcpiEvent>, s: AcpiState,
                         es': seq<AcpiEvent>, t: AcpiState)
    requires AcpiStart(m, s0) && AcpiRun(lookup, m, s0, es, s) && AcpiRun(lookup, m, s, es', t)
    requires Balanced(s, t)
    ensures forall p: nat :: CountOf(t.refs, p) + s.pins[p] == CountOf(s.refs, p) + t.pins[p]
    ensures TableIs(t, ForeignReplay(Foreign(s), es'))
  {
    ReferenceConservation(lookup, m, s0, es, s);
    AcpiRunKeepsInv(lookup, m, s0.kernel, s, es', t);
    RunForeign(lookup, m, s0.kernel, s, es', t);
    HeldTable(t);
    forall p: nat
      ensures CountOf(t.refs, p) + s.pins[p] == CountOf(s.refs, p) + t.pins[p]
    {
      BalancedCovering(s, t, p);
      assert CountOf(t.refs, p) == References(t, p) && CountOf(s.refs, p) == References(s, p);
    }
  }

  /** An event that maps or unmaps a page outside the handler. */
  predicate MapsElsewhere(e: AcpiEvent) {
    e.Elsewhere? && (e.event.MapPage? || e.event.MapDevice? || e.event.Unmap?)
  }

  lemma {:induction false} ReplayNothing(table: map<nat, nat>, es: seq<AcpiEvent>)
    requires forall i :: 0 <= i < |es| ==> !MapsElsewhere(es[i])
    ensures ForeignReplay(table, es) == table
    decreases |es|
  {
    if es != [] {
      assert !MapsElsewhere(es[0]);
      ReplayNothing(table, es[1..]);
    }
  }

  lemma TwoPointsInv(lookup: Lookup, m: seq<Region>, s0: AcpiState, es: seq<AcpiEvent>, s: AcpiState,
                     es': seq<AcpiEvent>, t: AcpiState)
    requires AcpiStart(m, s0) && AcpiRun(lookup, m, s0, es, s) && AcpiRun(lookup, m, s, es', t)
    ensures Held(s) && KeysCounted(s.refs) && KeysCounted(t.refs)
  {
    StartInv(lookup, m, s0);
    AcpiRunKeepsInv(lookup, m, s0.kernel, s0, es, s);
    AcpiRunKeepsInv(lookup, m, s0.kernel, s, es', t);
  }

  lemma SameCountsSameTable(s: AcpiState, t: AcpiState, others: map<nat, nat>)
    requires KeysCounted(s.refs) && KeysCounted(t.refs) && TableIs(s, others) && TableIs(t, others)
    requires forall p: nat :: CountOf(t.refs, p) == CountOf(s.refs, p)
    ensures t.refs.Keys == s.refs.Keys && t.kernel.mapping == s.kernel.mapping
  {
    forall p: nat
      ensures p in t.refs.Keys <==> p in s.refs.Keys
    {
      assert p in t.refs <==> 0 < CountOf(t.refs, p);
    }
  }

  /** Any number of regions taken and released again between `s` and `t`, overlapping or not, with
      frames allocated elsewhere: the counts, the keys and the page table of `s` are back. */
  lemma TakenAndReleased(lookup: Lookup, m: seq<Region>, s0: AcpiState, es: seq<AcpiEvent>, s: AcpiState,
                         es': seq<AcpiEvent>, t: AcpiState)
    requires AcpiStart(m, s0) && AcpiRun(lookup, m, s0, es, s) && AcpiRun(lookup, m, s, es', t)
    requires Balanced(s, t) && t.pins == s.pins
    requires forall i :: 0 <= i < |es'| ==> !MapsElsewhere(es'[i])
    ensures forall p: nat :: CountOf(t.refs, p) == CountOf(s.refs, p)
    ensures t.refs.Keys == s.refs.Keys && t.kernel.mapping == s.kernel.mapping
  {
    BalancedRestores(lookup, m, s0, es, s, es', t);
    ReplayNothing(Foreign(s), es');
    TwoPointsInv(lookup, m, s0, es, s, es', t);
    HeldTable(s);
    SameCountsSameTable(s, t, Foreign(s));
  }

  /** Every step of the handler is a step of the kernel or leaves it alone, so the laws of the
      frame allocator hold with the handler running too. */
  lemma {:induction false} KernelPart(lookup: Lookup, m: seq<Region>, s: AcpiState, es: seq<AcpiEvent>, s': AcpiState)
    returns (ks: seq<Event>)
    requires AcpiRun(lookup, m, s, es, s')
    ensures Run(lookup, m, s.kernel, ks, s'.kernel)
    decreases |es|
  {
    if es == [] {
      return [];
    }
    var s1 :| AcpiStep(lookup, m, s, es[0], s1) && AcpiRun(lookup, m, s1, es[1..], s');
    var rest := KernelPart(lookup, m, s1, es[1..], s');
    ks := rest;
    if s1.kernel != s.kernel {
      var e := KernelEvent(lookup, m, s, es[0], s1);
      RunOne(lookup, m, s.kernel, e, s1.kernel);
      RunConcat(lookup, m, s.kernel, [e], s1.kernel, rest, s'.kernel);
      ks := [e] + rest;
    }
  }

  lemma KernelEvent(lookup: Lookup, m: seq<Region>, s: AcpiState, e: AcpiEvent, s': AcpiState) returns (k: Event)
    requires AcpiStep(lookup, m, s, e, s') && s'.kernel != s.kernel
    ensures Step(lookup, m, s.kernel, k, s'.kernel)
  {
    k := match e
      case Elsewhere(event) => event
      case Open(_, _, _) => Exhausted
      case Extend(id) => MapDevice(s.regions[id].hi, true)
      case Release(id) => Unmap(s.refs[s.regions[id].lo].guard)
      case Pin(address) => MapDevice(FirstPage(address), true);
  }

  lemma AcpiRunsAreSafe(lookup: Lookup, m: seq<Region>, s0: AcpiState, es: seq<AcpiEvent>, s: AcpiState)
    requires Sorted(m) && AcpiStart(m, s0) && AcpiRun(lookup, m, s0, es, s)
    requires NoneExposed(lookup, m, s0.kernel)
    ensures Safe(s.kernel) && ExhaustionReal(m, s.kernel)
  {
    var ks := KernelPart(lookup, m, s0, es, s);
    SafeRun(lookup, m, s0.kernel, s0.kernel, ks, s.kernel);
    ExhaustionRun(lookup, m, s0.kernel, ks, s.kernel);
  }
}
