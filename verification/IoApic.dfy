/**
The I/O APICs: which chip and entry an interrupt is routed to, access to the entries through
the select/data register pair, and the set-up of the timer and keyboard interrupts.
*/
module IoApic {
  import opened Wrappers
  import opened Words
  import opened RedirEntries

  const REGISTERS: nat := 256
  const FIRST_ENTRY: nat := 0x10

  /** A chip: the first interrupt it handles, cut to a byte, the register selected, and the
      registers. */
  datatype Chip = Chip(base: nat, select: nat, regs: seq<Word>) {
    ghost predicate Valid() {
      base < 256 && |regs| == REGISTERS && forall r :: 0 <= r < REGISTERS ==> Fits(regs[r], 32)
    }
  }

  datatype Override = Override(isaSource: nat, globalSystemInterrupt: nat)

  // ---------------------------------------------------------------- routing

  ghost predicate FirstOverride(overrides: seq<Override>, vector: nat, i: int) {
    && 0 <= i < |overrides| && overrides[i].isaSource == vector
    && forall j :: 0 <= j < i ==> overrides[j].isaSource != vector
  }

  /** The interrupt that `vector` becomes: that of the first override for it, cut to a byte. */
  function GetInterruptSource(overrides: seq<Override>, vector: nat): (source: nat)
    ensures (forall i :: 0 <= i < |overrides| ==> overrides[i].isaSource != vector) ==> source == vector
    ensures forall i :: FirstOverride(overrides, vector, i) ==> source == overrides[i].globalSystemInterrupt % 256
  {
    if overrides == [] then vector
    else if overrides[0].isaSource == vector then overrides[0].globalSystemInterrupt % 256
    else GetInterruptSource(overrides[1..], vector)
  }

  /** The chip that should handle `vector`: the first with the greatest base not above it. */
  ghost predicate Handles(bases: seq<nat>, vector: nat, i: nat) {
    && i < |bases| && bases[i] <= vector
    && (forall j :: 0 <= j < |bases| && bases[j] <= vector ==> bases[j] <= bases[i])
    && (forall j :: 0 <= j < i ==> bases[j] != bases[i])
  }

  /** The result of the search over the first `n` chips. */
  function RoutedAmong(bases: seq<nat>, vector: nat, n: nat): (idx: nat)
    requires n <= |bases| && 0 < |bases|
    ensures idx < |bases|
  {
    if n == 0 then 0
    else
      var before := RoutedAmong(bases, vector, n - 1);
      if bases[n - 1] <= vector && bases[before] < bases[n - 1] then n - 1 else before
  }

  function RoutedTo(bases: seq<nat>, vector: nat): (idx: nat)
    requires 0 < |bases|
    ensures idx < |bases|
  {
    RoutedAmong(bases, vector, |bases|)
  }

  lemma {:induction false} RoutedAmongExact(bases: seq<nat>, vector: nat, n: nat)
    requires 0 < |bases| && n <= |bases|
    ensures var idx := RoutedAmong(bases, vector, n);
      && (0 < n ==> idx < n) && (n == 0 ==> idx == 0)
      && (vector < bases[0] ==> idx == 0)
      && (bases[0] <= vector ==>
            && bases[idx] <= vector
            && (forall j :: 0 <= j < n && bases[j] <= vector ==> bases[j] <= bases[idx])
            && (forall j :: 0 <= j < idx ==> bases[j] != bases[idx]))
  {
    if n != 0 {
      RoutedAmongExact(bases, vector, n - 1);
    }
  }

  /** The search starts from chip 0 without looking at its base, so it finds the right chip exactly
      when chip 0 has its base at or below the vector; else it stays at 0. */
  lemma RoutedExact(bases: seq<nat>, vector: nat)
    requires 0 < |bases|
    ensures Handles(bases, vector, RoutedTo(bases, vector)) <==> bases[0] <= vector
    ensures vector < bases[0] ==> RoutedTo(bases, vector) == 0
  {
    RoutedAmongExact(bases, vector, |bases|);
  }

  /** The search for the chip. */
  method GetInterruptIoApic(bases: seq<nat>, vector: nat) returns (idx: nat)
    requires 0 < |bases|
    ensures idx == RoutedTo(bases, vector)
    ensures Handles(bases, vector, idx) <==> bases[0] <= vector
    ensures vector < bases[0] ==> idx == 0
  {
    idx := 0;
    var currentBase := bases[0];
    for i := 0 to |bases|
      invariant idx < |bases| && currentBase == bases[idx]
      invariant idx == RoutedAmong(bases, vector, i)
    {
      if vector < bases[i] {
        continue;
      }
      if currentBase < bases[i] {
        idx := i;
        currentBase := bases[i];
      }
    }
    RoutedExact(bases, vector);
  }

  /** Two chips in the wrong order: the second handles interrupt 1, and the search stays at the
      first. */
  lemma RoutedCounterexample()
    ensures Handles([24, 0], 1, 1) && RoutedTo([24, 0], 1) == 0
  {
    RoutedExact([24, 0], 1);
  }

  // ---------------------------------------------------------------- the interrupt's own entry

  /** A chip and an entry of it. */
  datatype Location = Location(chip: nat, entry: nat)

  /** Interrupt `source` belongs to the chip that handles it, at its distance from the base. */
  ghost predicate IsOwn(bases: seq<nat>, source: nat, l: Location) {
    Handles(bases, source, l.chip) && l.entry + bases[l.chip] == source
  }

  /** Where the code looks: the interrupt number is the entry number, whatever the base. */
  function RouteOf(bases: seq<nat>, source: nat): Location
    requires 0 < |bases|
  {
    Location(RoutedTo(bases, source), source)
  }

  /** Chip 0 starts at zero and no other chip starts between one and the interrupt. */
  ghost predicate OneBaseBelow(bases: seq<nat>, source: nat) {
    0 < |bases| && bases[0] == 0 && forall j :: 0 <= j < |bases| ==> bases[j] == 0 || source < bases[j]
  }

  lemma OwnIsUnique(bases: seq<nat>, source: nat, l: Location, k: Location)
    requires IsOwn(bases, source, l) && IsOwn(bases, source, k)
    ensures l == k
  {
  }

  /** The code goes to the interrupt's own entry exactly under that condition. */
  lemma RouteExact(bases: seq<nat>, source: nat)
    requires 0 < |bases|
    ensures IsOwn(bases, source, RouteOf(bases, source)) <==> OneBaseBelow(bases, source)
  {
    RoutedAmongExact(bases, source, |bases|);
  }

  /** Two chips of 24 entries: interrupt 30 is entry 6 of the second chip, and the code goes to
      entry 30 of it. */
  lemma RouteCounterexample()
    ensures IsOwn([0, 24], 30, Location(1, 6)) && RouteOf([0, 24], 30) == Location(1, 30)
  {
    RoutedExact([0, 24], 30);
    assert RoutedAmong([0, 24], 30, 2) == 1;
  }

  /** The bases that the code keeps of those that the tables give. */
  function CutBases(global: seq<nat>): seq<nat> {
    seq(|global|, i requires 0 <= i < |global| => global[i] % 256)
  }

  /** An interrupt, which is a byte, still reaches its own entry exactly when chip 0 really starts at
      zero and no base ends up between one and the interrupt by being cut. */
  lemma CutRouteExact(global: seq<nat>, source: nat)
    requires 0 < |global| && source < 256
    ensures IsOwn(global, source, RouteOf(CutBases(global), source)) <==>
      global[0] == 0 && OneBaseBelow(CutBases(global), source)
    ensures (forall j :: 0 <= j < |global| ==> global[j] < 256) ==> CutBases(global) == global
  {
    var cut := CutBases(global);
    RoutedAmongExact(cut, source, |cut|);
    assert forall j :: 0 <= j < |global| && global[j] < 256 ==> cut[j] == global[j];
    assert forall j :: 0 <= j < |global| ==> cut[j] <= global[j];
  }

  /** A chip that starts at 264 is taken for one that starts at 8 and gets interrupt 10. */
  lemma CutRouteCounterexample()
    ensures IsOwn([0, 264], 10, Location(0, 10)) && RouteOf(CutBases([0, 264]), 10) == Location(1, 10)
  {
    assert CutBases([0, 264]) == [0, 8];
    assert RoutedAmong([0, 8], 10, 2) == 1;
  }

  // ---------------------------------------------------------------- entries in the registers

  /** The register numbers of an entry fit in a byte. */
  predicate InRange(entry: nat) {
    FIRST_ENTRY + 1 + 2 * entry < REGISTERS
  }

  /** Entry `j` of a chip: the high register above the low one. */
  function EntryOf(regs: seq<Word>, j: nat): Word
    requires |regs| == REGISTERS && InRange(j)
  {
    ShiftLeft(regs[FIRST_ENTRY + 1 + 2 * j], 32) + regs[FIRST_ENTRY + 2 * j]
  }

  /** Entry `j` is made of registers 0x10 + 2j, the low half, and 0x11 + 2j, the high half, whose
      numbers must fit in a byte. */
  lemma EntryRegisters(regs: seq<Word>, j: nat)
    requires |regs| == 256 && forall r :: 0 <= r < 256 ==> Fits(regs[r], 32)
    ensures InRange(j) <==> 0x11 + 2 * j < 256
    ensures InRange(j) ==>
      && EntryOf(regs, j) * Interval(0, 32) == regs[0x10 + 2 * j]
      && ShiftRight(EntryOf(regs, j), 32) == regs[0x11 + 2 * j]
  {
    if InRange(j) {
      var low, high, e := regs[0x10 + 2 * j], regs[0x11 + 2 * j], EntryOf(regs, j);
      forall i: nat
        ensures i in e <==> i in low || (32 <= i && i - 32 in high)
        ensures i in ShiftRight(e, 32) <==> i in high
      {
        InShiftLeft(high, 32, i);
        InShiftLeft(high, 32, i + 32);
        InShiftRight(e, 32, i);
      }
    }
  }

  /** The registers after both halves of entry `j` were written. */
  function WithEntry(regs: seq<Word>, j: nat, e: Word): seq<Word>
    requires |regs| == REGISTERS && InRange(j)
  {
    regs[FIRST_ENTRY + 2 * j := e * Interval(0, 32)][FIRST_ENTRY + 1 + 2 * j := ShiftRight(e, 32)]
  }

  /** Writing an entry and reading it back gives that entry; every other entry and every other
      register is as before. */
  lemma EntryRoundTrip(regs: seq<Word>, j: nat, e: Word)
    requires |regs| == REGISTERS && InRange(j)
    ensures EntryOf(WithEntry(regs, j, e), j) == e
    ensures forall k: nat :: InRange(k) && k != j ==> EntryOf(WithEntry(regs, j, e), k) == EntryOf(regs, k)
    ensures forall r :: 0 <= r < REGISTERS && r / 2 != (FIRST_ENTRY + 2 * j) / 2 ==> WithEntry(regs, j, e)[r] == regs[r]
  {
    HalvesRoundTrip(e);
  }

  function EntryCount(regs: seq<Word>): nat
    requires |regs| == REGISTERS
  {
    Number(ShiftRight(regs[1], 16) * Interval(0, 8), 8)
  }

  /** The count is in bits 16 to 23 of register 1. */
  lemma EntryCountExact(regs: seq<Word>)
    requires |regs| == 256
    ensures EntryCount(regs) == Number(regs[1], 32) / 0x1_0000 % 256
  {
    PowersOfTwo();
    NumberField(regs[1], 16, 8, 32);
    NumberAgree(ShiftRight(regs[1], 16), ShiftRight(regs[1], 16) * Interval(0, 8), 8);
  }

  /** The bound of `redir_entry`: the entry number is below the count that the chip reports, and
      the register number does not overflow its byte. */
  predicate Readable(regs: seq<Word>, j: nat)
    requires |regs| == REGISTERS
  {
    j < EntryCount(regs) && InRange(j)
  }

  /** The chip reports the number of its last entry, which the bound takes for a count: of the
      entries that the chip has, exactly the last one is refused. */
  lemma ReadableExact(regs: seq<Word>, j: nat)
    requires |regs| == REGISTERS && j <= EntryCount(regs) && InRange(j)
    ensures Readable(regs, j) <==> j != EntryCount(regs)
  {
  }

  /** A chip with 24 entries, of which entry 23 cannot be read. */
  lemma ReadableCounterexample() returns (regs: seq<Word>)
    ensures |regs| == REGISTERS && EntryCount(regs) == 23 && InRange(23) && !Readable(regs, 23)
  {
    regs := seq(REGISTERS, _ => {16, 17, 18, 20});
    var version := {16, 17, 18, 20};
    assert ShiftRight(version, 16) * Interval(0, 8) == {0, 1, 2, 4} by {
      forall i: nat
        ensures i in ShiftRight(version, 16) <==> i in {0, 1, 2, 4}
      {
        InShiftRight(version, 16, i);
      }
    }
    assert Pow2(4) == 16;
    assert Number({0, 1, 2, 4}, 5) == 23;
    assert Number({0, 1, 2, 4}, 8) == Number({0, 1, 2, 4}, 5);
  }

  // ---------------------------------------------------------------- setting up an entry

  /** The changes that `apic_init` makes to an entry. */
  function Configure(e: Word, vector: nat): Word
    requires vector < 256
  {
    SetMasked(false).Written(SetVector(vector).Written(e))
  }

  /** The entry delivers `vector` and is not masked. */
  predicate Delivers(e: Word, vector: nat) {
    GetVector(e) == vector && !GetBit(e, 16)
  }

  /** The entry comes out right exactly when it was masked before and had no vector bits of its
      own; an entry that was not masked ends up masked. */
  lemma ConfigureExact(e: Word, vector: nat)
    requires vector < 256
    ensures Delivers(Configure(e, vector), vector) <==> 16 in e && e * Interval(0, 8) <= WordOf(vector, 8)
    ensures 16 in Configure(e, vector) <==> 16 !in e
    ensures Configure(e, vector) - Interval(0, 8) - {16} == e - Interval(0, 8) - {16}
  {
    var e1, e2 := SetVector(vector).Written(e), Configure(e, vector);
    ValueInField(SetVector(vector));
    assert e2 * Interval(0, 8) == e * Interval(0, 8) + WordOf(vector, 8);
    VectorReadsBack(vector, e2);
    BitReadsBack(false, e2, 16);
    assert 16 in e2 ==> 16 in e2 * {16};
  }

  ghost predicate ValidLocation(regs: seq<seq<Word>>, l: Location) {
    l.chip < |regs| && |regs[l.chip]| == REGISTERS && InRange(l.entry)
  }

  /** The registers of all chips with the entry at `l` configured. */
  ghost function Configured(regs: seq<seq<Word>>, l: Location, vector: nat): seq<seq<Word>>
    requires ValidLocation(regs, l) && vector < 256
  {
    regs[l.chip := WithEntry(regs[l.chip], l.entry, Configure(EntryAt(regs, l), vector))]
  }

  ghost function EntryAt(regs: seq<seq<Word>>, l: Location): Word
    requires ValidLocation(regs, l)
  {
    EntryOf(regs[l.chip], l.entry)
  }

  /** Configuring one entry leaves every other entry of every chip alone. */
  lemma ConfiguredEntries(regs: seq<seq<Word>>, l: Location, vector: nat, k: Location)
    requires ValidLocation(regs, l) && ValidLocation(regs, k) && vector < 256
    ensures ValidLocation(Configured(regs, l, vector), k)
    ensures EntryAt(Configured(regs, l, vector), k) ==
      if k == l then Configure(EntryAt(regs, l), vector) else EntryAt(regs, k)
  {
    EntryRoundTrip(regs[l.chip], l.entry, Configure(EntryAt(regs, l), vector));
  }

  /** The registers after `apic_init` has set up the two entries it goes to. */
  ghost function AfterInit(regs: seq<seq<Word>>, timer: Location, keyboard: Location): seq<seq<Word>>
    requires ValidLocation(regs, timer) && ValidLocation(regs, keyboard)
  {
    ConfiguredEntries(regs, timer, 32, keyboard);
    Configured(Configured(regs, timer, 32), keyboard, 33)
  }

  /** Every entry after `apic_init`. */
  lemma EntriesAfterInit(regs: seq<seq<Word>>, timer: Location, keyboard: Location, l: Location)
    requires ValidLocation(regs, timer) && ValidLocation(regs, keyboard) && ValidLocation(regs, l)
    ensures ValidLocation(AfterInit(regs, timer, keyboard), l)
    ensures EntryAt(AfterInit(regs, timer, keyboard), l) ==
      var e := EntryAt(regs, l);
      var once := if l == timer then Configure(e, 32) else e;
      if l == keyboard then Configure(once, 33) else once
  {
    ConfiguredEntries(regs, timer, 32, keyboard);
    ConfiguredEntries(regs, timer, 32, l);
    ConfiguredEntries(Configured(regs, timer, 32), keyboard, 33, l);
  }

  /** Interrupt `source` is delivered as `vector`: its own entry says so. */
  ghost predicate Delivered(bases: seq<nat>, regs: seq<seq<Word>>, source: nat, vector: nat) {
    exists l :: IsOwn(bases, source, l) && ValidLocation(regs, l) && Delivers(EntryAt(regs, l), vector)
  }

  /** The own entry of `source` is masked and has no vector bits other than those of `vector`. */
  ghost predicate Fit(bases: seq<nat>, regs: seq<seq<Word>>, source: nat, vector: nat) {
    exists l :: IsOwn(bases, source, l) && ValidLocation(regs, l)
      && 16 in EntryAt(regs, l) && EntryAt(regs, l) * Interval(0, 8) <= WordOf(vector, 8)
  }

  lemma VectorsDiffer(e: Word)
    ensures 0 in Configure(e, 33)
    ensures !Delivers(Configure(e, 33), 32)
    ensures !(Delivers(e, 32) && Delivers(e, 33))
  {
    ValueInField(SetVector(33));
    BitsOf33();
    VectorReadsBack(32, Configure(e, 33));
    assert 0 in Configure(e, 33) * Interval(0, 8);
  }

  lemma BitsOf33()
    ensures WordOf(33, 8) == {0, 5} && WordOf(32, 8) == {5}
  {
    assert BitOf(33, 0) && !BitOf(33, 1) && !BitOf(33, 2) && !BitOf(33, 3);
    assert !BitOf(33, 4) && BitOf(33, 5) && !BitOf(33, 6) && !BitOf(33, 7);
    assert !BitOf(32, 0) && !BitOf(32, 1) && !BitOf(32, 2) && !BitOf(32, 3);
    assert !BitOf(32, 4) && BitOf(32, 5) && !BitOf(32, 6) && !BitOf(32, 7);
  }

  /** Setting up an entry for vector 32 makes it deliver 33 exactly when it was masked and bit 0 of
      its vector was set, with no bits other than those of 33. */
  lemma ConfigureOther(e: Word)
    ensures Delivers(Configure(e, 32), 33) <==> 16 in e && e * Interval(0, 8) + {5} == {0, 5}
  {
    var e2 := Configure(e, 32);
    BitsOf33();
    ConfigureExact(e, 32);
    assert e2 * Interval(0, 8) == e * Interval(0, 8) + {5};
    VectorReadsBack(33, e2);
    BitReadsBack(false, e2, 16);
    assert 16 in e2 ==> 16 in e2 * {16};
  }

  ghost predicate Ready(bases: seq<nat>, regs: seq<seq<Word>>, timer: nat, keyboard: nat) {
    && 0 < |bases| && ValidLocation(regs, RouteOf(bases, timer)) && ValidLocation(regs, RouteOf(bases, keyboard))
  }

  ghost function InitRegs(bases: seq<nat>, regs: seq<seq<Word>>, timer: nat, keyboard: nat): seq<seq<Word>>
    requires Ready(bases, regs, timer, keyboard)
  {
    AfterInit(regs, RouteOf(bases, timer), RouteOf(bases, keyboard))
  }

  /** What the timer needs. If the code goes to its own entry, that entry has to be fit. If not, the
      entry has to deliver already and must not be the one set up for the keyboard. */
  ghost predicate TimerOk(bases: seq<nat>, regs: seq<seq<Word>>, timer: nat, keyboard: nat)
    requires 0 < |bases|
  {
    if OneBaseBelow(bases, timer) then Fit(bases, regs, timer, 32)
    else Delivered(bases, regs, timer, 32) && !IsOwn(bases, timer, RouteOf(bases, keyboard))
  }

  /** What the keyboard needs: the same, except that its entry may be the one set up for the timer,
      if that happens to make it deliver 33. */
  ghost predicate KeyboardOk(bases: seq<nat>, regs: seq<seq<Word>>, timer: nat, keyboard: nat)
    requires Ready(bases, regs, timer, keyboard)
  {
    var t := RouteOf(bases, timer);
    if OneBaseBelow(bases, keyboard) then Fit(bases, regs, keyboard, 33)
    else if IsOwn(bases, keyboard, t) then 16 in EntryAt(regs, t) && EntryAt(regs, t) * Interval(0, 8) + {5} == {0, 5}
    else Delivered(bases, regs, keyboard, 33)
  }

  lemma SameShape(regs: seq<seq<Word>>, timer: Location, keyboard: Location, l: Location)
    requires ValidLocation(regs, timer) && ValidLocation(regs, keyboard)
    ensures ValidLocation(AfterInit(regs, timer, keyboard), l) <==> ValidLocation(regs, l)
  {
    ConfiguredEntries(regs, timer, 32, keyboard);
  }

  /** What is delivered is decided at the own entry. */
  lemma DeliveredAt(bases: seq<nat>, regs: seq<seq<Word>>, source: nat, vector: nat, l: Location)
    requires IsOwn(bases, source, l)
    ensures Delivered(bases, regs, source, vector) <==> ValidLocation(regs, l) && Delivers(EntryAt(regs, l), vector)
    ensures Fit(bases, regs, source, vector) <==>
      ValidLocation(regs, l) && 16 in EntryAt(regs, l) && EntryAt(regs, l) * Interval(0, 8) <= WordOf(vector, 8)
  {
    forall k | IsOwn(bases, source, k)
      ensures k == l
    {
      OwnIsUnique(bases, source, l, k);
    }
  }

  lemma TimerExact(bases: seq<nat>, regs: seq<seq<Word>>, timer: nat, keyboard: nat, l: Location)
    requires Ready(bases, regs, timer, keyboard) && timer != keyboard && IsOwn(bases, timer, l)
    ensures Delivered(bases, InitRegs(bases, regs, timer, keyboard), timer, 32) <==>
      TimerOk(bases, regs, timer, keyboard)
  {
    var t, k := RouteOf(bases, timer), RouteOf(bases, keyboard);
    RouteExact(bases, timer);
    DeliveredAt(bases, regs, timer, 32, l);
    DeliveredAt(bases, InitRegs(bases, regs, timer, keyboard), timer, 32, l);
    SameShape(regs, t, k, l);
    if OneBaseBelow(bases, timer) {
      OwnIsUnique(bases, timer, l, t);
    }
    if ValidLocation(regs, l) {
      EntriesAfterInit(regs, t, k, l);
      ConfigureExact(EntryAt(regs, l), 32);
      VectorsDiffer(if l == t then Configure(EntryAt(regs, l), 32) else EntryAt(regs, l));
    }
  }

  lemma KeyboardExact(bases: seq<nat>, regs: seq<seq<Word>>, timer: nat, keyboard: nat, l: Location)
    requires Ready(bases, regs, timer, keyboard) && timer != keyboard && IsOwn(bases, keyboard, l)
    ensures Delivered(bases, InitRegs(bases, regs, timer, keyboard), keyboard, 33) <==>
      KeyboardOk(bases, regs, timer, keyboard)
  {
    var t, k := RouteOf(bases, timer), RouteOf(bases, keyboard);
    RouteExact(bases, keyboard);
    DeliveredAt(bases, regs, keyboard, 33, l);
    DeliveredAt(bases, InitRegs(bases, regs, timer, keyboard), keyboard, 33, l);
    SameShape(regs, t, k, l);
    if OneBaseBelow(bases, keyboard) {
      OwnIsUnique(bases, keyboard, l, k);
    }
    if IsOwn(bases, keyboard, t) {
      OwnIsUnique(bases, keyboard, l, t);
    }
    if ValidLocation(regs, l) {
      EntriesAfterInit(regs, t, k, l);
      ConfigureExact(EntryAt(regs, l), 33);
      ConfigureOther(EntryAt(regs, l));
    }
  }

  lemma SameInterrupt(bases: seq<nat>, regs: seq<seq<Word>>, source: nat)
    ensures !(Delivered(bases, regs, source, 32) && Delivered(bases, regs, source, 33))
  {
    if Delivered(bases, regs, source, 32) {
      var l :| IsOwn(bases, source, l) && ValidLocation(regs, l) && Delivers(EntryAt(regs, l), 32);
      DeliveredAt(bases, regs, source, 33, l);
      VectorsDiffer(EntryAt(regs, l));
    }
  }

  /** After `apic_init` the timer and the keyboard are delivered as 32 and 33, each at its own entry
      of the chip that handles it, exactly when they are different interrupts and each has what it
      needs: for every list of chips and every content of their registers. */
  lemma InitExact(bases: seq<nat>, regs: seq<seq<Word>>, timer: nat, keyboard: nat)
    requires Ready(bases, regs, timer, keyboard)
    ensures var after := InitRegs(bases, regs, timer, keyboard);
      Delivered(bases, after, timer, 32) && Delivered(bases, after, keyboard, 33) <==>
      timer != keyboard && TimerOk(bases, regs, timer, keyboard) && KeyboardOk(bases, regs, timer, keyboard)
  {
    var after := InitRegs(bases, regs, timer, keyboard);
    if timer == keyboard {
      SameInterrupt(bases, after, timer);
    } else {
      RouteExact(bases, timer);
      RouteExact(bases, keyboard);
      if t :| IsOwn(bases, timer, t) {
        TimerExact(bases, regs, timer, keyboard, t);
      }
      if k :| IsOwn(bases, keyboard, k) {
        KeyboardExact(bases, regs, timer, keyboard, k);
      }
    }
  }

  /** When neither is delivered yet: they both are after `apic_init` exactly when they are different,
      their own entries are fit, and only base-0 chips start at or below them. */
  lemma InitDelivers(bases: seq<nat>, regs: seq<seq<Word>>, timer: nat, keyboard: nat)
    requires Ready(bases, regs, timer, keyboard)
    requires !Delivered(bases, regs, timer, 32) && !Delivered(bases, regs, keyboard, 33)
    ensures var after := InitRegs(bases, regs, timer, keyboard);
      Delivered(bases, after, timer, 32) && Delivered(bases, after, keyboard, 33) <==>
      && timer != keyboard
      && OneBaseBelow(bases, timer) && Fit(bases, regs, timer, 32)
      && OneBaseBelow(bases, keyboard) && Fit(bases, regs, keyboard, 33)
  {
    InitExact(bases, regs, timer, keyboard);
    RouteExact(bases, timer);
    if OneBaseBelow(bases, timer) && IsOwn(bases, keyboard, RouteOf(bases, timer)) {
      assert bases[RouteOf(bases, timer).chip] == 0;
    }
  }

  // ---------------------------------------------------------------- the controller

  function Bases(chips: seq<Chip>): seq<nat> {
    seq(|chips|, i requires 0 <= i < |chips| => chips[i].base)
  }

  /** The registers of all chips, without the selections. */
  function Registers(chips: seq<Chip>): seq<seq<Word>> {
    seq(|chips|, i requires 0 <= i < |chips| => chips[i].regs)
  }

  class Apic {
    const overrides: seq<Override>
    var chips: seq<Chip>

    ghost predicate Valid()
      reads this
    {
      0 < |chips| && forall i :: 0 <= i < |chips| ==> chips[i].Valid()
    }

    /** The chips of the tables. What is selected at first does not matter: every access selects its
        own register. */
    constructor (overrides: seq<Override>, global: seq<nat>, regs: seq<seq<Word>>)
      requires |regs| == |global|
      requires forall i :: 0 <= i < |regs| ==> Chip(0, 0, regs[i]).Valid()
      ensures this.overrides == overrides && Bases(chips) == CutBases(global) && Registers(chips) == regs
      ensures Valid() <==> 0 < |global|
    {
      this.overrides := overrides;
      chips := seq(|global|, i requires 0 <= i < |global| => Chip(global[i] % 256, 0, regs[i]));
    }

    /** Where an interrupt ends up, after overrides. */
    ghost function Route(vector: nat): Location
      requires Valid()
      reads this
    {
      var source := GetInterruptSource(overrides, vector);
      RouteOf(Bases(chips), source)
    }

    /** Selects a register and reads it. */
    method ReadReg(i: nat, reg: nat) returns (v: Word)
      requires Valid() && i < |chips| && reg < REGISTERS
      modifies this`chips
      ensures Valid() && Bases(chips) == old(Bases(chips)) && Registers(chips) == old(Registers(chips))
      ensures v == Registers(chips)[i][reg]
    {
      chips := chips[i := chips[i].(select := reg)];
      v := chips[i].regs[chips[i].select];
      assert Registers(chips) == old(Registers(chips));
    }

    /** Selects a register and writes it. */
    method WriteReg(i: nat, reg: nat, v: Word)
      requires Valid() && i < |chips| && reg < REGISTERS && Fits(v, 32)
      modifies this`chips
      ensures Valid() && Bases(chips) == old(Bases(chips))
      ensures Registers(chips) == old(Registers(chips))[i := old(Registers(chips))[i][reg := v]]
    {
      chips := chips[i := chips[i].(select := reg)];
      chips := chips[i := chips[i].(regs := chips[i].regs[chips[i].select := v])];
      assert Registers(chips) == old(Registers(chips))[i := old(Registers(chips))[i][reg := v]];
    }

    /** `None` stands for the panic on an entry that is out of bounds. */
    method ReadRedirEntry(i: nat, entry: nat) returns (r: Option<Word>)
      requires Valid() && i < |chips|
      modifies this`chips
      ensures Valid() && Bases(chips) == old(Bases(chips)) && Registers(chips) == old(Registers(chips))
      ensures r.Some? <==> Readable(Registers(chips)[i], entry)
      ensures r.Some? ==> r.value == EntryOf(Registers(chips)[i], entry)
    {
      var version := ReadReg(i, 1);
      var count := Number(ShiftRight(version, 16) * Interval(0, 8), 8);
      if entry >= count || FIRST_ENTRY + 1 + 2 * entry >= REGISTERS {
        return None;
      }
      var low := ReadReg(i, FIRST_ENTRY + entry * 2);
      var high := ReadReg(i, FIRST_ENTRY + 1 + entry * 2);
      return Some(ShiftLeft(high, 32) + low);
    }

    /** `ok` is false when the register number overflows its byte, which panics. */
    method WriteRedirEntry(i: nat, entry: nat, e: Word) returns (ok: bool)
      requires Valid() && i < |chips| && Fits(e, 64)
      modifies this`chips
      ensures Valid() && Bases(chips) == old(Bases(chips))
      ensures ok <==> InRange(entry)
      ensures ok ==> Registers(chips) == old(Registers(chips))[i := WithEntry(old(Registers(chips))[i], entry, e)]
      ensures !ok ==> chips == old(chips)
    {
      if FIRST_ENTRY + 1 + 2 * entry >= REGISTERS {
        return false;
      }
      WriteReg(i, FIRST_ENTRY + entry * 2, e * Interval(0, 32));
      WriteReg(i, FIRST_ENTRY + 1 + entry * 2, ShiftRight(e, 32));
      return true;
    }

    method GetEntry(vector: nat) returns (r: Option<Word>)
      requires Valid()
      modifies this`chips
      ensures Valid() && Bases(chips) == old(Bases(chips)) && Registers(chips) == old(Registers(chips))
      ensures r.Some? <==> Readable(Registers(chips)[Route(vector).chip], Route(vector).entry)
      ensures r.Some? ==> r.value == EntryAt(Registers(chips), Route(vector)) && Fits(r.value, 64)
    {
      var source := GetInterruptSource(overrides, vector);
      var idx := GetInterruptIoApic(Bases(chips), source);
      r := ReadRedirEntry(idx, source);
    }

    method SetEntry(vector: nat, e: Word) returns (ok: bool)
      requires Valid() && Fits(e, 64)
      modifies this`chips
      ensures Valid() && Bases(chips) == old(Bases(chips))
      ensures ok <==> InRange(Route(vector).entry)
      ensures ok ==> Registers(chips) == old(Registers(chips))[Route(vector).chip :=
        WithEntry(old(Registers(chips))[Route(vector).chip], Route(vector).entry, e)]
    {
      var source := GetInterruptSource(overrides, vector);
      var idx := GetInterruptIoApic(Bases(chips), source);
      ok := WriteRedirEntry(idx, source, e);
    }

    /** Reads, changes and writes back the entry of one interrupt. */
    method SetUp(vector: nat, target: nat) returns (ok: bool)
      requires Valid() && target < 256
      modifies this`chips
      ensures Valid() && Bases(chips) == old(Bases(chips))
      ensures ok <==> Readable(old(Registers(chips))[Route(vector).chip], Route(vector).entry)
      ensures ok ==> Registers(chips) == Configured(old(Registers(chips)), Route(vector), target)
    {
      var entry := GetEntry(vector);
      if entry.None? {
        return false;
      }
      var e := SetVector(target).Written(entry.value);
      e := SetMasked(false).Written(e);
      ValueInField(SetVector(target));
      ok := SetEntry(vector, e);
    }

    /** The entry updates of `apic_init`; `ok` is false on a panic. */
    method Init() returns (ok: bool)
      requires Valid()
      modifies this`chips
      ensures Valid() && Bases(chips) == old(Bases(chips))
      ensures ok <==>
        && Readable(old(Registers(chips))[Route(0).chip], Route(0).entry)
        && Readable(old(Registers(chips))[Route(1).chip], Route(1).entry)
      ensures ok ==>
        && ValidLocation(old(Registers(chips)), Route(0)) && ValidLocation(old(Registers(chips)), Route(1))
        && Registers(chips) == AfterInit(old(Registers(chips)), Route(0), Route(1))
    {
      ok := SetUp(0, 32);
      if ok {
        ghost var once := Registers(chips);
        assert EntryCount(once[Route(1).chip]) == EntryCount(old(Registers(chips))[Route(1).chip]);
        ok := SetUp(1, 33);
      }
    }
  }
}
