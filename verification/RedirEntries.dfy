/**
Redirection entries of the I/O APIC: 64-bit words with one field for each property of an
interrupt line, as the setters and getters of the kernel see them.
*/
module RedirEntries {
  import opened Wrappers
  import opened Words

  datatype DeliveryMode = Normal | LowPriority | SMInterrupt | NMInterrupt | Init | External | Reserved

  /** The fields that have a setter. */
  datatype Field = Vector | Delivery | Logical | LowActive | LevelSensitive | Masked

  /** The bit positions of a field. */
  function Mask(f: Field): Word {
    match f
    case Vector => Interval(0, 8)
    case Delivery => Interval(8, 11)
    case Logical => {11}
    case LowActive => {13}
    case LevelSensitive => {15}
    case Masked => {16}
  }

  function ModeBits(mode: DeliveryMode): Word
    requires !mode.Reserved?
  {
    match mode
    case Normal => {}
    case LowPriority => {0}
    case SMInterrupt => {1}
    case NMInterrupt => {2}
    case Init => {0, 2}
    case External => {0, 1, 2}
  }

  function ModeOf(bits: Word): DeliveryMode {
    if bits == {} then Normal
    else if bits == {0} then LowPriority
    else if bits == {1} then SMInterrupt
    else if bits == {2} then NMInterrupt
    else if bits == {0, 2} then Init
    else if bits == {0, 1, 2} then External
    else Reserved
  }

  // ---------------------------------------------------------------- getters

  function GetVector(e: Word): nat {
    Number(e * Interval(0, 8), 8)
  }

  function GetDeliveryMode(e: Word): DeliveryMode {
    ModeOf(ShiftRight(e, 8) * Interval(0, 3))
  }

  /** The getters of one bit, which shift it down and test it. */
  predicate GetBit(e: Word, position: nat) {
    ShiftRight(e, position) * {0} != {}
  }

  // ---------------------------------------------------------------- setters

  /** A call of a setter. Setting the mode to `Reserved` panics, so it is not a valid call. */
  datatype Call =
    | SetVector(vector: nat)
    | SetDeliveryMode(mode: DeliveryMode)
    | SetLogicalMode(on: bool)
    | SetLowIsActive(on: bool)
    | SetLevelSensitive(on: bool)
    | SetMasked(on: bool)
  {
    predicate Valid() {
      match this
      case SetVector(v) => v < 256
      case SetDeliveryMode(mode) => !mode.Reserved?
      case _ => true
    }

    function Field(): Field {
      match this
      case SetVector(_) => Vector
      case SetDeliveryMode(_) => Delivery
      case SetLogicalMode(_) => Logical
      case SetLowIsActive(_) => LowActive
      case SetLevelSensitive(_) => LevelSensitive
      case SetMasked(_) => Masked
    }

    /** The new value, in the position of the field. */
    function Value(): Word
      requires Valid()
    {
      match this
      case SetVector(v) => WordOf(v, 8)
      case SetDeliveryMode(mode) => ShiftLeft(ModeBits(mode), 8)
      case SetLogicalMode(on) => if on then {11} else {}
      case SetLowIsActive(on) => if on then {13} else {}
      case SetLevelSensitive(on) => if on then {15} else {}
      case SetMasked(on) => if on then {16} else {}
    }

    /** The setter as it is written: the vector is only ORed in, the others toggle their field
        before the OR. */
    function Written(e: Word): Word
      requires Valid()
    {
      if SetVector? then e + Value() else Xor(e, Mask(Field())) + Value()
    }

    /** The setter as it is meant: the field is cleared before the OR. */
    function Intended(e: Word): Word
      requires Valid()
    {
      (e - Mask(Field())) + Value()
    }

    /** The bits of the field that the written setter leaves set whatever the new value: the old
        ones for the vector, the complement of the old ones for the others. */
    function LeftOver(e: Word): Word {
      if SetVector? then e * Mask(Field()) else Mask(Field()) - e
    }

    /** The getter of the field returns the value of this call. */
    predicate ReadsBack(e: Word)
      requires Valid()
    {
      match this
      case SetVector(v) => GetVector(e) == v
      case SetDeliveryMode(mode) => GetDeliveryMode(e) == mode
      case SetLogicalMode(on) => GetBit(e, 11) == on
      case SetLowIsActive(on) => GetBit(e, 13) == on
      case SetLevelSensitive(on) => GetBit(e, 15) == on
      case SetMasked(on) => GetBit(e, 16) == on
    }
  }

  lemma ValueInField(c: Call)
    requires c.Valid()
    ensures c.Value() <= Mask(c.Field())
  {
    if c.SetVector? {
      PowersOfTwo();
      WordRoundTrip(c.vector, 8);
    }
  }

  lemma VectorReadsBack(v: nat, e: Word)
    requires v < 256
    ensures GetVector(e) == v <==> e * Interval(0, 8) == WordOf(v, 8)
  {
    PowersOfTwo();
    WordRoundTrip(v, 8);
    NumberRoundTrip(e * Interval(0, 8), 8);
  }

  lemma BitReadsBack(on: bool, e: Word, position: nat)
    ensures GetBit(e, position) == on <==> e * {position} == if on then {position} else {}
  {
    InShiftRight(e, position, 0);
    assert GetBit(e, position) ==> 0 in ShiftRight(e, position);
    assert 0 in ShiftRight(e, position) ==> 0 in ShiftRight(e, position) * {0};
    assert position in e ==> position in e * {position};
  }

  lemma ModeReadsBack(mode: DeliveryMode, e: Word)
    requires !mode.Reserved?
    ensures GetDeliveryMode(e) == mode <==> e * Interval(8, 11) == ShiftLeft(ModeBits(mode), 8)
  {
    ShiftedField(e, ModeBits(mode), 8, 3);
    SameMode(ShiftRight(e, 8) * Interval(0, 3), mode);
  }

  lemma SameMode(bits: Word, mode: DeliveryMode)
    requires !mode.Reserved?
    ensures ModeOf(bits) == mode <==> bits == ModeBits(mode)
  {
    assert 0 in {0, 2} && 1 !in {0, 2} && 1 in {0, 1, 2} && 2 !in {0} && 2 !in {1};
  }

  /** A getter returns the value of a call exactly when the field holds that value. */
  lemma ReadsBackIsField(c: Call, e: Word)
    requires c.Valid()
    ensures c.ReadsBack(e) <==> e * Mask(c.Field()) == c.Value()
  {
    match c
    case SetVector(v) => VectorReadsBack(v, e);
    case SetDeliveryMode(mode) => ModeReadsBack(mode, e);
    case SetLogicalMode(on) => BitReadsBack(on, e, 11);
    case SetLowIsActive(on) => BitReadsBack(on, e, 13);
    case SetLevelSensitive(on) => BitReadsBack(on, e, 15);
    case SetMasked(on) => BitReadsBack(on, e, 16);
  }

  /** The code of a delivery mode. */
  function ModeCode(mode: DeliveryMode): nat
    requires !mode.Reserved?
  {
    match mode
    case Normal => 0
    case LowPriority => 1
    case SMInterrupt => 2
    case NMInterrupt => 4
    case Init => 5
    case External => 7
  }

  lemma ModeBitsCode(mode: DeliveryMode)
    requires !mode.Reserved?
    ensures Number(ModeBits(mode), 3) == ModeCode(mode)
  {
    var b := ModeBits(mode);
    assert Number(b, 3) == Number(b, 2) + if 2 in b then 4 else 0;
    assert Number(b, 2) == Number(b, 1) + if 1 in b then 2 else 0;
    assert Number(b, 1) == if 0 in b then 1 else 0;
  }

  lemma BitAsNumber(e: Word, position: nat)
    requires position < 64
    ensures Pow2(position) != 0
    ensures GetBit(e, position) <==> Number(e, 64) / Pow2(position) % 2 == 1
  {
    PowersOfTwo();
    NumberField(e, position, 1, 64);
    BitReadsBack(true, e, position);
    InShiftRight(e, position, 0);
    assert Number(ShiftRight(e, position), 1) == if 0 in ShiftRight(e, position) then 1 else 0;
  }

  /** The getters, by arithmetic on the 64-bit number. */
  predicate NumberReadsBack(c: Call, n: nat)
    requires c.Valid()
  {
    match c
    case SetVector(v) => n % 256 == v
    case SetDeliveryMode(mode) => n / 0x100 % 8 == ModeCode(mode)
    case SetLogicalMode(on) => (n / 0x800 % 2 == 1) == on
    case SetLowIsActive(on) => (n / 0x2000 % 2 == 1) == on
    case SetLevelSensitive(on) => (n / 0x8000 % 2 == 1) == on
    case SetMasked(on) => (n / 0x1_0000 % 2 == 1) == on
  }

  lemma ModeAsNumber(mode: DeliveryMode, e: Word)
    requires !mode.Reserved?
    ensures GetDeliveryMode(e) == mode <==> Number(e, 64) / 0x100 % 8 == ModeCode(mode)
  {
    PowersOfTwo();
    var bits := ShiftRight(e, 8) * Interval(0, 3);
    NumberField(e, 8, 3, 64);
    NumberAgree(ShiftRight(e, 8), bits, 3);
    SameMode(bits, mode);
    ModeBitsCode(mode);
    if Number(bits, 3) == ModeCode(mode) {
      NumberInjective(bits, ModeBits(mode), 3);
    }
  }

  /** Which bits each getter looks at. */
  lemma ReadsBackAsNumber(c: Call, e: Word)
    requires c.Valid()
    ensures c.ReadsBack(e) <==> NumberReadsBack(c, Number(e, 64))
  {
    PowersOfTwo();
    match c
    case SetVector(v) =>
      NumberParts(e, 8, 56);
      NumberAgree(e, e * Interval(0, 8), 8);
    case SetDeliveryMode(mode) => ModeAsNumber(mode, e);
    case SetLogicalMode(on) => BitAsNumber(e, 11);
    case SetLowIsActive(on) => BitAsNumber(e, 13);
    case SetLevelSensitive(on) => BitAsNumber(e, 15);
    case SetMasked(on) => BitAsNumber(e, 16);
  }

  /** Both forms change only their own field. The intended one always reads back; the written one
      reads back exactly when the left-over bits are among those of the new value. */
  lemma SetterExact(c: Call, e: Word)
    requires c.Valid()
    ensures c.Written(e) - Mask(c.Field()) == c.Intended(e) - Mask(c.Field()) == e - Mask(c.Field())
    ensures c.ReadsBack(c.Intended(e))
    ensures c.ReadsBack(c.Written(e)) <==> c.LeftOver(e) <= c.Value()
  {
    ValueInField(c);
    ReadsBackIsField(c, c.Intended(e));
    ReadsBackIsField(c, c.Written(e));
    assert c.Intended(e) * Mask(c.Field()) == c.Value();
    assert c.Written(e) * Mask(c.Field()) == c.LeftOver(e) + c.Value();
  }

  // ---------------------------------------------------------------- sequences of calls

  function Apply(e: Word, calls: seq<Call>): Word
    requires forall i :: 0 <= i < |calls| ==> calls[i].Valid()
    decreases |calls|
  {
    if calls == [] then e else Apply(calls[0].Written(e), calls[1..])
  }

  /** No sequence of setter calls changes a bit outside the fields that it sets. The bits without
      a setter, such as the busy bit and the destination, never change. */
  lemma {:induction false} SequencesKeepOtherFields(e: Word, calls: seq<Call>, bit: nat)
    requires forall i :: 0 <= i < |calls| ==> calls[i].Valid()
    requires forall i :: 0 <= i < |calls| ==> bit !in Mask(calls[i].Field())
    ensures bit in Apply(e, calls) <==> bit in e
    decreases |calls|
  {
    if calls != [] {
      SetterExact(calls[0], e);
      var next := calls[0].Written(e);
      assert bit in next - Mask(calls[0].Field()) <==> bit in e - Mask(calls[0].Field());
      SequencesKeepOtherFields(next, calls[1..], bit);
    }
  }

  lemma FieldsDisjoint(f: Field, g: Field)
    requires f != g
    ensures Mask(f) !! Mask(g)
  {
  }

  /** A field keeps its value under every sequence of calls of the other setters. */
  lemma SequencesKeepField(e: Word, calls: seq<Call>, f: Field)
    requires forall i :: 0 <= i < |calls| ==> calls[i].Valid() && calls[i].Field() != f
    ensures Apply(e, calls) * Mask(f) == e * Mask(f)
  {
    forall bit: nat | bit in Mask(f)
      ensures bit in Apply(e, calls) <==> bit in e
    {
      forall i | 0 <= i < |calls|
        ensures bit !in Mask(calls[i].Field())
      {
        FieldsDisjoint(calls[i].Field(), f);
      }
      SequencesKeepOtherFields(e, calls, bit);
    }
  }
}
