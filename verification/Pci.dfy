/**
PCI configuration space through the address and data ports, the narrow accesses built on it,
and the search for devices.
*/
module Pci {
  import opened Wrappers
  import opened Words

  /** A function of a device: bus below 256, device below 32, function below 8. */
  datatype Address = Address(bus: nat, device: nat, func: nat) {
    predicate Valid() {
      bus < 256 && device < 32 && func < 8
    }

    /** The place of the function in bus, device, function order. */
    function Key(): nat {
      (bus * 32 + device) * 8 + func
    }
  }

  /** What the data port gives for each address word; a missing one reads as all ones. */
  type Space = map<Word, Word>

  // ---------------------------------------------------------------- addresses

  /** The word written to the address port: only the low byte of the offset gets in. */
  function ConfigWord(a: Address, offset: nat): Word {
    ShiftLeft(WordOf(a.func, 3), 8) + ShiftLeft(WordOf(a.device, 5), 11) + ShiftLeft(WordOf(a.bus, 8), 16)
    + {31} + WordOf(offset % 256, 8)
  }

  /** The four fields of the word sit apart. */
  lemma ConfigFields(a: Address, offset: nat)
    requires a.Valid()
    ensures var w := ConfigWord(a, offset);
      && w * Interval(8, 11) == ShiftLeft(WordOf(a.func, 3), 8)
      && w * Interval(11, 16) == ShiftLeft(WordOf(a.device, 5), 11)
      && w * Interval(16, 24) == ShiftLeft(WordOf(a.bus, 8), 16)
      && w * Interval(0, 8) == WordOf(offset % 256, 8)
  {
    PowersOfTwo();
    WordRoundTrip(a.func, 3);
    WordRoundTrip(a.device, 5);
    WordRoundTrip(a.bus, 8);
    WordRoundTrip(offset % 256, 8);
    ShiftedFits(WordOf(a.func, 3), 8, 3);
    ShiftedFits(WordOf(a.device, 5), 11, 5);
    ShiftedFits(WordOf(a.bus, 8), 16, 8);
  }

  lemma ShiftedFits(a: Word, k: nat, width: nat)
    requires Fits(a, width)
    ensures ShiftLeft(a, k) <= Interval(k, k + width)
  {
  }

  /** The address word as a number: bit 31, then bus, device and function from bits 16, 11 and 8 on,
      then the low byte of the offset. */
  lemma ConfigWordNumber(a: Address, offset: nat)
    requires a.Valid()
    ensures Fits(ConfigWord(a, offset), 32)
    ensures Number(ConfigWord(a, offset), 32) ==
      0x8000_0000 + a.bus * 0x1_0000 + a.device * 0x800 + a.func * 0x100 + offset % 256
  {
    PowersOfTwo();
    var f, d, b := ShiftLeft(WordOf(a.func, 3), 8), ShiftLeft(WordOf(a.device, 5), 11), ShiftLeft(WordOf(a.bus, 8), 16);
    var o := WordOf(offset % 256, 8);
    WordRoundTrip(a.func, 3);
    WordRoundTrip(a.device, 5);
    WordRoundTrip(a.bus, 8);
    WordRoundTrip(offset % 256, 8);
    NumberShiftLeft(WordOf(a.func, 3), 8, 3, 32);
    NumberShiftLeft(WordOf(a.device, 5), 11, 5, 32);
    NumberShiftLeft(WordOf(a.bus, 8), 16, 8, 32);
    NumberWiden(o, 8, 32);
    NumberUnion(f, d, 32);
    NumberUnion(f + d, b, 32);
    NumberUnion(f + d + b, {31}, 32);
    NumberUnion(f + d + b + {31}, o, 32);
    NumberOfNothing({31}, 31);
  }

  lemma WordOfInjective(v: nat, w: nat, n: nat)
    requires v < Pow2(n) && w < Pow2(n) && WordOf(v, n) == WordOf(w, n)
    ensures v == w
  {
    WordRoundTrip(v, n);
    WordRoundTrip(w, n);
  }

  lemma ShiftLeftInjective(a: Word, b: Word, k: nat)
    requires ShiftLeft(a, k) == ShiftLeft(b, k)
    ensures a == b
  {
    forall i: nat
      ensures i in a <==> i in b
    {
      InShiftLeft(a, k, i + k);
      InShiftLeft(b, k, i + k);
    }
  }

  /** The address word tells functions and registers apart, except that offsets of 256 and above
      fall on those below. */
  lemma ConfigWordExact(a: Address, offset: nat, b: Address, offset': nat)
    requires a.Valid() && b.Valid()
    ensures ConfigWord(a, offset) == ConfigWord(b, offset') <==> a == b && offset % 256 == offset' % 256
  {
    if ConfigWord(a, offset) == ConfigWord(b, offset') {
      PowersOfTwo();
      ConfigFields(a, offset);
      ConfigFields(b, offset');
      ShiftLeftInjective(WordOf(a.func, 3), WordOf(b.func, 3), 8);
      ShiftLeftInjective(WordOf(a.device, 5), WordOf(b.device, 5), 11);
      ShiftLeftInjective(WordOf(a.bus, 8), WordOf(b.bus, 8), 16);
      WordOfInjective(a.func, b.func, 3);
      WordOfInjective(a.device, b.device, 5);
      WordOfInjective(a.bus, b.bus, 8);
      WordOfInjective(offset % 256, offset' % 256, 8);
    }
  }

  // ---------------------------------------------------------------- reading and writing

  /** What the data port gives for an address word. */
  function AtPort(space: Space, w: Word): Word {
    if w in space then space[w] else Interval(0, 32)
  }

  /** `None` stands for the panic on an offset that is not a multiple of four. */
  function Read(space: Space, a: Address, offset: nat): Option<Word> {
    if offset % 4 != 0 then None else Some(AtPort(space, ConfigWord(a, offset)))
  }

  function Write(space: Space, a: Address, offset: nat, v: Word): Option<Space> {
    if offset % 4 != 0 then None else Some(space[ConfigWord(a, offset) := v])
  }

  lemma AddFours(x: int, k: int)
    ensures (x + 4 * k) % 4 == x % 4
  {
  }

  lemma SameLowByte(offset: nat, offset': nat)
    requires offset % 256 == offset' % 256
    ensures offset % 4 == offset' % 4
  {
    var k := 64 * (offset / 256 - offset' / 256);
    assert offset == offset' + 4 * k;
    AddFours(offset', k);
  }

  lemma PortRoundTrip(space: Space, w: Word, v: Word, w': Word)
    ensures AtPort(space[w := v], w') == if w == w' then v else AtPort(space, w')
  {
  }

  /** Reading back what was written, and nothing else has changed. */
  lemma ReadAfterWrite(space: Space, a: Address, offset: nat, v: Word, b: Address, offset': nat)
    requires a.Valid() && b.Valid() && offset % 4 == 0
    ensures Read(Write(space, a, offset, v).value, b, offset') ==
      if a == b && offset % 256 == offset' % 256 then Some(v) else Read(space, b, offset')
  {
    ConfigWordExact(a, offset, b, offset');
    PortRoundTrip(space, ConfigWord(a, offset), v, ConfigWord(b, offset'));
    if offset % 256 == offset' % 256 {
      SameLowByte(offset, offset');
    }
  }

  // ---------------------------------------------------------------- narrow accesses

  /** The dword around an offset: `offset & 0xFFFC`. */
  function Aligned(offset: nat): (o: nat) {
    offset - offset % 4
  }

  /** Byte `k` of a dword. */
  function ByteOf(d: Word, k: nat): Word {
    ShiftRight(d, 8 * k) * Interval(0, 8)
  }

  /** Half `k` of a dword. */
  function HalfOf(d: Word, k: nat): Word {
    ShiftRight(d, 16 * k) * Interval(0, 16)
  }

  function ReadU8(space: Space, a: Address, offset: nat): Word {
    ByteOf(Read(space, a, Aligned(offset)).value, offset % 4)
  }

  /** The 16-bit read picks its half by `offset % 2`. */
  function ReadU16(space: Space, a: Address, offset: nat): Word {
    HalfOf(Read(space, a, Aligned(offset)).value, offset % 2)
  }

  lemma InByte(d: Word, k: nat, i: nat)
    ensures i in ShiftLeft(ByteOf(d, k), 8 * k) <==> i in d && 8 * k <= i < 8 * k + 8
  {
    InShiftLeft(ByteOf(d, k), 8 * k, i);
    if 8 * k <= i {
      InShiftRight(d, 8 * k, i - 8 * k);
    }
  }

  lemma {:induction false} LowBytes(d: Word, n: nat)
    ensures d * Interval(0, 8 * n) == BytesBelow(d, n)
  {
    if n != 0 {
      LowBytes(d, n - 1);
      forall i: nat
        ensures i in d * Interval(0, 8 * n) <==> i in BytesBelow(d, n)
      {
        InByte(d, n - 1, i);
      }
    }
  }

  /** The first `n` bytes of a word put back in their places. */
  function BytesBelow(d: Word, n: nat): Word {
    if n == 0 then {} else BytesBelow(d, n - 1) + ShiftLeft(ByteOf(d, n - 1), 8 * (n - 1))
  }

  lemma AlignedIsAligned(offset: nat)
    ensures Aligned(offset) % 4 == 0
  {
  }

  lemma AlignedStep(offset: nat, k: nat)
    requires offset % 4 == 0 && k < 4
    ensures Aligned(offset + k) == offset && (offset + k) % 4 == k
  {
  }

  /** The four byte reads put together give the dword read. */
  lemma BytesMakeDword(space: Space, a: Address, offset: nat)
    requires offset % 4 == 0 && forall w :: w in space ==> Fits(space[w], 32)
    ensures forall k: nat :: k < 4 ==> ReadU8(space, a, offset + k) == ByteOf(Read(space, a, offset).value, k)
    ensures Read(space, a, offset) == Some(BytesBelow(Read(space, a, offset).value, 4))
  {
    var d := Read(space, a, offset).value;
    forall k: nat | k < 4
      ensures ReadU8(space, a, offset + k) == ByteOf(d, k)
    {
      AlignedStep(offset, k);
    }
    LowBytes(d, 4);
    assert d * Interval(0, 8 * 4) == d;
  }

  /** The two bytes at an offset, the second possibly in the next dword. */
  function TwoBytes(space: Space, a: Address, offset: nat): Word {
    ReadU8(space, a, offset) + ShiftLeft(ReadU8(space, a, offset + 1), 8)
  }

  /** The low half of a dword is its first two bytes. */
  lemma HalfIsTwoBytes(d: Word)
    ensures HalfOf(d, 0) == ByteOf(d, 0) + ShiftLeft(ByteOf(d, 1), 8)
  {
    forall i: nat
      ensures i in HalfOf(d, 0) <==> i in ByteOf(d, 0) + ShiftLeft(ByteOf(d, 1), 8)
    {
      InShiftRight(d, 0, i);
      InShiftLeft(ByteOf(d, 1), 8, i);
      if 8 <= i {
        InShiftRight(d, 8, i - 8);
      }
    }
  }

  lemma ReadU16Aligned(space: Space, a: Address, offset: nat)
    requires offset % 4 == 0
    ensures ReadU16(space, a, offset) == TwoBytes(space, a, offset)
  {
    AlignedStep(offset, 0);
    AlignedStep(offset, 1);
    HalfIsTwoBytes(Read(space, a, offset).value);
  }

  /** The low bit tells the half from the two bytes, whatever the second byte is. */
  lemma WrongHalf(r: nat, d: Word, next: Word)
    requires 0 < r < 4 && d == if r == 1 then {8} else {16}
    ensures HalfOf(d, r % 2) != ByteOf(d, r) + ShiftLeft(next, 8)
  {
    InShiftRight(d, 16 * (r % 2), 0);
    InShiftRight(d, 8 * r, 0);
    InShiftLeft(next, 8, 0);
    assert 0 in HalfOf(d, r % 2) <==> 16 * (r % 2) in d;
    assert 0 in ByteOf(d, r) + ShiftLeft(next, 8) <==> 8 * r in d;
  }

  lemma SameParity(offset: nat)
    ensures (offset % 4) % 2 == offset % 2
  {
  }

  /** A configuration space on which the 16-bit read goes wrong, for every offset that is not a
      multiple of four. */
  lemma ReadU16Counterexample(a: Address, offset: nat) returns (space: Space)
    requires offset % 4 != 0
    ensures ReadU16(space, a, offset) != TwoBytes(space, a, offset)
  {
    var d := if offset % 4 == 1 then {8} else {16};
    space := map[ConfigWord(a, Aligned(offset)) := d];
    assert Read(space, a, Aligned(offset)) == Some(d);
    SameParity(offset);
    WrongHalf(offset % 4, d, ReadU8(space, a, offset + 1));
  }

  /** The 16-bit read gives the two bytes at its offset, whatever configuration space holds, exactly
      when the offset is a multiple of four. */
  lemma ReadU16Exact(a: Address, offset: nat)
    ensures (forall space: Space :: ReadU16(space, a, offset) == TwoBytes(space, a, offset)) <==> offset % 4 == 0
  {
    if offset % 4 == 0 {
      forall space: Space
        ensures ReadU16(space, a, offset) == TwoBytes(space, a, offset)
      {
        ReadU16Aligned(space, a, offset);
      }
    } else {
      var space := ReadU16Counterexample(a, offset);
    }
  }

  /** The byte write puts the byte in place and overwrites the rest of the dword with zeros. */
  function WriteU8(space: Space, a: Address, offset: nat, v: Word): Space {
    Write(space, a, Aligned(offset), ShiftLeft(v, (offset % 4) * 8)).value
  }

  /** After a byte write the dword is the old one with that byte replaced exactly when its other
      bytes were zero. */
  lemma WriteU8Exact(space: Space, a: Address, offset: nat, v: Word)
    requires a.Valid() && Fits(v, 8)
    ensures var k := (offset % 4) * 8;
      var before := Read(space, a, Aligned(offset)).value;
      Read(WriteU8(space, a, offset, v), a, Aligned(offset)) ==
        Some((before - Interval(k, k + 8)) + ShiftLeft(v, k)) <==>
      before <= Interval(k, k + 8)
  {
    var k := (offset % 4) * 8;
    ShiftedFits(v, k, 8);
    AlignedIsAligned(offset);
    ReadAfterWrite(space, a, Aligned(offset), ShiftLeft(v, k), a, Aligned(offset));
    var before, byte := Read(space, a, Aligned(offset)).value, ShiftLeft(v, k);
    assert (before - Interval(k, k + 8)) + byte == byte <==> before - Interval(k, k + 8) <= byte;
    assert before - Interval(k, k + 8) <= byte <==> before <= Interval(k, k + 8);
  }

  /** The 16-bit write picks its half like the read, and overwrites the dword like the byte write. */
  function WriteU16(space: Space, a: Address, offset: nat, v: Word): Space {
    Write(space, a, Aligned(offset), ShiftLeft(v, (offset % 2) * 16)).value
  }

  /** The dword with the part of the two bytes at `offset` that lies in it replaced. */
  function Replaced(before: Word, offset: nat, v: Word): Word {
    var k := (offset % 4) * 8;
    (before - Interval(k, k + 16)) + ShiftLeft(v, k) * Interval(0, 32)
  }

  /** When a 16-bit write of `v` over the dword `before` does what it should. */
  predicate U16WriteRight(before: Word, offset: nat, v: Word) {
    var k := (offset % 4) * 8;
    if offset % 4 == 3 then
      before * Interval(0, 24) == ShiftLeft(v * Interval(0, 8), 16) && ShiftRight(v, 8) == v * Interval(0, 8)
    else
      (offset % 4 == 0 || v == {}) && before <= Interval(k, k + 16)
  }

  lemma DownTwice(v: Word)
    requires forall i :: i in v ==> 8 <= i && i - 8 in v
    ensures forall i :: i in v ==> 16 <= i
  {
    forall i | i in v
      ensures 16 <= i
    {
      assert i - 8 in v;
    }
  }

  lemma NothingToShift(v: Word, before: Word, r: nat)
    requires Fits(v, 16) && (r == 1 || r == 2)
    requires ShiftLeft(v, (r % 2) * 16) == (before - Interval(r * 8, r * 8 + 16)) + ShiftLeft(v, r * 8)
    ensures v == {}
  {
    forall i: nat | i in v
      ensures r == 1 && 8 <= i && i - 8 in v
    {
      InShiftLeft(v, r * 8, i + r * 8);
      InShiftLeft(v, (r % 2) * 16, i + r * 8);
    }
    DownTwice(v);
  }

  lemma U16Words(before: Word, offset: nat, v: Word)
    requires Fits(v, 16) && Fits(before, 32) && offset % 4 != 3
    ensures ShiftLeft(v, (offset % 2) * 16) == Replaced(before, offset, v) <==> U16WriteRight(before, offset, v)
  {
    var k, r := (offset % 4) * 8, offset % 4;
    ShiftedFits(v, k, 16);
    assert ShiftLeft(v, k) * Interval(0, 32) == ShiftLeft(v, k);
    if r != 0 && ShiftLeft(v, (offset % 2) * 16) == Replaced(before, offset, v) {
      assert offset % 2 == r % 2;
      NothingToShift(v, before, r);
    }
    if v == {} {
      assert ShiftLeft(v, k) == {} && ShiftLeft(v, (offset % 2) * 16) == {};
    }
    if r == 0 {
      assert (before - Interval(0, 16)) + ShiftLeft(v, 0) == ShiftLeft(v, 0) <==>
        before - Interval(0, 16) <= ShiftLeft(v, 0);
      assert before - Interval(0, 16) <= ShiftLeft(v, 0) <==> before <= Interval(0, 16);
    }
  }

  lemma U16WordsAcross(before: Word, offset: nat, v: Word)
    requires Fits(v, 16) && Fits(before, 32) && offset % 4 == 3
    ensures ShiftLeft(v, 16) == Replaced(before, offset, v) <==> U16WriteRight(before, offset, v)
  {
    forall i: nat
      ensures i in ShiftLeft(v, 16) <==> 16 <= i && i - 16 in v
      ensures i in Replaced(before, offset, v) <==> (i in before && i < 24) || (24 <= i < 32 && i - 24 in v)
      ensures i in before * Interval(0, 24) <==> i in before && i < 24
      ensures i in ShiftLeft(v * Interval(0, 8), 16) <==> 16 <= i < 24 && i - 16 in v
      ensures i in ShiftRight(v, 8) <==> i + 8 in v
    {
      InShiftLeft(v, 16, i);
      InShiftLeft(v, 24, i);
      InShiftLeft(v * Interval(0, 8), 16, i);
      InShiftRight(v, 8, i);
    }
    if ShiftLeft(v, 16) == Replaced(before, offset, v) {
      forall i: nat
        ensures i in ShiftRight(v, 8) <==> i in v * Interval(0, 8)
      {
        assert i + 24 in ShiftLeft(v, 16) <==> i + 24 in Replaced(before, offset, v);
      }
    }
    if U16WriteRight(before, offset, v) {
      forall i: nat
        ensures i in ShiftLeft(v, 16) <==> i in Replaced(before, offset, v)
      {
        if 24 <= i {
          assert i - 24 in ShiftRight(v, 8) <==> i - 24 in v * Interval(0, 8);
        }
      }
    }
  }

  lemma U16AnyWords(before: Word, offset: nat, v: Word, written: Word)
    requires Fits(v, 16) && Fits(before, 32) && written == ShiftLeft(v, (offset % 2) * 16)
    ensures written == Replaced(before, offset, v) <==> U16WriteRight(before, offset, v)
  {
    if offset % 4 == 3 {
      SameParity(offset);
      U16WordsAcross(before, offset, v);
    } else {
      U16Words(before, offset, v);
    }
  }

  /** After a 16-bit write the dword is the old one with those bytes replaced exactly under that
      condition: at a multiple of four, the other half was zero; at the next two offsets, besides,
      the value written is zero; at the last, both bytes are equal to the one before them. */
  lemma WriteU16Exact(space: Space, a: Address, offset: nat, v: Word)
    requires a.Valid() && Fits(v, 16) && forall w :: w in space ==> Fits(space[w], 32)
    ensures var before := Read(space, a, Aligned(offset)).value;
      Read(WriteU16(space, a, offset, v), a, Aligned(offset)) == Some(Replaced(before, offset, v)) <==>
      U16WriteRight(before, offset, v)
  {
    var before, written := Read(space, a, Aligned(offset)).value, ShiftLeft(v, (offset % 2) * 16);
    AlignedIsAligned(offset);
    ReadAfterWrite(space, a, Aligned(offset), written, a, Aligned(offset));
    U16AnyWords(before, offset, v, written);
  }

  // ---------------------------------------------------------------- finding devices

  predicate FunctionExists(space: Space, a: Address) {
    Read(space, a, 0).value * Interval(0, 16) != Interval(0, 16)
  }

  ghost predicate Found(space: Space, results: seq<Address>, below: nat) {
    && (forall i, j :: 0 <= i < j < |results| ==> results[i].Key() < results[j].Key())
    && (forall a :: a in results <==> a.Valid() && FunctionExists(space, a) && a.Key() < below)
  }

  lemma KeyDigits(x: nat, f: nat, y: nat, g: nat)
    ensures f < 8 && g < 8 && x * 8 + f == y * 8 + g ==> x == y && f == g
    ensures f < 32 && g < 32 && x * 32 + f == y * 32 + g ==> x == y && f == g
  {
  }

  lemma KeyOrder(a: Address, b: Address)
    requires a.Valid() && b.Valid() && a.Key() == b.Key()
    ensures a == b
  {
    KeyDigits(a.bus * 32 + a.device, a.func, b.bus * 32 + b.device, b.func);
    KeyDigits(a.bus, a.device, b.bus, b.device);
  }

  /** One round of the search: the function whose turn it is. */
  lemma FoundStep(space: Space, results: seq<Address>, a: Address)
    requires a.Valid() && Found(space, results, a.Key())
    ensures Found(space, if FunctionExists(space, a) then results + [a] else results, a.Key() + 1)
  {
    forall b: Address | b.Valid() && b.Key() == a.Key()
      ensures b == a
    {
      KeyOrder(a, b);
    }
    forall b: Address | b in results
      ensures b.Key() < a.Key()
    {
    }
  }

  /** A function exists exactly when the data port answers for its dword 0 and the low 16 bits of the
      answer are not all ones. */
  lemma ExistsExact(space: Space, a: Address)
    ensures FunctionExists(space, a) <==>
      ConfigWord(a, 0) in space && Number(space[ConfigWord(a, 0)], 16) != 0xFFFF
  {
    PowersOfTwo();
    var d := AtPort(space, ConfigWord(a, 0));
    var low := d * Interval(0, 16);
    NumberAgree(d, low, 16);
    LowOnes(16, 16);
    if Number(d, 16) == 0xFFFF {
      NumberInjective(low, Interval(0, 16), 16);
    }
  }

  /** Bus before device before function. */
  ghost predicate Before(a: Address, b: Address) {
    a.bus < b.bus || (a.bus == b.bus && (a.device < b.device || (a.device == b.device && a.func < b.func)))
  }

  lemma KeyIsOrder(a: Address, b: Address)
    requires a.Valid() && b.Valid() && a.Key() < b.Key()
    ensures Before(a, b)
  {
  }

  /** The search returns every function that exists, each once, in bus, device, function order. */
  method BruteForceFind(space: Space) returns (results: seq<Address>)
    ensures forall a: Address :: a in results <==>
      && a.bus < 256 && a.device < 32 && a.func < 8
      && ConfigWord(a, 0) in space && Number(space[ConfigWord(a, 0)], 16) != 0xFFFF
    ensures forall i, j :: 0 <= i < j < |results| ==> Before(results[i], results[j])
  {
    results := [];
    for bus := 0 to 256
      invariant Found(space, results, bus * 256)
    {
      for device := 0 to 32
        invariant Found(space, results, (bus * 32 + device) * 8)
      {
        for func := 0 to 8
          invariant Found(space, results, (bus * 32 + device) * 8 + func)
        {
          var address := Address(bus, device, func);
          FoundStep(space, results, address);
          if FunctionExists(space, address) {
            results := results + [address];
          }
        }
      }
    }
    forall a: Address
      ensures FunctionExists(space, a) <==>
        ConfigWord(a, 0) in space && Number(space[ConfigWord(a, 0)], 16) != 0xFFFF
    {
      ExistsExact(space, a);
    }
    forall i, j | 0 <= i < j < |results|
      ensures Before(results[i], results[j])
    {
      KeyIsOrder(results[i], results[j]);
    }
  }
}
