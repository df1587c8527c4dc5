/**
The ports of an AHCI controller, and the 64-bit addresses that are split over two registers.
*/
module Ahci {
  import opened Wrappers
  import opened Words

  const MAX_PORTS: nat := 32

  /** `get_port` finds a port there: the bit of the port, shifted down, is one. */
  predicate GetPort(implemented: Word, idx: nat)
    requires idx < MAX_PORTS
  {
    ShiftRight(implemented, idx) * {0} == {0}
  }

  /** The number of ports: the ones in the register. */
  function PortCount(implemented: Word): nat {
    |implemented|
  }

  /** The indices of `port_slice`: the first ones, as many as there are ports. */
  function PortSlice(implemented: Word): set<nat> {
    Interval(0, PortCount(implemented))
  }

  lemma {:induction false} IntervalSize(n: nat)
    ensures |Interval(0, n)| == n
  {
    if n != 0 {
      IntervalSize(n - 1);
      assert Interval(0, n) == Interval(0, n - 1) + {n - 1};
    }
  }

  lemma SubsetSize(a: set<nat>, b: set<nat>)
    requires a <= b
    ensures |a| <= |b|
    ensures |a| == |b| ==> a == b
  {
    assert b == a + (b - a);
  }

  lemma PortCountBound(implemented: Word)
    requires Fits(implemented, MAX_PORTS)
    ensures PortCount(implemented) <= MAX_PORTS
  {
    IntervalSize(MAX_PORTS);
    SubsetSize(implemented, Interval(0, MAX_PORTS));
  }

  lemma GetPortIsMember(implemented: Word, idx: nat)
    requires idx < MAX_PORTS
    ensures GetPort(implemented, idx) <==> idx in implemented
  {
    InShiftRight(implemented, idx, 0);
    assert GetPort(implemented, idx) ==> 0 in ShiftRight(implemented, idx) * {0};
  }

  /** Among words of `n` bits, those without a gap below a one bit are the numbers 2^k - 1. */
  lemma NoGapExact(a: Word, n: nat)
    requires Fits(a, n) && |a| <= n
    ensures a == Interval(0, |a|) <==> Number(a, n) == Pow2(|a|) - 1
  {
    LowOnes(|a|, n);
    NumberRoundTrip(a, n);
    NumberRoundTrip(Interval(0, |a|), n);
  }

  /** The slice stays inside the port array, and lists exactly the ports that `get_port` finds if
      and only if the register is 2^k - 1 for k its number of ones: no gap below a port. */
  lemma PortSliceExact(implemented: Word)
    requires Fits(implemented, MAX_PORTS)
    ensures forall idx: nat :: idx in PortSlice(implemented) <==> idx < |implemented|
    ensures forall idx: nat :: idx < 32 ==> (GetPort(implemented, idx) <==> idx in implemented)
    ensures PortSlice(implemented) <= Interval(0, MAX_PORTS)
    ensures (forall idx: nat :: idx < MAX_PORTS ==> (idx in PortSlice(implemented) <==> GetPort(implemented, idx))) <==>
      Number(implemented, MAX_PORTS) == Pow2(PortCount(implemented)) - 1
  {
    PortCountBound(implemented);
    NoGapExact(implemented, MAX_PORTS);
    forall idx: nat | idx < MAX_PORTS
      ensures GetPort(implemented, idx) <==> idx in implemented
    {
      GetPortIsMember(implemented, idx);
    }
    if forall idx: nat :: idx < MAX_PORTS ==> (idx in PortSlice(implemented) <==> GetPort(implemented, idx)) {
      assert implemented == PortSlice(implemented);
    }
  }

  lemma AlignedExact(addr: Word)
    ensures addr * Interval(0, 10) == {} <==> Number(addr, 64) % 1024 == 0
  {
    PowersOfTwo();
    NumberParts(addr, 10, 54);
    var low := addr * Interval(0, 10);
    NumberAgree(addr, low, 10);
    NumberOfNothing({}, 10);
    if Number(low, 10) == 0 {
      NumberInjective(low, {}, 10);
    }
  }

  lemma HalvesAsNumbers(addr: Word)
    ensures Number(addr * Interval(0, 32), 32) == Number(addr, 64) % 0x1_0000_0000
    ensures Number(ShiftRight(addr, 32), 32) == Number(addr, 64) / 0x1_0000_0000
  {
    PowersOfTwo();
    NumberParts(addr, 32, 32);
    NumberAgree(addr, addr * Interval(0, 32), 32);
  }

  /** A register pair that holds a 64-bit address. */
  class AddressRegisters {
    var low: Word
    var high: Word

    function Get(): Word
      reads this
    {
      ShiftLeft(high, 32) + low
    }

    /** `ok` is false on the panic over an address that is not 1 KiB aligned. */
    method Set(addr: Word) returns (ok: bool)
      requires Fits(addr, 64)
      modifies this
      ensures ok <==> Number(addr, 64) % 1024 == 0
      ensures ok ==> Number(low, 32) == Number(addr, 64) % 0x1_0000_0000
      ensures ok ==> Number(high, 32) == Number(addr, 64) / 0x1_0000_0000
      ensures Get() == if ok then addr else old(Get())
    {
      AlignedExact(addr);
      HalvesAsNumbers(addr);
      ok := addr * Interval(0, 10) == {};
      if ok {
        low := addr * Interval(0, 32);
        high := ShiftRight(addr, 32);
        HalvesRoundTrip(addr);
      }
    }
  }
}
