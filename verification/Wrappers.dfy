module Wrappers {
  datatype Option<+T> = None | Some(value: T)

  /** The numbers from `start` up to but not including `end`. */
  function Interval(start: nat, end: nat): (s: set<nat>)
    ensures forall f: nat :: f in s <==> start <= f < end
  {
    set i: nat | start <= i < end && Between(start, i, end)
  }

  predicate Between(start: nat, i: nat, end: nat) {
    start <= i < end
  }
}
