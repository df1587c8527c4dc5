/**
What the kernel sees of the page-table walk done by the `x86_64` crate's mapper.
*/
module Mapper {
  datatype MapToError = FrameAllocationFailed | ParentEntryHugePage | PageAlreadyMapped

  datatype Outcome = Done | Failed(error: MapToError)

  /** One walk: how many page tables are missing on the way to the page, and whether the
      walk ends at a huge page. Which walk happens is up to the page tables in memory. */
  datatype Walk = Walk(missing: nat, huge: bool) {
    predicate Valid() {
      missing <= 3
    }
  }

  function SumMissing(walks: seq<Walk>): nat {
    if walks == [] then 0 else walks[0].missing + SumMissing(walks[1..])
  }
}
