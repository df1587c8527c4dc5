/**
The allocator used until the bitmap exists. It remembers only how many frames it has
taken from each region.
*/
module Bootstrap {
  import opened Wrappers
  import opened MemoryMap
  import opened Mapper

  const MAX_REGIONS: nat := 64

  /** The first `n` usable frames. */
  ghost function Taken(m: seq<Region>, n: nat): (s: set<nat>)
    requires n <= |UsableFrames(m)|
  {
    set k | 0 <= k < n :: UsableFrames(m)[k].0
  }

  /** How many of the first `n` usable frames lie in region `b`. */
  function Counter(m: seq<Region>, b: nat, n: nat): nat
    requires b < |m|
  {
    var before := Offset(m, b);
    if n <= before then 0
    else if n - before <= UsableLength(m[b]) then n - before
    else UsableLength(m[b])
  }

  /** Taking the next usable frame bumps the counter of its region and no other. */
  lemma CounterStep(m: seq<Region>, b: nat, n: nat)
    requires b < |m| && n < |UsableFrames(m)|
    ensures Counter(m, b, n + 1) == Counter(m, b, n) + if UsableFrames(m)[n].1 == b then 1 else 0
  {
    UsableFramesAt(m, n);
    UsableFramesSlice(m, b);
    var c := UsableFrames(m)[n].1;
    if c < b {
      OffsetMonotone(m, c + 1, b);
    } else if b < c {
      OffsetMonotone(m, b + 1, c);
    }
  }

  /** The run of frames that starts region `b` and is as long as its counter. */
  ghost predicate InCountedRun(m: seq<Region>, b: nat, n: nat, f: nat) {
    b < |m| && m[b].start <= f < m[b].start + Counter(m, b, n)
  }

  lemma TakenIsCounted(m: seq<Region>, n: nat, k: nat)
    requires k < n <= |UsableFrames(m)|
    ensures InCountedRun(m, UsableFrames(m)[k].1, n, UsableFrames(m)[k].0)
  {
    UsableFramesAt(m, k);
    UsableFramesSlice(m, UsableFrames(m)[k].1);
  }

  lemma CountedIsTaken(m: seq<Region>, n: nat, b: nat, f: nat)
    requires n <= |UsableFrames(m)| && InCountedRun(m, b, n, f)
    ensures f in Taken(m, n)
  {
    UsableFramesSlice(m, b);
    var k := f - m[b].start;
    assert UsableFrames(m)[Offset(m, b)..Offset(m, b + 1)][k] == (f, b);
    assert UsableFrames(m)[Offset(m, b) + k].0 == f;
  }

  /** The counters lose nothing: the runs they describe are exactly the frames taken. */
  lemma CountersExact(m: seq<Region>, n: nat, f: nat)
    requires n <= |UsableFrames(m)|
    ensures f in Taken(m, n) <==> exists b: nat :: InCountedRun(m, b, n, f)
  {
    if f in Taken(m, n) {
      var k :| 0 <= k < n && UsableFrames(m)[k].0 == f;
      TakenIsCounted(m, n, k);
    }
    if b: nat :| InCountedRun(m, b, n, f) {
      CountedIsTaken(m, n, b, f);
    }
  }

  function SumOfCounters(m: seq<Region>, n: nat, regions: nat): nat
    requires regions <= |m|
  {
    if regions == 0 then 0 else SumOfCounters(m, n, regions - 1) + Counter(m, regions - 1, n)
  }

  lemma {:induction false} SumUpTo(m: seq<Region>, n: nat, regions: nat)
    requires regions <= |m|
    ensures SumOfCounters(m, n, regions) == if n <= Offset(m, regions) then n else Offset(m, regions)
  {
    if regions != 0 {
      SumUpTo(m, n, regions - 1);
      UsableFramesSlice(m, regions - 1);
    }
  }

  /** The counters add up to the number of frames taken. */
  lemma CountersSum(m: seq<Region>, n: nat)
    requires n <= |UsableFrames(m)|
    ensures SumOfCounters(m, n, |m|) == n
  {
    SumUpTo(m, n, |m|);
    assert m[..|m|] == m;
  }

  /** `used` holds the counter of every region, and zero past the last. */
  ghost predicate CountersFor(m: seq<Region>, used: seq<nat>, n: nat) {
    && |used| == MAX_REGIONS && |m| <= MAX_REGIONS
    && (forall b :: 0 <= b < |m| ==> used[b] == Counter(m, b, n))
    && (forall b :: |m| <= b < MAX_REGIONS ==> used[b] == 0)
  }

  lemma CountersStep(m: seq<Region>, used: seq<nat>, n: nat)
    requires Sorted(m) && n < |UsableFrames(m)| && CountersFor(m, used, n)
    ensures var b := UsableFrames(m)[n].1;
      b < |m| && CountersFor(m, used[b := used[b] + 1], n + 1)
  {
    UsableFrameInMap(m, n);
    forall b: nat | b < |m|
      ensures Counter(m, b, n + 1) == Counter(m, b, n) + if UsableFrames(m)[n].1 == b then 1 else 0
    {
      CounterStep(m, b, n);
    }
  }

  class BootStrapAllocator {
    const memoryMap: seq<Region>
    var next: nat
    const used: array<nat>

    ghost predicate Valid()
      reads this, used
    {
      && ValidMap(memoryMap)
      && used.Length == MAX_REGIONS
      && next <= |UsableFrames(memoryMap)|
      && CountersFor(memoryMap, used[..], next)
    }

    constructor (m: seq<Region>)
      requires ValidMap(m)
      ensures Valid() && memoryMap == m && next == 0
      ensures fresh(used)
    {
      memoryMap := m;
      next := 0;
      used := new nat[MAX_REGIONS](_ => 0);
    }

    /** Hands out the usable frames in order, each once, and fails after the last. */
    method AllocateFrame() returns (r: Option<nat>)
      requires Valid()
      modifies this`next, used
      ensures Valid()
      ensures old(next) < |UsableFrames(memoryMap)| ==>
        r == Some(UsableFrames(memoryMap)[old(next)].0) && next == old(next) + 1
      ensures old(next) == |UsableFrames(memoryMap)| ==> r == None && next == old(next)
    {
      var frames := UsableFrames(memoryMap);
      if next == |frames| {
        return None;
      }
      var (frame, block) := frames[next];
      UsableFrameInMap(memoryMap, next);
      CountersStep(memoryMap, used[..], next);
      next := next + 1;
      used[block] := used[block] + 1;
      return Some(frame);
    }

    /** Takes a frame for one page of bitmap and maps it, drawing the page tables that are
        missing. `None` stands for the panic when a frame runs out or the page cannot be mapped. */
    method AllocateBitmapFrame(table: map<nat, nat>, page: nat, walk: Walk)
      returns (r: Option<map<nat, nat>>)
      requires Valid() && walk.Valid()
      modifies this`next, used
      ensures Valid() && old(next) <= next
      ensures r.Some? <==>
        page !in table && !walk.huge && old(next) + 1 + walk.missing <= |UsableFrames(memoryMap)|
      ensures r.Some? ==> next == old(next) + 1 + walk.missing
      ensures r.Some? ==> r.value == table[page := UsableFrames(memoryMap)[old(next)].0]
    {
      var frame := AllocateFrame();
      if frame.None? || page in table {
        return None;
      }
      for i := 0 to walk.missing
        invariant Valid() && next == old(next) + 1 + i
      {
        var tableFrame := AllocateFrame();
        if tableFrame.None? {
          return None;
        }
      }
      if walk.huge {
        return None;
      }
      return Some(table[page := frame.value]);
    }
  }
}
