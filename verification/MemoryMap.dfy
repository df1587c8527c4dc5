/**
The bootloader's memory map and the two questions the kernel asks of it: which
frames are usable, and what kind of region a frame belongs to.

Frames are 4 KiB and are named by their number. Every address the kernel
compares here is a multiple of 4096, so comparing addresses and comparing frame
numbers come to the same.
*/
module MemoryMap {
  import opened Wrappers

  datatype RegionType =
    | Usable | InUse | Reserved | AcpiReclaimable | AcpiNvs | BadMemory | Kernel | KernelStack
    | PageTable | Bootloader | FrameZero | Empty | BootInfo | Package

  datatype Region = Region(ty: RegionType, start: nat, end: nat)

  predicate Contains(r: Region, f: nat) {
    r.start <= f < r.end
  }

  /** Non-empty regions, in increasing order, without overlap. */
  ghost predicate Sorted(m: seq<Region>) {
    && (forall i :: 0 <= i < |m| ==> m[i].start < m[i].end)
    && (forall i, j :: 0 <= i < j < |m| ==> m[i].end <= m[j].start)
  }

  /** What the bootloader promises: a sorted map with between 1 and 64 entries. */
  ghost predicate ValidMap(m: seq<Region>) {
    Sorted(m) && 0 < |m| <= 64
  }

  function EndFrame(m: seq<Region>): nat
    requires 0 < |m|
  {
    m[|m| - 1].end
  }

  lemma InMapBelowEnd(m: seq<Region>, i: nat)
    requires Sorted(m) && i < |m|
    ensures m[i].end <= EndFrame(m)
  {
    assert i < |m| - 1 ==> m[i].end <= m[|m| - 1].start;
  }

  /** `e` bounds every frame of the map exactly from the end frame on. */
  lemma EndFrameExact(m: seq<Region>, e: nat)
    requires Sorted(m) && 0 < |m|
    ensures (forall i, f: nat :: 0 <= i < |m| && Contains(m[i], f) ==> f < e) <==> EndFrame(m) <= e
  {
    forall i: nat | i < |m|
      ensures m[i].end <= EndFrame(m)
    {
      InMapBelowEnd(m, i);
    }
    assert Contains(m[|m| - 1], m[|m| - 1].end - 1);
  }

  // ---------------------------------------------------------------- usable frames

  ghost predicate InUsableRegion(m: seq<Region>, i: nat, f: nat) {
    i < |m| && m[i].ty.Usable? && Contains(m[i], f)
  }

  ghost predicate IsUsable(m: seq<Region>, f: nat) {
    exists i: nat :: InUsableRegion(m, i, f)
  }

  /** The number of frames a region contributes to the usable frames. */
  function UsableLength(r: Region): nat {
    if r.ty.Usable? && r.start < r.end then r.end - r.start else 0
  }

  /** The frames of region number `i`, if it is usable, each with that number. */
  function FramesOf(r: Region, i: nat): (fs: seq<(nat, nat)>)
    ensures |fs| == UsableLength(r)
    ensures forall k :: 0 <= k < |fs| ==> fs[k] == (r.start + k, i)
  {
    seq(UsableLength(r), k requires 0 <= k => (r.start + k, i))
  }

  /** The `filter`/`flat_map` chain: every usable frame with the number of its region,
      region by region. */
  function UsableFrames(m: seq<Region>): (fs: seq<(nat, nat)>) {
    if m == [] then [] else UsableFrames(m[..|m| - 1]) + FramesOf(m[|m| - 1], |m| - 1)
  }

  /** The number of usable frames in the regions before region `b`. */
  function Offset(m: seq<Region>, b: nat): nat
    requires b <= |m|
  {
    |UsableFrames(m[..b])|
  }

  /** Where region `b`'s frames sit in the chain. */
  lemma {:induction false} UsableFramesSlice(m: seq<Region>, b: nat)
    requires b < |m|
    ensures Offset(m, b + 1) == Offset(m, b) + UsableLength(m[b]) <= |UsableFrames(m)|
    ensures UsableFrames(m)[Offset(m, b)..Offset(m, b + 1)] == FramesOf(m[b], b)
  {
    var k := |m| - 1;
    assert m[..b + 1][..b] == m[..b];
    if b == k {
      assert m[..b + 1] == m;
    } else {
      UsableFramesSlice(m[..k], b);
      assert m[..k][..b] == m[..b] && m[..k][..b + 1] == m[..b + 1];
    }
  }

  lemma {:induction false} OffsetMonotone(m: seq<Region>, b: nat, c: nat)
    requires b <= c <= |m|
    ensures Offset(m, b) <= Offset(m, c) <= |UsableFrames(m)|
    decreases c - b
  {
    if b < c {
      OffsetMonotone(m, b + 1, c);
      UsableFramesSlice(m, b);
    } else if c < |m| {
      UsableFramesSlice(m, c);
    } else {
      assert m[..c] == m;
    }
  }

  /** Entry `k` of the chain: the `k - Offset`-th frame of its region. */
  lemma {:induction false} UsableFramesAt(m: seq<Region>, k: nat)
    requires k < |UsableFrames(m)|
    ensures var (f, b) := UsableFrames(m)[k];
      && InUsableRegion(m, b, f)
      && Offset(m, b) <= k < Offset(m, b + 1)
      && f == m[b].start + (k - Offset(m, b))
  {
    var n := |m| - 1;
    if k < Offset(m, n) {
      UsableFramesAt(m[..n], k);
      var (f, b) := UsableFrames(m)[k];
      assert m[..n][..b] == m[..b] && m[..n][..b + 1] == m[..b + 1];
    } else {
      assert m[..n + 1] == m;
    }
  }

  lemma UsableFramesOrder(m: seq<Region>, i: nat, j: nat)
    requires Sorted(m)
    requires i < j < |UsableFrames(m)|
    ensures UsableFrames(m)[i].0 < UsableFrames(m)[j].0
  {
    UsableFramesAt(m, i);
    UsableFramesAt(m, j);
    var b, c := UsableFrames(m)[i].1, UsableFrames(m)[j].1;
    if c < b {
      OffsetMonotone(m, c + 1, b);
    }
  }

  lemma UsableFrameIndex(m: seq<Region>, f: nat) returns (k: nat)
    requires IsUsable(m, f)
    ensures k < |UsableFrames(m)| && UsableFrames(m)[k].0 == f
  {
    var b: nat :| InUsableRegion(m, b, f);
    UsableFramesSlice(m, b);
    k := Offset(m, b) + (f - m[b].start);
    assert UsableFrames(m)[Offset(m, b)..Offset(m, b + 1)][f - m[b].start] == (f, b);
  }

  /** The chain visits exactly the usable frames, each once, in increasing order. */
  lemma UsableFramesSorted(m: seq<Region>)
    requires Sorted(m)
    ensures forall i, j :: 0 <= i < j < |UsableFrames(m)| ==> UsableFrames(m)[i].0 < UsableFrames(m)[j].0
    ensures forall k :: 0 <= k < |UsableFrames(m)| ==> IsUsable(m, UsableFrames(m)[k].0)
    ensures forall f: nat :: IsUsable(m, f) ==> exists k :: 0 <= k < |UsableFrames(m)| && UsableFrames(m)[k].0 == f
  {
    forall i, j | 0 <= i < j < |UsableFrames(m)|
      ensures UsableFrames(m)[i].0 < UsableFrames(m)[j].0
    {
      UsableFramesOrder(m, i, j);
    }
    forall k | 0 <= k < |UsableFrames(m)|
      ensures IsUsable(m, UsableFrames(m)[k].0)
    {
      UsableFramesAt(m, k);
    }
    forall f: nat | IsUsable(m, f)
      ensures exists k :: 0 <= k < |UsableFrames(m)| && UsableFrames(m)[k].0 == f
    {
      var k := UsableFrameIndex(m, f);
    }
  }

  lemma UsableBelowEnd(m: seq<Region>, f: nat)
    requires Sorted(m) && IsUsable(m, f)
    ensures 0 < |m| && f < EndFrame(m)
  {
    var i: nat :| InUsableRegion(m, i, f);
    InMapBelowEnd(m, i);
  }

  lemma UsableFrameInMap(m: seq<Region>, k: nat)
    requires Sorted(m) && k < |UsableFrames(m)|
    ensures IsUsable(m, UsableFrames(m)[k].0) && UsableFrames(m)[k].1 < |m|
    ensures 0 < |m| && UsableFrames(m)[k].0 < EndFrame(m)
  {
    UsableFramesAt(m, k);
    UsableBelowEnd(m, UsableFrames(m)[k].0);
  }

  // ---------------------------------------------------------------- region lookup

  /** The comparison used by `get_frame_ty`: `AsWritten` is the code's `start >= addr`,
      `Containment` is the `start <= addr` that containment needs. */
  datatype Lookup = AsWritten | Containment

  predicate Matches(lookup: Lookup, r: Region, f: nat) {
    (if lookup.AsWritten? then r.start >= f else r.start <= f) && f < r.end
  }

  /** `find`: the first region from `from` on that passes the test, or the length of the map. */
  function FindRegion(lookup: Lookup, m: seq<Region>, f: nat, from: nat := 0): (i: nat)
    requires from <= |m|
    ensures from <= i <= |m|
    ensures i < |m| ==> Matches(lookup, m[i], f)
    ensures forall j :: from <= j < i ==> !Matches(lookup, m[j], f)
    decreases |m| - from
  {
    if from == |m| || Matches(lookup, m[from], f) then from else FindRegion(lookup, m, f, from + 1)
  }

  function GetFrameTy(lookup: Lookup, m: seq<Region>, f: nat): Option<RegionType> {
    var i := FindRegion(lookup, m, f);
    if i < |m| then Some(m[i].ty) else None
  }

  /** On a sorted map the containment test finds the one region that holds the frame. */
  lemma ContainmentLookup(m: seq<Region>, f: nat)
    requires Sorted(m)
    ensures forall i: nat :: i < |m| && Contains(m[i], f) ==> FindRegion(Containment, m, f) == i
    ensures IsUsable(m, f) <==> GetFrameTy(Containment, m, f) == Some(Usable)
  {
    var j := FindRegion(Containment, m, f);
    forall i: nat | i < |m| && Contains(m[i], f)
      ensures j == i
    {
      assert Matches(Containment, m[i], f);
    }
    if j < |m| && m[j].ty.Usable? {
      assert InUsableRegion(m, j, f);
    }
    if i: nat :| InUsableRegion(m, i, f) {
      assert j == i;
    }
  }

  /** On a sorted map the written test finds the first region that starts at or after the frame. */
  lemma WrittenLookup(m: seq<Region>, f: nat)
    requires Sorted(m)
    ensures var j := FindRegion(AsWritten, m, f);
      && (j < |m| ==> f <= m[j].start)
      && (forall i :: 0 <= i < j ==> m[i].start < f)
  {
    var j := FindRegion(AsWritten, m, f);
    forall i | 0 <= i < j
      ensures m[i].start < f
    {
      assert !Matches(AsWritten, m[i], f);
    }
  }

  /** The frame lies in region `i`, and the written test still sees its type: the frame opens
      the region, or the next region has the same type. */
  ghost predicate LuckyIn(m: seq<Region>, i: nat, f: nat) {
    i < |m| && Contains(m[i], f) && (m[i].start == f || (i + 1 < |m| && m[i + 1].ty == m[i].ty))
  }

  /** When the written comparison is harmless: a lucky frame, or one past the whole map. */
  ghost predicate LookupExact(m: seq<Region>, f: nat) {
    (exists i: nat :: LuckyIn(m, i, f)) || (forall i :: 0 <= i < |m| ==> m[i].end <= f)
  }

  /** The written lookup gives the containment answer exactly on those frames. */
  lemma LookupAgreement(m: seq<Region>, f: nat)
    requires Sorted(m)
    ensures GetFrameTy(AsWritten, m, f) == GetFrameTy(Containment, m, f) <==> LookupExact(m, f)
  {
    WrittenLookup(m, f);
    ContainmentLookup(m, f);
    var j, c := FindRegion(AsWritten, m, f), FindRegion(Containment, m, f);
    if c < |m| {
      WrittenIsNext(m, f, c);
      assert GetFrameTy(AsWritten, m, f) == Some(m[c].ty) ==> LuckyIn(m, c, f);
      if i: nat :| LuckyIn(m, i, f) {
        assert i == c;
      }
    } else {
      assert forall i :: 0 <= i < |m| ==> !Matches(Containment, m[i], f);
      if j == |m| {
        assert forall i :: 0 <= i < |m| ==> m[i].end <= f;
      } else {
        assert f < m[j].end;
      }
    }
  }

  /** The written answer for a frame inside region `c`: that region if the frame opens it, and
      the next one otherwise. */
  lemma WrittenIsNext(m: seq<Region>, f: nat, c: nat)
    requires Sorted(m) && c < |m| && Contains(m[c], f)
    ensures FindRegion(AsWritten, m, f) == if m[c].start == f then c else c + 1
  {
    WrittenLookup(m, f);
    var j := FindRegion(AsWritten, m, f);
    if c + 1 < |m| {
      assert m[c].end <= m[c + 1].start;
      assert Matches(AsWritten, m[c + 1], f);
    }
  }

  /** Either lookup only ever answers for a frame below the end of the map, so the bit of
      that frame lies inside the bitmap. */
  lemma LookupBelowEnd(lookup: Lookup, m: seq<Region>, f: nat)
    requires Sorted(m) && GetFrameTy(lookup, m, f).Some?
    ensures 0 < |m| && f < EndFrame(m)
  {
    InMapBelowEnd(m, FindRegion(lookup, m, f));
  }
}
