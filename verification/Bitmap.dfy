/**
The `u32` bitmap of the frame allocator and the set of frame numbers it stands for.
*/
module Bitmap {
  const U32_MODULUS: nat := 0x1_0000_0000

  /** Bits held by one 4 KiB page of bitmap, and the words in that page. */
  const BITS_PER_FRAME: nat := 0x1000 * 8
  const WORDS_PER_FRAME: nat := 0x1000 / 4

  /** A `u32` and the operators on it that the bitmap needs. */
  datatype U32 = U32(bits: bv32) {
    function And(other: U32): U32 {
      U32(bits & other.bits)
    }

    function Or(other: U32): U32 {
      U32(bits | other.bits)
    }

    function Not(): U32 {
      U32(!bits)
    }

    predicate IsZero() {
      bits == 0
    }
  }

  function Mask(bit: nat): U32
    requires bit < 32
  {
    U32((1 as bv32) << (bit as bv5))
  }

  lemma TruncationKeepsBit(idx: nat)
    ensures (idx % U32_MODULUS) % 32 == idx % 32
  {
    assert idx == U32_MODULUS * (idx / U32_MODULUS) + idx % U32_MODULUS;
  }

  /** The word index and mask of a frame; the index is cast to `u32` before the `% 32`, which
      loses nothing. */
  function FrameIdxToParts(idx: nat): (parts: (nat, U32))
    ensures parts == (idx / 32, Mask(idx % 32))
  {
    var bit := (idx % U32_MODULUS) % 32;
    TruncationKeepsBit(idx);
    (idx / 32, Mask(bit))
  }

  predicate HasBit(w: U32, bit: nat)
    requires bit < 32
  {
    !w.And(Mask(bit)).IsZero()
  }

  predicate IsSet(words: seq<U32>, idx: nat)
    requires idx / 32 < |words|
  {
    HasBit(words[idx / 32], idx % 32)
  }

  /** The frames below `n` whose bit is set. */
  ghost function Frames(words: seq<U32>, n: nat): set<nat>
    requires n <= 32 * |words|
  {
    if n == 0 then {}
    else if IsSet(words, n - 1) then Frames(words, n - 1) + {n - 1}
    else Frames(words, n - 1)
  }

  lemma {:induction false} InFrames(words: seq<U32>, n: nat, idx: nat)
    requires n <= 32 * |words|
    ensures idx in Frames(words, n) <==> idx < n && IsSet(words, idx)
  {
    if n != 0 {
      InFrames(words, n - 1, idx);
    }
  }

  /** The mask of a bit is that bit: shifted down, it is one. */
  lemma MaskExact(bit: nat)
    requires bit < 32
    ensures Mask(bit).bits >> (bit as bv5) == 1
  {
  }

  lemma MaskNotZero(i: nat)
    requires i < 32
    ensures !Mask(i).IsZero()
  {
  }

  lemma FiveBitsSuffice(bit: nat)
    requires bit < 32
    ensures (bit as bv5) as int == bit
  {
  }

  lemma ShiftsDisjoint(a: bv5, b: bv5)
    requires a != b
    ensures ((1 as bv32) << a) & ((1 as bv32) << b) == 0
  {
  }

  lemma MasksDisjoint(i: nat, j: nat)
    requires i < 32 && j < 32 && i != j
    ensures Mask(i).And(Mask(j)).IsZero()
  {
    FiveBitsSuffice(i);
    FiveBitsSuffice(j);
    ShiftsDisjoint(i as bv5, j as bv5);
  }

  lemma SameMask(w: U32, m: U32)
    ensures w.Or(m).And(m) == m
    ensures w.And(m.Not()).And(m).IsZero()
  {
  }

  lemma OtherMask(w: U32, m: U32, k: U32)
    requires m.And(k).IsZero()
    ensures w.Or(m).And(k) == w.And(k)
    ensures w.And(m.Not()).And(k) == w.And(k)
  {
  }

  /** Setting or clearing bit `i` of a word leaves every other bit alone. */
  lemma WordUpdate(w: U32, i: nat, j: nat)
    requires i < 32 && j < 32
    ensures HasBit(w.Or(Mask(i)), j) <==> j == i || HasBit(w, j)
    ensures HasBit(w.And(Mask(i).Not()), j) <==> j != i && HasBit(w, j)
  {
    if i == j {
      MaskNotZero(i);
      SameMask(w, Mask(i));
    } else {
      MasksDisjoint(i, j);
      OtherMask(w, Mask(i), Mask(j));
    }
  }

  /** An index is its word and its bit. */
  lemma PartsDecide(idx: nat, j: nat)
    ensures j == idx <==> j / 32 == idx / 32 && j % 32 == idx % 32
  {
  }

  lemma SetBitAt(words: seq<U32>, words': seq<U32>, idx: nat, j: nat)
    requires idx / 32 < |words| && j / 32 < |words|
    requires words' == words[idx / 32 := words[idx / 32].Or(Mask(idx % 32))]
    ensures IsSet(words', j) <==> j == idx || IsSet(words, j)
  {
    PartsDecide(idx, j);
    if j / 32 == idx / 32 {
      WordUpdate(words[idx / 32], idx % 32, j % 32);
    }
  }

  lemma ClearBitAt(words: seq<U32>, words': seq<U32>, idx: nat, j: nat)
    requires idx / 32 < |words| && j / 32 < |words|
    requires words' == words[idx / 32 := words[idx / 32].And(Mask(idx % 32).Not())]
    ensures IsSet(words', j) <==> j != idx && IsSet(words, j)
  {
    PartsDecide(idx, j);
    if j / 32 == idx / 32 {
      WordUpdate(words[idx / 32], idx % 32, j % 32);
    }
  }

  /** Setting a bit adds its frame to the set and disturbs no other. */
  lemma SetBit(words: seq<U32>, words': seq<U32>, n: nat, idx: nat)
    requires idx < n <= 32 * |words|
    requires words' == words[idx / 32 := words[idx / 32].Or(Mask(idx % 32))]
    ensures Frames(words', n) == Frames(words, n) + {idx}
  {
    forall j: nat
      ensures j in Frames(words', n) <==> j == idx || j in Frames(words, n)
    {
      InFrames(words, n, j);
      InFrames(words', n, j);
      if j < n {
        SetBitAt(words, words', idx, j);
      }
    }
  }

  /** Clearing a bit removes its frame from the set and disturbs no other. */
  lemma ClearBit(words: seq<U32>, words': seq<U32>, n: nat, idx: nat)
    requires idx < n <= 32 * |words|
    requires words' == words[idx / 32 := words[idx / 32].And(Mask(idx % 32).Not())]
    ensures Frames(words', n) == Frames(words, n) - {idx}
  {
    forall j: nat
      ensures j in Frames(words', n) <==> j != idx && j in Frames(words, n)
    {
      InFrames(words, n, j);
      InFrames(words', n, j);
      if j < n {
        ClearBitAt(words, words', idx, j);
      }
    }
  }

  /** `(end_frame + BITS_PER_FRAME - 1) / BITS_PER_FRAME` */
  function BitmapPages(endFrame: nat): nat {
    (endFrame + BITS_PER_FRAME - 1) / BITS_PER_FRAME
  }

  /** The number of words in the pages that are mapped for the bitmap. */
  function BitmapWords(endFrame: nat): nat {
    BitmapPages(endFrame) * WORDS_PER_FRAME
  }

  /** `pages` pages hold the bit of every frame below `end_frame`. */
  ghost predicate HoldsEveryBit(pages: nat, endFrame: nat) {
    forall idx: nat :: idx < endFrame ==> idx / 32 < pages * WORDS_PER_FRAME
  }

  /** The computed number of pages, of 32768 bits in 1024 words each, is the least that holds every
      bit; the slice of `end_frame + 1` words admits every word that is used. */
  lemma StorageSuffices(endFrame: nat, pages: nat)
    ensures HoldsEveryBit(pages, endFrame) <==> BitmapPages(endFrame) <= pages
    ensures BitmapPages(endFrame) <= pages <==> endFrame <= 32768 * pages
    ensures BitmapWords(endFrame) == 1024 * BitmapPages(endFrame)
    ensures endFrame <= 32 * BitmapWords(endFrame)
    ensures forall idx: nat :: idx < endFrame ==> idx / 32 < endFrame + 1
  {
    if HoldsEveryBit(pages, endFrame) && 0 < endFrame {
      assert (endFrame - 1) / 32 < pages * WORDS_PER_FRAME;
    }
  }
}
