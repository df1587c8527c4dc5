/**
Machine words as the set of positions of their one bits: OR is union, AND is intersection, XOR
is symmetric difference, and shifts move positions. A word of `n` bits is a set below `n`.
*/
module Words {
  import opened Wrappers

  type Word = set<nat>

  function Xor(a: Word, b: Word): Word {
    (a - b) + (b - a)
  }

  function ShiftLeft(a: Word, k: nat): Word {
    set i | i in a :: i + k
  }

  function ShiftRight(a: Word, k: nat): Word {
    set i | i in a && k <= i :: i - k
  }

  predicate Fits(a: Word, n: nat) {
    forall i :: i in a ==> i < n
  }

  function Pow2(i: nat): nat {
    if i == 0 then 1 else 2 * Pow2(i - 1)
  }

  /** The number that the low `n` bits of a word stand for. */
  function Number(a: Word, n: nat): nat {
    if n == 0 then 0 else Number(a, n - 1) + if n - 1 in a then Pow2(n - 1) else 0
  }

  /** Bit `i` of a number. */
  predicate BitOf(v: nat, i: nat) {
    if i == 0 then v % 2 == 1 else BitOf(v / 2, i - 1)
  }

  /** The word of the low `n` bits of `v`. */
  function WordOf(v: nat, n: nat): Word {
    set i: nat | i < n && BitOf(v, i)
  }

  lemma {:induction false} NumberAgree(a: Word, b: Word, n: nat)
    requires forall i: nat :: i < n ==> (i in a <==> i in b)
    ensures Number(a, n) == Number(b, n)
  {
    if n != 0 {
      NumberAgree(a, b, n - 1);
    }
  }

  lemma {:induction false} NumberBound(a: Word, n: nat)
    ensures Number(a, n) < Pow2(n)
  {
    if n != 0 {
      NumberBound(a, n - 1);
    }
  }

  /** One bit in front of a word. */
  lemma {:induction false} NumberShift(a: Word, b: Word, n: nat)
    requires forall i: nat :: i < n ==> (i + 1 in b <==> i in a)
    ensures Number(b, n + 1) == 2 * Number(a, n) + if 0 in b then 1 else 0
  {
    if n == 0 {
      assert Number(b, 1) == Number(b, 0) + if 0 in b then Pow2(0) else 0;
    } else {
      NumberShift(a, b, n - 1);
      assert n - 1 in a <==> n in b by {
        assert (n - 1) + 1 in b <==> n - 1 in a;
      }
    }
  }

  /** Numbers below 2^n and words of `n` bits are the same thing. */
  lemma {:induction false} WordRoundTrip(v: nat, n: nat)
    requires v < Pow2(n)
    ensures Fits(WordOf(v, n), n) && Number(WordOf(v, n), n) == v
  {
    if n != 0 {
      WordRoundTrip(v / 2, n - 1);
      NumberShift(WordOf(v / 2, n - 1), WordOf(v, n), n - 1);
    }
  }

  lemma {:induction false} NumberInjective(a: Word, b: Word, n: nat)
    requires Fits(a, n) && Fits(b, n) && Number(a, n) == Number(b, n)
    ensures a == b
  {
    if n != 0 {
      var a', b' := a - {n - 1}, b - {n - 1};
      NumberAgree(a, a', n - 1);
      NumberAgree(b, b', n - 1);
      NumberBound(a', n - 1);
      NumberBound(b', n - 1);
      NumberInjective(a', b', n - 1);
    }
  }

  lemma NumberRoundTrip(a: Word, n: nat)
    requires Fits(a, n)
    ensures Number(a, n) < Pow2(n) && WordOf(Number(a, n), n) == a
  {
    NumberBound(a, n);
    WordRoundTrip(Number(a, n), n);
    NumberInjective(a, WordOf(Number(a, n), n), n);
  }

  /** The word with the low `k` of `n` bits set is the number 2^k - 1. */
  lemma {:induction false} LowOnes(k: nat, n: nat)
    requires k <= n
    ensures Number(Interval(0, k), n) == Pow2(k) - 1
    decreases n
  {
    if n != 0 {
      if k == n {
        LowOnes(k - 1, n - 1);
        NumberAgree(Interval(0, k), Interval(0, k - 1), n - 1);
      } else {
        LowOnes(k, n - 1);
      }
    }
  }

  lemma InShiftRight(a: Word, k: nat, i: nat)
    ensures i in ShiftRight(a, k) <==> i + k in a
  {
    if i + k in a {
      assert i == (i + k) - k;
    }
  }

  lemma InShiftLeft(a: Word, k: nat, i: nat)
    ensures i in ShiftLeft(a, k) <==> k <= i && i - k in a
  {
    if k <= i && i - k in a {
      assert i == (i - k) + k;
    }
  }

  /** Shifting a field down and masking it gives `bits` exactly when the field holds them. */
  lemma ShiftedField(a: Word, bits: Word, lo: nat, width: nat)
    requires Fits(bits, width)
    ensures ShiftRight(a, lo) * Interval(0, width) == bits <==> a * Interval(lo, lo + width) == ShiftLeft(bits, lo)
  {
    forall i: nat
      ensures (i in ShiftRight(a, lo) * Interval(0, width) <==> i in bits) <==>
              (i + lo in a * Interval(lo, lo + width) <==> i + lo in ShiftLeft(bits, lo))
    {
      InShiftRight(a, lo, i);
      InShiftLeft(bits, lo, i + lo);
    }
    if ShiftRight(a, lo) * Interval(0, width) == bits {
      forall j: nat
        ensures j in a * Interval(lo, lo + width) <==> j in ShiftLeft(bits, lo)
      {
        InShiftLeft(bits, lo, j);
        if lo <= j {
          InShiftRight(a, lo, j - lo);
        }
      }
    }
  }

  /** A 64-bit word is its two halves. */
  lemma HalvesRoundTrip(a: Word)
    ensures ShiftLeft(ShiftRight(a, 32), 32) + a * Interval(0, 32) == a
  {
    forall i | i in a
      ensures i in ShiftLeft(ShiftRight(a, 32), 32) + a * Interval(0, 32)
    {
      if 32 <= i {
        assert i - 32 in ShiftRight(a, 32);
      }
    }
  }

  // ---------------------------------------------------------------- words as numbers

  lemma {:induction false} Pow2Add(k: nat, n: nat)
    ensures Pow2(k + n) == Pow2(k) * Pow2(n)
  {
    if n != 0 {
      Pow2Add(k, n - 1);
    }
  }

  lemma PowersOfTwo()
    ensures Pow2(1) == 2 && Pow2(3) == 8 && Pow2(5) == 32 && Pow2(8) == 256 && Pow2(10) == 1024 && Pow2(11) == 2048
    ensures Pow2(13) == 8192 && Pow2(15) == 32768 && Pow2(16) == 65536
    ensures Pow2(31) == 0x8000_0000 && Pow2(32) == 0x1_0000_0000
  {
    assert Pow2(2) == 4 && Pow2(3) == 8;
    Pow2Add(3, 2);
    Pow2Add(5, 3);
    Pow2Add(8, 2);
    Pow2Add(8, 3);
    Pow2Add(8, 5);
    Pow2Add(10, 5);
    Pow2Add(8, 8);
    Pow2Add(16, 15);
    Pow2Add(16, 16);
  }

  /** Words without a common one bit add up. */
  lemma {:induction false} NumberUnion(a: Word, b: Word, n: nat)
    requires a !! b
    ensures Number(a + b, n) == Number(a, n) + Number(b, n)
  {
    if n != 0 {
      NumberUnion(a, b, n - 1);
    }
  }

  /** The high part of a word counts 2^k times. */
  lemma {:induction false} NumberSplit(a: Word, k: nat, n: nat)
    ensures Number(a, k + n) == Number(a, k) + Pow2(k) * Number(ShiftRight(a, k), n)
  {
    if n != 0 {
      NumberSplit(a, k, n - 1);
      InShiftRight(a, k, n - 1);
      Pow2Add(k, n - 1);
      Distribute(Pow2(k), Number(ShiftRight(a, k), n - 1), Pow2(n - 1));
    }
  }

  lemma Distribute(p: nat, x: nat, y: nat)
    ensures p * (x + y) == p * x + p * y
  {
  }

  lemma {:induction false} NumberOfNothing(a: Word, n: nat)
    requires forall i: nat :: i < n ==> i !in a
    ensures Number(a, n) == 0
  {
    if n != 0 {
      NumberOfNothing(a, n - 1);
    }
  }

  lemma {:induction false} NumberWiden(a: Word, k: nat, n: nat)
    requires Fits(a, k) && k <= n
    ensures Number(a, n) == Number(a, k)
    decreases n
  {
    if k != n {
      NumberWiden(a, k, n - 1);
    }
  }

  /** A shift to the left multiplies. */
  lemma NumberShiftLeft(a: Word, k: nat, width: nat, n: nat)
    requires Fits(a, width) && k + width <= n
    ensures Number(ShiftLeft(a, k), n) == Pow2(k) * Number(a, width)
  {
    NumberOfNothing(ShiftLeft(a, k), k);
    NumberSplit(ShiftLeft(a, k), k, width);
    forall i: nat
      ensures i in ShiftRight(ShiftLeft(a, k), k) <==> i in a
    {
      InShiftRight(ShiftLeft(a, k), k, i);
      InShiftLeft(a, k, i + k);
    }
    NumberAgree(ShiftRight(ShiftLeft(a, k), k), a, width);
    NumberWiden(ShiftLeft(a, k), k + width, n);
  }

  lemma DivMod(x: nat, d: nat, q: nat, rest: nat)
    requires 0 < d && x == rest + d * q && rest < d
    ensures x / d == q && x % d == rest
  {
    assert x == d * (x / d) + x % d;
    TimesGrows(d, q, x / d);
    TimesGrows(d, x / d, q);
  }

  lemma TimesGrows(d: nat, x: nat, y: nat)
    ensures x < y ==> d * x + d <= d * y
  {
    if x < y {
      assert d * (x + 1) <= d * y;
    }
  }

  /** Dividing and taking the remainder by a power of two gives the high and the low part. */
  lemma NumberParts(a: Word, k: nat, n: nat)
    ensures Pow2(k) != 0
    ensures Number(a, k + n) / Pow2(k) == Number(ShiftRight(a, k), n)
    ensures Number(a, k + n) % Pow2(k) == Number(a, k)
  {
    NumberSplit(a, k, n);
    NumberBound(a, k);
    DivMod(Number(a, k + n), Pow2(k), Number(ShiftRight(a, k), n), Number(a, k));
  }

  /** A field of a word, by arithmetic. */
  lemma NumberField(a: Word, k: nat, width: nat, n: nat)
    requires k + width <= n
    ensures Pow2(k) != 0 && Pow2(width) != 0
    ensures Number(ShiftRight(a, k), width) == Number(a, n) / Pow2(k) % Pow2(width)
  {
    NumberParts(a, k, n - k);
    NumberParts(ShiftRight(a, k), width, n - k - width);
  }
}
