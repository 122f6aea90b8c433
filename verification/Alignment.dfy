/** Rounding up to a power of two with bit masks. */
module Alignment {
  import opened Bytes

  // ----- bits ---------------------------------------------------------------------------------------------

  /** The bitwise `and` of two numbers. */
  function BitAnd(a: nat, b: nat): nat {
    if a == 0 || b == 0 then 0
    else 2 * BitAnd(a / 2, b / 2) + if a % 2 == 1 && b % 2 == 1 then 1 else 0
  }

  function Pow2(w: nat): nat {
    if w == 0 then 1 else 2 * Pow2(w - 1)
  }

  /** The complement of a 64-bit number. */
  function BitNot64(mask: U64): U64 { U64_MAX - mask }

  predicate PowerOfTwo(n: nat) {
    n == 1 || (n > 1 && n % 2 == 0 && PowerOfTwo(n / 2))
  }

  lemma BitAndStep(a: nat, b: nat)
    ensures BitAnd(a, b) == 2 * BitAnd(a / 2, b / 2) + if a % 2 == 1 && b % 2 == 1 then 1 else 0
  {
  }

  lemma {:induction false} AndOfItself(a: nat)
    ensures BitAnd(a, a) == a
  {
    if a > 0 {
      AndOfItself(a / 2);
    }
  }

  /** A positive number is a power of two if and only if subtracting one clears its only bit. */
  lemma {:induction false} PowerOfTwoTest(a: nat)
    requires a > 0
    ensures BitAnd(a, a - 1) == 0 <==> PowerOfTwo(a)
  {
    if a > 1 {
      BitAndStep(a, a - 1);
      if a % 2 == 0 {
        assert (a - 1) / 2 == a / 2 - 1;
        PowerOfTwoTest(a / 2);
      } else {
        assert (a - 1) / 2 == a / 2;
        AndOfItself(a / 2);
      }
    }
  }

  /** The mask of all `w` low bits keeps a number of `w` bits. */
  lemma {:induction false} FullMaskKeeps(v: nat, w: nat)
    requires v < Pow2(w)
    ensures BitAnd(v, Pow2(w) - 1) == v
  {
    if w > 0 {
      BitAndStep(v, Pow2(w) - 1);
      assert (Pow2(w) - 1) / 2 == Pow2(w - 1) - 1;
      FullMaskKeeps(v / 2, w - 1);
    }
  }

  lemma HalvesDivide(v: nat, a: nat)
    requires a > 0 && a % 2 == 0
    ensures v / 2 / (a / 2) == v / a && 2 * (v / a * (a / 2)) == v / a * a
  {
    var h, q, r := a / 2, v / a, v % a;
    assert a == 2 * h && v == q * a + r && 0 <= r < a;
    assert q * a == 2 * (q * h);
    assert v / 2 == q * h + r / 2 && 0 <= r / 2 < h;
    QuotientIs(v / 2, h, q, r / 2);
  }

  lemma QuotientIs(v: nat, n: nat, q: nat, r: nat)
    requires n > 0 && v == q * n + r && r < n
    ensures v / n == q
  {
    var p := v / n;
    assert v == p * n + v % n && 0 <= v % n < n;
    if p < q {
      SuccessorTimes(p, q, n);
    } else if q < p {
      SuccessorTimes(q, p, n);
    }
  }

  /** Clearing the bits below a power of two rounds down to a multiple of it. */
  lemma {:induction false} ClearedBitsRoundDown(v: nat, a: nat, w: nat)
    requires PowerOfTwo(a) && a <= Pow2(w) && v < Pow2(w)
    ensures BitAnd(v, Pow2(w) - a) == v / a * a
  {
    if a == 1 {
      FullMaskKeeps(v, w);
    } else {
      BitAndStep(v, Pow2(w) - a);
      assert (Pow2(w) - a) / 2 == Pow2(w - 1) - a / 2 && (Pow2(w) - a) % 2 == 0;
      ClearedBitsRoundDown(v / 2, a / 2, w - 1);
      HalvesDivide(v, a);
    }
  }

  // ----- rounding up ----------------------------------------------------------------------------------------

  /** Adds the mask of the low bits and clears them; refuses what is not a power of two, and overflow. */
  function AlignUp(value: U64, alignment: U32): Option<U64> {
    if alignment == 0 || BitAnd(alignment, alignment - 1) != 0 then None
    else if alignment == 1 then Some(value)
    else
      var mask := alignment - 1;
      if value + mask > U64_MAX then None
      else
        AndBound(value + mask, BitNot64(mask));
        Some(BitAnd(value + mask, BitNot64(mask)))
  }

  lemma {:induction false} AndBound(a: nat, b: nat)
    ensures BitAnd(a, b) <= a
  {
    if a > 0 && b > 0 {
      AndBound(a / 2, b / 2);
    }
  }

  function Times(k: nat, n: nat): nat { k * n }

  ghost predicate MultipleOf(x: nat, n: nat) { exists k: nat :: Times(k, n) == x }

  lemma SuccessorTimes(j: nat, k: nat, n: nat)
    requires j < k
    ensures Times(j, n) + n <= Times(k, n)
  {
    assert Times(j + 1, n) == Times(j, n) + n;
    assert (k - (j + 1)) * n >= 0;
  }

  lemma DivisionBounds(a: nat, n: nat)
    requires n > 0
    ensures a / n * n <= a < a / n * n + n
  {
  }

  lemma SixtyFourBits()
    ensures Pow2(64) == U64_MAX + 1
  {
    assert Pow2(8) == 0x100;
    assert Pow2(16) == 0x1_0000;
    assert Pow2(24) == 0x100_0000;
    assert Pow2(32) == 0x1_0000_0000;
    assert Pow2(40) == 0x100_0000_0000;
    assert Pow2(48) == 0x1_0000_0000_0000;
    assert Pow2(56) == 0x100_0000_0000_0000;
  }

  /** The alignments that are accepted, and the results that are refused for overflow. */
  lemma AlignUpAccepts(value: U64, alignment: U32)
    ensures AlignUp(value, alignment).Some? <==> PowerOfTwo(alignment) && value + (alignment - 1) <= U64_MAX
  {
    if alignment > 0 {
      PowerOfTwoTest(alignment);
    }
  }

  /** An accepted rounding is a rounding down after the mask was added. */
  lemma AlignUpRounds(value: U64, alignment: U32)
    requires AlignUp(value, alignment).Some?
    ensures alignment > 0 && AlignUp(value, alignment).value == Times((value + (alignment - 1)) / alignment, alignment)
  {
    AlignUpAccepts(value, alignment);
    hide BitAnd;
    hide PowerOfTwo;
    if alignment == 1 {
      assert Times(value, 1) == value;
    } else {
      SixtyFourBits();
      hide Pow2;
      ClearedBitsRoundDown(value + (alignment - 1), alignment, 64);
    }
  }

  /** Multiple number `q` is the least one that is not below the value. */
  lemma LeastMultiple(value: nat, n: nat, q: nat, other: nat)
    requires n > 0 && Times(q, n) <= value + (n - 1) < Times(q, n) + n
    ensures MultipleOf(Times(q, n), n) && value <= Times(q, n) < value + n
    ensures value <= other && MultipleOf(other, n) ==> Times(q, n) <= other
  {
    if value <= other && MultipleOf(other, n) {
      var k: nat :| Times(k, n) == other;
      if k < q {
        SuccessorTimes(k, q, n);
      }
    }
    hide Times;
  }

  /** An accepted rounding is to the least multiple of the alignment that is not below the value. */
  lemma AlignUpIsLeast(value: U64, alignment: U32, other: nat)
    requires AlignUp(value, alignment).Some?
    ensures var aligned := AlignUp(value, alignment).value;
            && MultipleOf(aligned, alignment) && value <= aligned < value + alignment
            && (value <= other && MultipleOf(other, alignment) ==> aligned <= other)
  {
    AlignUpRounds(value, alignment);
    hide AlignUp;
    var raised := value + (alignment - 1);
    DivisionBounds(raised, alignment);
    assert Times(raised / alignment, alignment) <= raised < Times(raised / alignment, alignment) + alignment;
    LeastMultiple(value, alignment, raised / alignment, other);
  }
}
