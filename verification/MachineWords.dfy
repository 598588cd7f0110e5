/** 64-bit machine arithmetic as the runtime uses it: wrap-around, checked addition
    and multiplication, and the mask-based alignment helpers. */
module MachineWords {
  import opened Wrappers

  const WORD_LIMIT: nat := 0x1_0000_0000_0000_0000

  type Word = x: int | 0 <= x < 0x1_0000_0000_0000_0000

  function Max(a: nat, b: nat): nat { if a < b then b else a }

  // ----- Bitwise operators, bit by bit -----

  function BitAnd(x: nat, y: nat): nat {
    if x == 0 || y == 0 then 0
    else (if x % 2 == 1 && y % 2 == 1 then 1 else 0) + 2 * BitAnd(x / 2, y / 2)
  }

  function BitOr(x: nat, y: nat): nat {
    if x == 0 then y
    else if y == 0 then x
    else (if x % 2 == 1 || y % 2 == 1 then 1 else 0) + 2 * BitOr(x / 2, y / 2)
  }

  function Complement(x: Word): Word { WORD_LIMIT - 1 - x }

  function Pow2(k: nat): (p: nat)
    ensures p > 0
  {
    if k == 0 then 1 else 2 * Pow2(k - 1)
  }

  lemma {:induction false} Pow2Monotone(j: nat, k: nat)
    requires j <= k
    ensures Pow2(j) <= Pow2(k)
  {
    if j < k {
      Pow2Monotone(j, k - 1);
    }
  }

  lemma Pow2Of32()
    ensures Pow2(32) == 0x1_0000_0000
  {
    assert Pow2(8) == 0x100;
    assert Pow2(16) == 0x1_0000;
    assert Pow2(24) == 0x100_0000;
  }

  lemma WordLimitIsPow2()
    ensures Pow2(64) == WORD_LIMIT
  {
    Pow2Of32();
    assert Pow2(40) == 0x100_0000_0000;
    assert Pow2(48) == 0x1_0000_0000_0000;
    assert Pow2(56) == 0x100_0000_0000_0000;
  }

  // ----- Power-of-two test and mask-based alignment -----

  predicate IsPowerOfTwo(value: Word) {
    value != 0 && BitAnd(value, value - 1) == 0
  }

  function AlignUp(value: Word, alignment: Word): Word
    requires alignment > 0
  {
    BitAndFits((value + (alignment - 1)) % WORD_LIMIT, Complement(alignment - 1));
    BitAnd((value + (alignment - 1)) % WORD_LIMIT, Complement(alignment - 1))
  }

  lemma {:induction false} BitAndFits(x: nat, y: nat)
    ensures BitAnd(x, y) <= x
  {
    if x != 0 && y != 0 {
      BitAndFits(x / 2, y / 2);
    }
  }

  lemma {:induction false} BitAndAllOnes(x: nat, w: nat)
    requires x < Pow2(w)
    ensures BitAnd(x, Pow2(w) - 1) == x
  {
    if x != 0 && w != 0 {
      BitAndAllOnes(x / 2, w - 1);
      assert (Pow2(w) - 1) / 2 == Pow2(w - 1) - 1;
    }
  }

  /** Masking with the complement of 2^k - 1 rounds down to a multiple of 2^k. */
  lemma {:induction false} MaskRoundsDown(x: nat, k: nat, w: nat)
    requires k <= w && x < Pow2(w)
    ensures Pow2(w) >= Pow2(k)
    ensures BitAnd(x, Pow2(w) - Pow2(k)) == Pow2(k) * (x / Pow2(k))
  {
    Pow2Monotone(k, w);
    if k == 0 {
      BitAndAllOnes(x, w);
    } else {
      Pow2Monotone(k - 1, w - 1);
      MaskRoundsDown(x / 2, k - 1, w - 1);
      hide BitAnd;
      BitAndEvenMask(x, Pow2(w - 1) - Pow2(k - 1));
      HalveThenDivide(x, Pow2(k - 1));
    }
  }

  lemma BitAndEvenMask(x: nat, m: nat)
    ensures BitAnd(x, 2 * m) == 2 * BitAnd(x / 2, m)
  {
  }

  lemma HalveThenDivide(x: nat, d: nat)
    requires d > 0
    ensures 2 * (d * (x / 2 / d)) == (2 * d) * (x / (2 * d))
  {
    var q := x / 2 / d;
    var r := x / 2 - d * q;
    assert 0 <= r < d;
    assert x == (2 * d) * q + (2 * r + x % 2);
    DivisionIsUnique(x, 2 * d, q, 2 * r + x % 2);
  }

  lemma MulMonotone(d: nat, q: nat, p: nat)
    requires q < p
    ensures d * q + d <= d * p
  {
    assert p == q + 1 + (p - q - 1);
    MulAdd(d, q + 1, p - q - 1);
    MulAdd(d, q, 1);
  }

  lemma MulAdd(d: nat, a: nat, b: nat)
    ensures d * (a + b) == d * a + d * b && d * b >= 0
  {
  }

  lemma DivisionIsUnique(x: nat, d: nat, q: nat, r: nat)
    requires d > 0 && r < d && x == d * q + r
    ensures x / d == q && x % d == r
  {
    QuotientIsUnique(x, d, q, r, x / d, x % d);
  }

  lemma QuotientIsUnique(x: nat, d: nat, q: nat, r: nat, q': nat, r': nat)
    requires r < d && x == d * q + r && r' < d && x == d * q' + r'
    ensures q == q' && r == r'
  {
    if q < q' {
      MulMonotone(d, q, q');
    } else if q' < q {
      MulMonotone(d, q', q);
    }
  }

  /** The mask-based test accepts exactly the powers of two. */
  lemma PowerOfTwoTest(value: Word)
    ensures IsPowerOfTwo(value) <==> exists k: nat :: value == Pow2(k)
  {
    if exists k: nat :: value == Pow2(k) {
      var k: nat :| value == Pow2(k);
      PowerOfTwoAccepted(k);
    }
    if IsPowerOfTwo(value) {
      var k := AcceptedIsPowerOfTwo(value);
    }
  }

  lemma {:induction false} PowerOfTwoAccepted(k: nat)
    ensures BitAnd(Pow2(k), Pow2(k) - 1) == 0
  {
    if k != 0 {
      PowerOfTwoAccepted(k - 1);
      assert Pow2(k) / 2 == Pow2(k - 1);
      assert (Pow2(k) - 1) / 2 == Pow2(k - 1) - 1;
    }
  }

  lemma {:induction false} AcceptedIsPowerOfTwo(value: nat) returns (k: nat)
    requires value != 0 && BitAnd(value, value - 1) == 0
    ensures value == Pow2(k)
  {
    if value == 1 {
      return 0;
    }
    if value % 2 == 1 {
      assert (value - 1) / 2 == value / 2;
      BitAndSelf(value / 2);
      assert false;
    }
    assert (value - 1) / 2 == value / 2 - 1;
    k := AcceptedIsPowerOfTwo(value / 2);
    k := k + 1;
  }

  lemma {:induction false} BitAndSelf(x: nat)
    ensures BitAnd(x, x) == x
  {
    if x != 0 {
      BitAndSelf(x / 2);
    }
  }

  lemma AlignUpMasks(value: Word, alignment: Word)
    requires IsPowerOfTwo(alignment) && value + alignment - 1 < WORD_LIMIT
    ensures AlignUp(value, alignment) == alignment * ((value + alignment - 1) / alignment)
  {
    hide BitAnd, Complement, Pow2, IsPowerOfTwo;
    var k := ExponentOf(alignment);
    var x := value + alignment - 1;
    NoWrap(x);
    MaskAt(x, alignment, k);
    assert value + (alignment - 1) == x;
  }

  lemma MaskAt(x: Word, alignment: Word, k: nat)
    requires k <= 64 && alignment == Pow2(k) && alignment > 0
    ensures BitAnd(x, Complement(alignment - 1)) == alignment * (x / alignment)
  {
    hide BitAnd, Pow2;
    WordLimitIsPow2();
    MaskRoundsDown(x, k, 64);
    MaskOf(alignment, k);
  }

  lemma ExponentOf(alignment: Word) returns (k: nat)
    requires IsPowerOfTwo(alignment)
    ensures k <= 64 && alignment == Pow2(k)
  {
    k := AcceptedIsPowerOfTwo(alignment);
    hide BitAnd, Pow2, IsPowerOfTwo;
    WordLimitIsPow2();
    if k > 64 {
      Pow2Monotone(64, k);
      assert false;
    }
  }

  lemma NoWrap(x: nat)
    requires x < WORD_LIMIT
    ensures x % WORD_LIMIT == x
  {
  }

  lemma MaskOf(alignment: Word, k: nat)
    requires alignment == Pow2(k) && alignment > 0
    ensures Complement(alignment - 1) == Pow2(64) - Pow2(k)
  {
    hide Pow2;
    WordLimitIsPow2();
  }

  /** alignUp returns the least multiple of the alignment that is not below the value,
      as long as rounding up stays inside the address space. */
  lemma AlignUpIsLeastMultiple(value: Word, alignment: Word)
    requires IsPowerOfTwo(alignment) && value + alignment - 1 < WORD_LIMIT
    ensures IsMultiple(AlignUp(value, alignment), alignment)
    ensures value <= AlignUp(value, alignment) < value + alignment
  {
    AlignUpMasks(value, alignment);
    QuotientBounds(value + alignment - 1, alignment);
    MultipleOf(alignment, (value + alignment - 1) / alignment);
  }

  predicate IsMultiple(x: nat, d: nat)
    requires d > 0
  {
    x % d == 0
  }

  lemma MultipleOf(d: nat, q: nat)
    requires d > 0
    ensures IsMultiple(d * q, d)
  {
    DivisionIsUnique(d * q, d, q, 0);
  }

  lemma SumIsMultiple(x: nat, y: nat, d: nat)
    requires d > 0 && IsMultiple(x, d) && IsMultiple(y, d)
    ensures IsMultiple(x + y, d)
  {
    MulAdd(d, x / d, y / d);
    MultipleOf(d, x / d + y / d);
  }

  // ----- Overflow-checked arithmetic -----

  function CheckedAdd(lhs: Word, rhs: Word): (r: Option<Word>)
    ensures r == if lhs + rhs < WORD_LIMIT then Some(lhs + rhs) else None
  {
    if lhs > WORD_LIMIT - 1 - rhs then None else Some((lhs + rhs) % WORD_LIMIT)
  }

  function CheckedMul(lhs: Word, rhs: Word): (r: Option<Word>)
    ensures r == if lhs * rhs < WORD_LIMIT then Some(lhs * rhs) else None
  {
    CheckedMulGuard(lhs, rhs);
    if lhs != 0 && rhs > (WORD_LIMIT - 1) / lhs then None else Some((lhs * rhs) % WORD_LIMIT)
  }

  lemma CheckedMulGuard(lhs: Word, rhs: Word)
    ensures lhs != 0 && rhs > (WORD_LIMIT - 1) / lhs <==> lhs * rhs >= WORD_LIMIT
  {
    if lhs != 0 {
      var q := (WORD_LIMIT - 1) / lhs;
      QuotientBounds(WORD_LIMIT - 1, lhs);
      if rhs > q {
        MulMonotone(lhs, q, rhs);
      } else if rhs < q {
        MulMonotone(lhs, rhs, q);
      }
    }
  }

  lemma QuotientBounds(x: nat, d: nat)
    requires d > 0
    ensures d * (x / d) <= x < d * (x / d) + d
  {
  }

  // ----- Disjoint bit fields -----

  /** A value shifted left by w bits and a value below 2^w occupy disjoint bits. */
  lemma {:induction false} BitOrOfDisjointFields(high: nat, low: nat, w: nat)
    requires low < Pow2(w)
    ensures BitOr(high * Pow2(w), low) == high * Pow2(w) + low
  {
    if w != 0 && low != 0 && high != 0 {
      BitOrOfDisjointFields(high, low / 2, w - 1);
      assert high * Pow2(w) == 2 * (high * Pow2(w - 1));
      assert high * Pow2(w) / 2 == high * Pow2(w - 1);
    }
  }
}
