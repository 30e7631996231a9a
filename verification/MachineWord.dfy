/** Unsigned 64-bit machine words, as naturals below 2^64, with the operators that lib/bitvec.h uses on
    them. Each operator is defined digit by digit; each lemma says what it does to every bit. */
module MachineWord {
  const BITS: nat := 64
  const LIMIT: nat := 0x1_0000_0000_0000_0000

  type Word = w: nat | w < LIMIT

  const ONES: Word := LIMIT - 1

  predicate Bit(w: nat, i: nat) {
    if i == 0 then w % 2 == 1 else Bit(w / 2, i - 1)
  }

  function Pow2(k: nat): (p: nat)
    ensures p >= 1
  {
    if k == 0 then 1 else 2 * Pow2(k - 1)
  }

  /** `a | b` */
  function Or(a: nat, b: nat): nat {
    if a == 0 then b else (if Bit(a, 0) || Bit(b, 0) then 1 else 0) + 2 * Or(a / 2, b / 2)
  }

  /** `a & b` */
  function And(a: nat, b: nat): (r: nat)
    ensures r <= a
  {
    if a == 0 then 0 else (if Bit(a, 0) && Bit(b, 0) then 1 else 0) + 2 * And(a / 2, b / 2)
  }

  /** `a & ~b` */
  function AndNot(a: nat, b: nat): (r: nat)
    ensures r <= a <= r + b
  {
    if a == 0 then 0 else (if Bit(a, 0) && !Bit(b, 0) then 1 else 0) + 2 * AndNot(a / 2, b / 2)
  }

  /** `~a` */
  function Not(a: Word): Word { ONES - a }

  /** `w >> c` */
  function Shr(w: nat, c: nat): (r: nat)
    ensures r <= w
  {
    if c == 0 then w else Shr(w / 2, c - 1)
  }

  /** `w << c`, losing the digits that leave the word */
  function Shl(w: Word, c: nat): Word
    decreases c
  {
    if c == 0 then w else Shl(2 * w % LIMIT, c - 1)
  }

  lemma {:induction false} PowQuad(k: nat)
    ensures Pow2(k + 4) == 16 * Pow2(k)
  {
    assert Pow2(k + 4) == 2 * Pow2(k + 3) == 4 * Pow2(k + 2) == 8 * Pow2(k + 1);
  }

  lemma PowWord()
    ensures Pow2(BITS) == LIMIT
  {
    PowQuad(0); PowQuad(4); PowQuad(8); PowQuad(12);
    PowQuad(16); PowQuad(20); PowQuad(24); PowQuad(28);
    PowQuad(32); PowQuad(36); PowQuad(40); PowQuad(44);
    PowQuad(48); PowQuad(52); PowQuad(56); PowQuad(60);
  }

  lemma {:induction false} BitZero(i: nat)
    ensures !Bit(0, i)
  {
    if i > 0 { BitZero(i - 1); }
  }

  lemma {:induction false} BitOr(a: nat, b: nat, i: nat)
    ensures Bit(Or(a, b), i) == (Bit(a, i) || Bit(b, i))
  {
    if a == 0 {
      BitZero(i);
    } else if i > 0 {
      BitOr(a / 2, b / 2, i - 1);
    }
  }

  lemma {:induction false} BitAnd(a: nat, b: nat, i: nat)
    ensures Bit(And(a, b), i) == (Bit(a, i) && Bit(b, i))
  {
    if a == 0 {
      BitZero(i);
    } else if i > 0 {
      BitAnd(a / 2, b / 2, i - 1);
    }
  }

  lemma {:induction false} BitAndNot(a: nat, b: nat, i: nat)
    ensures Bit(AndNot(a, b), i) == (Bit(a, i) && !Bit(b, i))
  {
    if a == 0 {
      BitZero(i);
    } else if i > 0 {
      BitAndNot(a / 2, b / 2, i - 1);
    }
  }

  lemma {:induction false} OrBound(a: nat, b: nat, k: nat)
    requires a < Pow2(k) && b < Pow2(k)
    ensures Or(a, b) < Pow2(k)
  {
    if a > 0 { OrBound(a / 2, b / 2, k - 1); }
  }

  /** `a | b` on words is a word. */
  function OrWord(a: Word, b: Word): (r: Word)
    ensures r == Or(a, b)
  {
    PowWord();
    OrBound(a, b, BITS);
    Or(a, b)
  }

  /** Complement within k digits: 2^k - 1 - a has exactly the digits that a lacks. */
  lemma {:induction false} BitComplement(a: nat, k: nat, i: nat)
    requires a < Pow2(k) && i < k
    ensures Bit(Pow2(k) - 1 - a, i) == !Bit(a, i)
  {
    var p := Pow2(k - 1);
    assert Pow2(k) == 2 * p;
    hide Pow2;
    if i > 0 {
      BitComplement(a / 2, k - 1, i - 1);
      assert (2 * p - 1 - a) / 2 == p - 1 - a / 2;
    } else {
      assert (2 * p - 1 - a) % 2 == 1 - a % 2;
    }
  }

  lemma BitNot(a: Word, i: nat)
    requires i < BITS
    ensures Bit(Not(a), i) == !Bit(a, i)
  {
    PowWord();
    BitComplement(a, BITS, i);
  }

  lemma {:induction false} BitShr(w: nat, c: nat, i: nat)
    ensures Bit(Shr(w, c), i) == Bit(w, i + c)
  {
    if c > 0 { BitShr(w / 2, c - 1, i); }
  }

  /** Dropping the digit of weight 2^k does not change the digits below it. */
  lemma {:induction false} BitDropTop(w: nat, k: nat, i: nat)
    requires w >= Pow2(k) && i < k
    ensures Bit(w - Pow2(k), i) == Bit(w, i)
  {
    if i > 0 {
      BitDropTop(w / 2, k - 1, i - 1);
      assert (w - Pow2(k)) / 2 == w / 2 - Pow2(k - 1);
    }
  }

  lemma BitDouble(w: Word, i: nat)
    requires i < BITS
    ensures Bit(2 * w % LIMIT, i) == (i > 0 && Bit(w, i - 1))
  {
    PowWord();
    assert i > 0 ==> Bit(2 * w, i) == Bit(2 * w / 2, i - 1);
    if 2 * w >= LIMIT {
      BitDropTop(2 * w, BITS, i);
      assert 2 * w % LIMIT == 2 * w - LIMIT;
    } else {
      assert 2 * w % LIMIT == 2 * w;
    }
  }

  lemma {:induction false} BitShl(w: Word, c: nat, i: nat)
    requires i < BITS
    ensures Bit(Shl(w, c), i) == (i >= c && Bit(w, i - c))
    decreases c
  {
    if c > 0 {
      BitShl(2 * w % LIMIT, c - 1, i);
      if i >= c - 1 { BitDouble(w, i - (c - 1)); }
    }
  }

  /** A number below 2^k has no digit at or above position k. */
  lemma {:induction false} BitHigh(w: nat, k: nat, i: nat)
    requires w < Pow2(k) && k <= i
    ensures !Bit(w, i)
  {
    if k == 0 { BitZero(i); } else { BitHigh(w / 2, k - 1, i - 1); }
  }

  lemma WordHigh(w: Word, i: nat)
    requires BITS <= i
    ensures !Bit(w, i)
  {
    PowWord();
    BitHigh(w, BITS, i);
  }

  /** Numbers below 2^k are determined by their digits. */
  lemma {:induction false} Extensional(a: nat, b: nat, k: nat)
    requires a < Pow2(k) && b < Pow2(k)
    requires forall i | 0 <= i < k :: Bit(a, i) == Bit(b, i)
    ensures a == b
  {
    if k > 0 {
      forall i | 0 <= i < k - 1
        ensures Bit(a / 2, i) == Bit(b / 2, i)
      {
        assert Bit(a, i + 1) == Bit(b, i + 1);
      }
      Extensional(a / 2, b / 2, k - 1);
      assert Bit(a, 0) == Bit(b, 0);
    }
  }

  lemma WordsEqual(a: Word, b: Word)
    requires forall i | 0 <= i < BITS :: Bit(a, i) == Bit(b, i)
    ensures a == b
  {
    PowWord();
    Extensional(a, b, BITS);
  }

  /** `~(~1 << (n - 1)) << lo`, the mask that lib/bitvec.h builds for n bits starting at lo */
  function RunMask(lo: nat, n: nat): Word
    requires 0 < n
  {
    Shl(Not(Shl(Not(1), n - 1)), lo)
  }

  lemma BitRunMask(lo: nat, n: nat, i: nat)
    requires 0 < n <= BITS && i < BITS
    ensures Bit(RunMask(lo, n), i) == (lo <= i < lo + n)
  {
    BitShl(Not(Shl(Not(1), n - 1)), lo, i);
    if lo <= i {
      var j := i - lo;
      BitNot(Shl(Not(1), n - 1), j);
      BitShl(Not(1), n - 1, j);
      if j >= n - 1 {
        BitNot(1, j - (n - 1));
        BitOne(j - (n - 1));
      }
    }
  }

  lemma BitOne(i: nat)
    ensures Bit(1, i) == (i == 0)
  {
    if i > 0 { BitZero(i - 1); }
  }

  /** `~0 << lo` */
  lemma BitOnesShl(lo: nat, i: nat)
    requires i < BITS
    ensures Bit(Shl(ONES, lo), i) == (lo <= i)
  {
    BitShl(ONES, lo, i);
    if lo <= i {
      BitNot(0, i - lo);
      BitZero(i - lo);
    }
  }

  /** `~0 >> (64 - n)`, the mask of the n low bits */
  lemma BitOnesShr(n: nat, i: nat)
    requires n <= BITS && i < BITS
    ensures Bit(Shr(ONES, BITS - n), i) == (i < n)
  {
    BitShr(ONES, BITS - n, i);
    var j := i + (BITS - n);
    if j < BITS {
      BitNot(0, j);
      BitZero(j);
    } else {
      WordHigh(ONES, j);
    }
  }

  lemma {:induction false} PowMonotone(a: nat, b: nat)
    requires a <= b
    ensures Pow2(a) <= Pow2(b)
  {
    if a < b { PowMonotone(a, b - 1); }
  }

  lemma PowBelowWord(k: nat)
    requires k < BITS
    ensures 2 * Pow2(k) <= LIMIT
  {
    PowMonotone(k + 1, BITS);
    PowWord();
  }

  lemma {:induction false} ShlPow(w: Word, j: nat, c: nat)
    requires w == Pow2(j) && j + c < BITS
    ensures Shl(w, c) == Pow2(j + c)
    decreases c
  {
    if c > 0 {
      PowBelowWord(j + 1);
      ShlPow(2 * w % LIMIT, j + 1, c - 1);
    }
  }

  /** `(1 << n) - 1`, the other mask of the n low bits */
  lemma BitLowMask(n: nat, i: nat)
    requires n < BITS && i < BITS
    ensures Shl(1, n) >= 1
    ensures Bit(Shl(1, n) - 1, i) == (i < n)
  {
    PowBelowWord(n);
    ShlPow(1, 0, n);
    if i < n {
      BitComplement(0, n, i);
      BitZero(i);
    } else {
      BitHigh(Pow2(n) - 1, n, i);
    }
  }

  lemma ZeroWord(w: Word)
    requires forall i | 0 <= i < BITS :: !Bit(w, i)
    ensures w == 0
  {
    forall i | 0 <= i < BITS
      ensures Bit(w, i) == Bit(0, i)
    {
      BitZero(i);
    }
    WordsEqual(w, 0);
  }

  lemma {:induction false} ShrStep(w: nat, c: nat)
    ensures Shr(w, c) / 2 == Shr(w, c + 1)
  {
    if c > 0 { ShrStep(w / 2, c - 1); }
  }

  lemma {:induction false} ShlStep(w: Word, c: nat)
    ensures 2 * Shl(w, c) % LIMIT == Shl(w, c + 1)
    decreases c
  {
    if c > 0 { ShlStep(2 * w % LIMIT, c - 1); }
  }

  /** The position of the lowest set bit, by the portable loop; `__builtin_ctz` computes the same. */
  method CountTrailingZeros(w: Word) returns (n: nat)
    requires w != 0
    ensures n < BITS && Bit(w, n) && forall i | 0 <= i < n :: !Bit(w, i)
  {
    n := 0;
    var v := w;
    while v % 2 == 0
      invariant v != 0 && v == Shr(w, n)
      invariant forall i | 0 <= i < n :: !Bit(w, i)
      decreases v
    {
      BitShr(w, n, 0);
      ShrStep(w, n);
      v := v / 2;
      n := n + 1;
    }
    BitShr(w, n, 0);
    if n >= BITS { WordHigh(w, n); }
  }

  /** The number of clear bits above the highest set one, by the portable loop; `__builtin_clz`. */
  method CountLeadingZeros(w: Word) returns (n: nat)
    requires w != 0
    ensures n < BITS && Bit(w, BITS - 1 - n) && forall i | BITS - n <= i < BITS :: !Bit(w, i)
  {
    n := 0;
    var v: Word := w;
    while !Bit(v, BITS - 1)
      invariant n < BITS && v == Shl(w, n)
      invariant forall i | BITS - n <= i < BITS :: !Bit(w, i)
      decreases BITS - n
    {
      BitShl(w, n, BITS - 1);
      if n == BITS - 1 { ZeroWord(w); }
      ShlStep(w, n);
      v := 2 * v % LIMIT;
      n := n + 1;
    }
    BitShl(w, n, BITS - 1);
  }
}
