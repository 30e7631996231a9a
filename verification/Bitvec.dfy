/** The dynamic bit vector of lib/bitvec.h and lib/bitvec.cpp: one word held inline while `size == 1`,
    otherwise the first `size` words of an array. Every operation is proved against the set of naturals
    that the vector stands for. Sizes and bit positions are mathematical integers. */
module BitVector {
  import opened MachineWord
  import opened WordSets

  /** The rounding that `expand` applies to its argument: with m the bits of newsize / 8 smeared to the right,
      the size is rounded up to a multiple of m + 1. */
  function RoundUp(newsize: nat): (r: nat)
    ensures r >= newsize
  {
    if newsize / 8 == 0 then
      newsize
    else
      var m0 := newsize / 8;
      var m1 := Or(m0, Shr(m0, 1));
      var m2 := Or(m1, Shr(m1, 2));
      var m3 := Or(m2, Shr(m2, 4));
      var m4 := Or(m3, Shr(m3, 8));
      var m := Or(m4, Shr(m4, 16));
      AndNot(newsize + m, m)
  }

  lemma OnesMasks(idx: nat)
    requires idx < BITS
    ensures Masks(Shl(ONES, idx), 0, Run(idx, BITS - idx))
  {
    forall r | 0 <= r < BITS
      ensures Bit(Shl(ONES, idx), r) == (BITS * 0 + r in Run(idx, BITS - idx))
    {
      BitOnesShl(idx, r);
    }
  }

  ghost predicate NoneIn(s: set<nat>, lo: int, hi: int) {
    forall i | i in s :: !(lo <= i < hi)
  }

  /** Scanning word q extends the stretch without members up to its n-th bit. */
  lemma NoneInWord(s: set<nat>, start: nat, q: nat, n: nat, val: Word)
    requires NoneIn(s, start, BITS * q) && n <= BITS
    requires forall r | 0 <= r < BITS :: Bit(val, r) <==> BITS * q + r >= start && BITS * q + r in s
    requires forall r | 0 <= r < n :: !Bit(val, r)
    ensures NoneIn(s, start, BITS * q + n)
  {
    forall i | i in s && BITS * q <= i < BITS * q + n
      ensures i < start
    {
      var r := i - BITS * q;
      assert !Bit(val, r) && BITS * q + r == i;
    }
  }

  /** The clear bits of a word shifted up by c tell of the positions that are no members. */
  lemma NoneAbove(s: set<nat>, w: Word, q: nat, c: nat, n: nat)
    requires c <= n <= BITS
    requires forall r | c <= r < BITS :: Bit(w, r) <==> BITS * q + (r - c) in s
    requires forall r | n <= r < BITS :: !Bit(w, r)
    ensures NoneIn(s, BITS * q + (n - c), BITS * q + (BITS - c))
  {
    forall i | BITS * q + (n - c) <= i < BITS * q + (BITS - c)
      ensures i !in s
    {
      var r := i - BITS * q + c;
      assert !Bit(w, r) && BITS * q + (r - c) == i;
    }
  }

  lemma AllInWord(s: set<nat>, start: nat, q: nat, n: nat, val: Word)
    requires n <= BITS
    requires forall i | start <= i < BITS * q :: i in s
    requires forall r | 0 <= r < BITS :: Bit(val, r) <==> BITS * q + r < start || BITS * q + r in s
    requires forall r | 0 <= r < n :: Bit(val, r)
    ensures forall i | start <= i < BITS * q + n :: i in s
  {
    forall i | start <= i < BITS * q + n
      ensures i in s
    {
      if i >= BITS * q {
        var r := i - BITS * q;
        assert Bit(val, r) && BITS * q + r == i;
      }
    }
  }

  /** The size that `<<=` asks for holds every shifted member. */
  lemma FitsInWords(s: set<nat>, max: int, count: nat, n: nat)
    requires forall i | i in s :: i <= max
    requires (max + count + BITS) / BITS <= n
    ensures forall i | i in s :: i + count < BITS * n
  {
    assert max + count + BITS < BITS * (n + 1);
  }

  ghost function SetBitOf(w: Word): (r: nat)
    requires w != 0
    ensures r < BITS && Bit(w, r)
  {
    assert exists r :: 0 <= r < BITS && Bit(w, r) by {
      if forall r | 0 <= r < BITS :: !Bit(w, r) { ZeroWord(w); }
    }
    var r :| 0 <= r < BITS && Bit(w, r);
    r
  }

  class Bitvec {
    var size: nat
    var data: Word
    var ptr: array<Word>

    ghost predicate Valid()
      reads this
    {
      size >= 1 && (size > 1 ==> size <= ptr.Length)
    }

    ghost function Words(): (ws: seq<Word>)
      requires Valid()
      reads this, ptr
      ensures |ws| == size
    {
      if size > 1 then ptr[..size] else [data]
    }

    ghost function Bits(): set<nat>
      requires Valid()
      reads this, ptr
    {
      BitSet(Words())
    }

    /** The vector may be combined with `a`: their arrays are apart, unless both are the same object. */
    ghost predicate ApartFrom(a: Bitvec)
      reads this, a
    {
      a == this || a.ptr != ptr
    }

    constructor (v: Word)
      ensures Valid() && fresh(ptr) && size == 1
      ensures Words() == [v]
    {
      size := 1;
      data := v;
      ptr := new Word[0];
    }

    function WordAt(i: nat): (w: Word)
      requires Valid()
      reads this, ptr
      ensures w == if i < size then Words()[i] else 0
    {
      if i < size then if size > 1 then ptr[i] else data else 0
    }

    method Expand(newsize: nat)
      requires Valid() && newsize > size
      modifies this
      ensures Valid() && fresh(ptr) && size == RoundUp(newsize)
      ensures Words()[..old(size)] == old(Words())
      ensures forall i | old(size) <= i < size :: Words()[i] == 0
      ensures Bits() == old(Bits())
    {
      var rounded := RoundUp(newsize);
      var p := new Word[rounded](_ => 0);
      forall i | 0 <= i < size {
        p[i] := if size > 1 then ptr[i] else data;
      }
      ptr := p;
      size := rounded;
      TrailingZeros(Words(), old(size));
      assert Words()[..old(size)] == old(Words());
    }

    method GetBit(idx: nat) returns (b: bool)
      requires Valid()
      ensures b <==> idx in Bits()
    {
      var w := WordAt(idx / BITS);
      b := And(Shr(w, idx % BITS), 1) % 2 == 1;
      BitAnd(Shr(w, idx % BITS), 1, 0);
      BitShr(w, idx % BITS, 0);
      WordBitInSet(Words(), idx / BITS, idx % BITS);
      BitZero(idx % BITS);
    }

    method SetBit(idx: nat)
      requires Valid()
      modifies this, ptr
      ensures Valid() && (ptr == old(ptr) || fresh(ptr))
      ensures Bits() == old(Bits()) + {idx}
    {
      if idx >= size * BITS { Expand(1 + idx / BITS); }
      OneBitMasks(idx);
      OrOneWord(Words(), idx / BITS, Shl(1, idx % BITS), {idx});
      label before:
      if size > 1 {
        ptr[idx / BITS] := OrWord(ptr[idx / BITS], Shl(1, idx % BITS));
      } else {
        data := OrWord(data, Shl(1, idx));
      }
      assert Words() == old@before(Words()[idx / BITS := OrWord(Words()[idx / BITS], Shl(1, idx % BITS))]);
    }

    method ClrBit(idx: nat)
      requires Valid()
      modifies this, ptr
      ensures Valid() && ptr == old(ptr) && size == old(size)
      ensures Bits() == old(Bits()) - {idx}
    {
      if idx >= size * BITS { return; }
      OneBitMasks(idx);
      ClearOneWord(Words(), idx / BITS, Shl(1, idx % BITS), {idx});
      if size > 1 {
        ptr[idx / BITS] := And(ptr[idx / BITS], Not(Shl(1, idx % BITS)));
      } else {
        data := And(data, Not(Shl(1, idx)));
      }
      assert Words() == old(Words()[idx / BITS := And(Words()[idx / BITS], Not(Shl(1, idx % BITS)))]);
    }

    method SetRange(idx: nat, sz: nat)
      requires Valid()
      modifies this, ptr
      ensures Valid() && (ptr == old(ptr) || fresh(ptr))
      ensures Bits() == old(Bits()) + Run(idx, sz)
    {
      hide BitSet, Bit, OrWord, RunMask, Run, Masks;
      if sz == 0 { return; }
      if idx + sz > size * BITS { Expand(1 + (idx + sz - 1) / BITS); }
      ghost var before := Words();
      if size == 1 {
        RunMaskMasks(idx, sz);
        OrOneWord(before, 0, RunMask(idx, sz), Run(idx, sz));
        data := OrWord(data, RunMask(idx, sz));
        assert Words() == before[0 := OrWord(before[0], RunMask(idx, sz))];
      } else if idx / BITS == (idx + sz - 1) / BITS {
        var q, lo := idx / BITS, idx % BITS;
        RunMaskMasks(idx, sz);
        OrOneWord(before, q, RunMask(lo, sz), Run(idx, sz));
        ptr[q] := OrWord(ptr[q], RunMask(lo, sz));
        assert Words() == before[q := OrWord(before[q], RunMask(lo, sz))];
      } else {
        SetSpanWords(idx, sz);
      }
    }

    /** The last branch of setrange: the run leaves the word it starts in. */
    method SetSpanWords(idx: nat, sz: nat)
      requires Valid() && size > 1 && 0 < sz && idx + sz <= BITS * size && idx / BITS < (idx + sz - 1) / BITS
      modifies ptr
      ensures Bits() == old(Bits()) + Run(idx, sz)
    {
      ghost var before := Words();
      var i, lo := idx / BITS, idx % BITS;
      var last, hi := (idx + sz) / BITS, (idx + sz) % BITS;
      ghost var first := i;
      ptr[i] := OrWord(ptr[i], Shl(ONES, lo));
      i := i + 1;
      while i < last
        invariant first < i <= last <= size
        invariant forall j | 0 <= j < size ::
                    ptr[j] == if j < i then SetSpanWord(before[j], first, lo, last, hi, j) else before[j]
      {
        ptr[i] := ONES;
        i := i + 1;
      }
      BitLowMask(hi, 0);
      if i < size { ptr[i] := OrWord(ptr[i], Shl(1, hi) - 1); }
      SetSpan(before, Words(), idx, sz);
    }

    method ClrRange(idx: nat, sz: nat)
      requires Valid()
      modifies this, ptr
      ensures Valid() && ptr == old(ptr) && size == old(size)
      ensures Bits() == old(Bits()) - Run(idx, sz)
    {
      hide Bit, And, Not, RunMask, Masks;
      var n := sz;
      if n == 0 { return; }
      if size < n / BITS { n := size * BITS; }
      if idx >= size * BITS { return; }
      ghost var before := Words();
      assert old(Bits()) - Run(idx, sz) == old(Bits()) - Run(idx, n);
      if size == 1 {
        var mask := if idx + n < BITS then RunMask(idx, n) else Shl(ONES, idx);
        ghost var t := Run(idx, if idx + n < BITS then n else BITS - idx);
        if idx + n < BITS { RunMaskMasks(idx, n); } else { OnesMasks(idx); }
        ClearOneWord(before, 0, mask, t);
        data := And(data, Not(mask));
        assert Words() == before[0 := And(before[0], Not(mask))];
        assert old(Bits()) - Run(idx, n) == old(Bits()) - t;
      } else if idx / BITS == (idx + n - 1) / BITS {
        var q, lo := idx / BITS, idx % BITS;
        RunMaskMasks(idx, n);
        ClearOneWord(before, q, RunMask(lo, n), Run(idx, n));
        ptr[q] := And(ptr[q], Not(RunMask(lo, n)));
        assert Words() == before[q := And(before[q], Not(RunMask(lo, n)))];
      } else {
        ClrSpanWords(idx, n);
      }
    }

    /** The last branch of clrrange: the run leaves the word it starts in, and may leave the vector. */
    method ClrSpanWords(idx: nat, sz: nat)
      requires Valid() && size > 1 && 0 < sz && idx < BITS * size && idx / BITS < (idx + sz - 1) / BITS
      modifies ptr
      ensures Bits() == old(Bits()) - Run(idx, sz)
    {
      ghost var before := Words();
      var i, lo := idx / BITS, idx % BITS;
      var last, hi := (idx + sz) / BITS, (idx + sz) % BITS;
      ghost var first := i;
      ptr[i] := And(ptr[i], Not(Shl(ONES, lo)));
      i := i + 1;
      while i < last && i < size
        invariant first < i <= last && i <= size
        invariant forall j | 0 <= j < size ::
                    ptr[j] == if j < i then ClearSpanWord(before[j], first, lo, last, hi, j) else before[j]
      {
        ptr[i] := 0;
        i := i + 1;
      }
      BitLowMask(hi, 0);
      if i < size { ptr[i] := And(ptr[i], Not(Shl(1, hi) - 1)); }
      ClearSpan(before, Words(), idx, sz);
    }

    /** The sz bits from idx on, as a number: at most two words are read. */
    method GetRange(idx: nat, sz: nat) returns (rv: Word)
      requires Valid() && 0 < sz <= BITS
      ensures forall r | 0 <= r < BITS :: Bit(rv, r) <==> r < sz && idx + r in Bits()
    {
      ghost var ws := Words();
      if idx >= size * BITS {
        rv := 0;
        forall r | 0 <= r < BITS ensures !Bit(rv, r) && idx + r !in Bits() { BitZero(r); }
        return;
      }
      if size > 1 {
        var q, shift := idx / BITS, idx % BITS;
        rv := Shr(ptr[q], shift);
        if BITS - shift < sz && q + 1 < size { rv := OrWord(rv, Shl(ptr[q + 1], BITS - shift)); }
        forall r | 0 <= r < sz
          ensures Bit(rv, r) <==> idx + r in Bits()
        {
          ReadWordBit(ws, q, shift, sz, r);
        }
      } else {
        rv := Shr(data, idx);
        forall r | 0 <= r < sz
          ensures Bit(rv, r) <==> idx + r in Bits()
        {
          BitShr(data, idx, r);
          if idx + r >= BITS { WordHigh(data, idx + r); } else { WordBitInSet(ws, 0, idx + r); }
        }
      }
      var mask := RunMask(0, sz);
      ghost var raw := rv;
      rv := And(rv, mask);
      forall r | 0 <= r < BITS
        ensures Bit(rv, r) <==> r < sz && idx + r in Bits()
      {
        BitAnd(raw, mask, r);
        BitRunMask(0, sz, r);
      }
    }

    /** Store the low sz bits of v0 at idx. */
    method PutRange(idx: nat, sz: nat, v0: Word)
      requires Valid() && 0 < sz <= BITS
      modifies this, ptr
      ensures Valid() && (ptr == old(ptr) || fresh(ptr))
      ensures Bits() == old(Bits()) - Run(idx, sz) + Field(idx, sz, v0)
    {
      var mask: Word := Shr(ONES, BITS - sz);
      var v: Word := And(v0, mask);
      if idx + sz > size * BITS { Expand(1 + (idx + sz - 1) / BITS); }
      ghost var before := Words();
      if size == 1 {
        data := And(data, Not(Shl(mask, idx)));
        data := OrWord(data, Shl(v, idx));
      } else {
        PutInWords(idx, sz, mask, v);
      }
      PutField(before, Words(), idx, sz, v0);
    }

    /** The last part of putrange: the field falls into one or two words of the array. */
    method PutInWords(idx: nat, sz: nat, mask: Word, v: Word)
      requires Valid() && size > 1 && 0 < sz <= BITS && idx + sz <= BITS * size
      modifies ptr
      ensures forall j | 0 <= j < size ::
                ptr[j] == OrWord(And(old(ptr[j]), Not(FieldMask(idx, sz, mask, j))), FieldMask(idx, sz, v, j))
    {
      var q, shift := idx / BITS, idx % BITS;
      ptr[q] := And(ptr[q], Not(Shl(mask, shift)));
      ptr[q] := OrWord(ptr[q], Shl(v, shift));
      shift := BITS - shift;
      if shift < sz {
        q := q + 1;
        ptr[q] := And(ptr[q], Not(Shr(mask, shift)));
        ptr[q] := OrWord(ptr[q], Shr(v, shift));
      }
      forall j | 0 <= j < size
        ensures ptr[j] == OrWord(And(old(ptr[j]), Not(FieldMask(idx, sz, mask, j))), FieldMask(idx, sz, v, j))
      {
        OrNothing(old(ptr[j]));
      }
    }

    method Empty() returns (b: bool)
      requires Valid()
      ensures b <==> Bits() == {}
    {
      for i := 0 to size
        invariant forall j | 0 <= j < i :: Words()[j] == 0
      {
        if WordAt(i) != 0 {
          ghost var r := SetBitOf(Words()[i]);
          WordBitInSet(Words(), i, r);
          return false;
        }
      }
      TrailingZeros(Words(), 0);
      return true;
    }

    /** The least member that is at least start, or -1 */
    method FindFirstSet(start: nat) returns (rv: int)
      requires Valid()
      ensures rv == -1 ==> NoneIn(Bits(), start, BITS * size)
      ensures rv != -1 ==> rv >= start && rv in Bits() && NoneIn(Bits(), start, rv)
    {
      var val: Word := Shl(ONES, start % BITS);
      var idx := start / BITS;
      while idx < size
        invariant idx >= start / BITS
        invariant val == if idx == start / BITS then Shl(ONES, start % BITS) else ONES
        invariant NoneIn(Bits(), start, BITS * idx)
      {
        val := And(val, WordAt(idx));
        forall r | 0 <= r < BITS
          ensures Bit(val, r) <==> BITS * idx + r >= start && BITS * idx + r in Bits()
        {
          BitAnd(if idx == start / BITS then Shl(ONES, start % BITS) else ONES, Words()[idx], r);
          BitOnesShl(start % BITS, r);
          BitOnesShl(0, r);
          WordBitInSet(Words(), idx, r);
        }
        if val != 0 {
          var n := CountTrailingZeros(val);
          NoneInWord(Bits(), start, idx, n, val);
          return BITS * idx + n;
        }
        forall r | 0 <= r < BITS ensures !Bit(val, r) { BitZero(r); }
        NoneInWord(Bits(), start, idx, BITS, val);
        idx := idx + 1;
        val := ONES;
      }
      return -1;
    }

    /** The least non-member that is at least start; it always exists */
    method FindFirstZero(start: nat) returns (rv: nat)
      requires Valid()
      ensures rv >= start && rv !in Bits() && Run(start, rv - start) <= Bits()
    {
      var val: Word := Not(Shl(ONES, start % BITS));
      var idx := start / BITS;
      ghost var first := val;
      while true
        invariant idx >= start / BITS
        invariant val == if idx == start / BITS then first else 0
        invariant forall i | start <= i < BITS * idx :: i in Bits()
        decreases size + start / BITS + 1 - idx
      {
        var low := val;
        val := OrWord(val, WordAt(idx));
        forall r | 0 <= r < BITS
          ensures Bit(val, r) <==> BITS * idx + r < start || BITS * idx + r in Bits()
        {
          BitOr(low, WordAt(idx), r);
          BitNot(Shl(ONES, start % BITS), r);
          BitOnesShl(start % BITS, r);
          BitZero(r);
          WordBitInSet(Words(), idx, r);
        }
        if val != ONES {
          var n := CountTrailingZeros(Not(val));
          forall r | 0 <= r <= n
            ensures Bit(val, r) == (r < n)
          {
            BitNot(val, r);
          }
          AllInWord(Bits(), start, idx, n, val);
          assert !Bit(val, n);
          return BITS * idx + n;
        }
        forall r | 0 <= r < BITS ensures Bit(val, r) { BitOnesShl(0, r); }
        AllInWord(Bits(), start, idx, BITS, val);
        assert idx < size by {
          var r := if idx == start / BITS then start % BITS else 0;
          assert Bit(val, r) && BITS * idx + r >= start;
        }
        idx := idx + 1;
        val := 0;
      }
    }

    /** `++` on an iterator: the least member above i, or -1 */
    method Next(i: int) returns (idx: int)
      requires Valid() && i >= -1
      ensures idx == -1 ==> NoneIn(Bits(), i + 1, BITS * size)
      ensures idx != -1 ==> idx > i && idx in Bits() && NoneIn(Bits(), i + 1, idx)
    {
      hide BitSet, Bit, Shr;
      idx := i + 1;
      while idx < size * BITS
        invariant idx >= i + 1 && NoneIn(Bits(), i + 1, idx)
        decreases size * BITS - idx
      {
        var q, c := idx / BITS, idx % BITS;
        var w: Word := Shr(WordAt(q), c);
        forall r | 0 <= r < BITS - c
          ensures Bit(w, r) <==> idx + r in Bits()
        {
          BitShr(Words()[q], c, r);
          WordBitInSet(Words(), q, r + c);
        }
        if w != 0 {
          var n := CountTrailingZeros(w);
          if n >= BITS - c { BitShr(Words()[q], c, n); WordHigh(Words()[q], n + c); }
          forall j | idx <= j < idx + n
            ensures j !in Bits()
          {
            assert Bit(w, j - idx) <==> idx + (j - idx) in Bits();
          }
          return idx + n;
        }
        forall j | idx <= j < BITS * q + BITS
          ensures j !in Bits()
        {
          BitZero(j - idx);
          assert Bit(w, j - idx) <==> idx + (j - idx) in Bits();
        }
        idx := q * BITS + BITS - 1;
        idx := idx + 1;
      }
      idx := -1;
    }

    /** `--` on an iterator: the greatest member below i, or below the whole vector when i is -1; -1 if none */
    method Prev(i: int) returns (idx: int)
      requires Valid() && -1 <= i <= size * BITS
      ensures var top := if i < 0 then BITS * size else i;
              && (idx == -1 ==> NoneIn(Bits(), 0, top))
              && (idx != -1 ==> 0 <= idx < top && idx in Bits() && NoneIn(Bits(), idx + 1, top))
    {
      hide BitSet, Bit, Shl;
      ghost var top := if i < 0 then BITS * size else i;
      idx := i;
      if idx < 0 { idx := size * BITS; }
      idx := idx - 1;
      while idx >= 0
        invariant -1 <= idx < top && NoneIn(Bits(), idx + 1, top)
        decreases idx
      {
        var q, c := idx / BITS, BITS - 1 - idx % BITS;
        var w: Word := Shl(WordAt(q), c);
        forall r | c <= r < BITS
          ensures Bit(w, r) <==> BITS * q + (r - c) in Bits()
        {
          BitShl(Words()[q], c, r);
          WordBitInSet(Words(), q, r - c);
        }
        if w != 0 {
          var n := CountLeadingZeros(w);
          if BITS - 1 - n < c { BitShl(Words()[q], c, BITS - 1 - n); }
          NoneAbove(Bits(), w, q, c, BITS - n);
          assert Bit(w, BITS - 1 - n) <==> BITS * q + (BITS - 1 - n - c) in Bits();
          return idx - n;
        }
        forall r | c <= r < BITS ensures !Bit(w, r) { BitZero(r); }
        NoneAbove(Bits(), w, q, c, c);
        idx := q * BITS;
        idx := idx - 1;
      }
      idx := -1;
    }

    /** `for (auto i = bv.begin(); i != bv.end(); ++i)` */
    method Ascending() returns (s: seq<nat>)
      requires Valid()
      ensures forall j, k | 0 <= j < k < |s| :: s[j] < s[k]
      ensures forall i: nat :: i in s <==> i in Bits()
    {
      s := [];
      var i := FindFirstSet(0);
      while i != -1
        invariant i == -1 || (i >= 0 && i in Bits())
        invariant forall j, k | 0 <= j < k < |s| :: s[j] < s[k]
        invariant forall j | 0 <= j < |s| :: i == -1 || s[j] < i
        invariant forall n | n in Bits() :: n in s <==> (i == -1 || n < i)
        invariant forall n | n in s :: n in Bits()
        decreases if i == -1 then 0 else 1 + BITS * size - i
      {
        s := s + [i];
        ghost var last := i;
        i := Next(i);
      }
    }

    /** The same loop with `--` from the largest member */
    method Descending() returns (s: seq<nat>)
      requires Valid()
      ensures forall j, k | 0 <= j < k < |s| :: s[j] > s[k]
      ensures forall i: nat :: i in s <==> i in Bits()
    {
      s := [];
      var i := Prev(size * BITS);
      while i != -1
        invariant i == -1 || (0 <= i < BITS * size && i in Bits())
        invariant forall j, k | 0 <= j < k < |s| :: s[j] > s[k]
        invariant forall j | 0 <= j < |s| :: i < s[j]
        invariant forall n | n in Bits() :: n in s <==> n > i
        invariant forall n | n in s :: n in Bits()
        decreases i
      {
        s := s + [i];
        i := Prev(i);
      }
    }

    /** `*this &= a`, telling whether the set changed */
    method AndAssign(a: Bitvec) returns (rv: bool)
      requires Valid() && a.Valid() && ApartFrom(a)
      modifies this, ptr
      ensures Valid() && ptr == old(ptr) && size == old(size)
      ensures Bits() == old(Bits()) * old(a.Bits())
      ensures rv <==> Bits() != old(Bits())
    {
      ghost var ws, us := Words(), a.Words();
      rv := false;
      if size > 1 {
        if a.size > 1 {
          rv := AndWords(a);
        } else {
          rv := And(ptr[0], a.data) != ptr[0];
          ptr[0] := And(ptr[0], a.data);
        }
        if size > a.size {
          ghost var mid := Words();
          rv := ClearFrom(a.size, rv);
          ChangedInParts(ws, mid, Words(), |us|);
        }
      } else if a.size > 1 {
        rv := And(data, a.ptr[0]) != data;
        data := And(data, a.ptr[0]);
      } else {
        rv := And(data, a.data) != data;
        data := And(data, a.data);
      }
      AndRefines(ws, us, Words());
      Canonical(Words(), ws);
    }

    /** The word loop of `&=` */
    method AndWords(a: Bitvec) returns (rv: bool)
      requires Valid() && a.Valid() && ApartFrom(a) && size > 1 && a.size > 1
      modifies ptr
      ensures forall j | 0 <= j < size :: ptr[j] == old(if j < a.size then And(ptr[j], a.ptr[j]) else ptr[j])
      ensures rv <==> Words() != old(Words())
    {
      rv := false;
      var i := 0;
      while i < size && i < a.size
        invariant i <= size && i <= a.size
        invariant forall j | 0 <= j < i :: ptr[j] == And(old(ptr[j]), old(a.ptr[j]))
        invariant forall j | i <= j < size :: ptr[j] == old(ptr[j])
        invariant forall j | i <= j < a.size :: a.ptr[j] == old(a.ptr[j])
        invariant rv <==> exists j :: 0 <= j < i && ptr[j] != old(ptr[j])
      {
        rv := rv || And(ptr[i], a.ptr[i]) != ptr[i];
        ptr[i] := And(ptr[i], a.ptr[i]);
        i := i + 1;
      }
      if rv {
        ghost var j :| 0 <= j < i && ptr[j] != old(ptr[j]);
        assert Words()[j] != old(Words())[j];
      }
    }

    /** The words that `a` lacks are cleared, after a look whether one of them holds a bit. */
    method ClearFrom(n: nat, changed: bool) returns (rv: bool)
      requires Valid() && size > 1 && n <= size
      modifies ptr
      ensures forall j | 0 <= j < size :: ptr[j] == if j < n then old(ptr[j]) else 0
      ensures rv <==> changed || Words() != old(Words())
    {
      rv := changed;
      var i := n;
      if !rv {
        while i < size
          invariant n <= i <= size && !rv
          invariant forall j | n <= j < i :: ptr[j] == 0
        {
          if ptr[i] != 0 { rv := true; break; }
          i := i + 1;
        }
      }
      forall j | n <= j < size { ptr[j] := 0; }
      if rv && !changed { assert Words()[i] != old(Words())[i]; }
    }

    /** `*this |= a` */
    method OrAssign(a: Bitvec) returns (rv: bool)
      requires Valid() && a.Valid() && ApartFrom(a)
      modifies this, ptr
      ensures Valid() && (ptr == old(ptr) || fresh(ptr))
      ensures Bits() == old(Bits()) + old(a.Bits())
      ensures rv <==> Bits() != old(Bits())
    {
      if size < a.size { Expand(a.size); }
      ghost var ws, us := Words(), a.Words();
      if size > 1 {
        if a.size > 1 {
          rv := OrWords(a);
        } else {
          rv := OrWord(ptr[0], a.data) != ptr[0];
          ptr[0] := OrWord(ptr[0], a.data);
        }
      } else {
        rv := OrWord(data, a.data) != data;
        data := OrWord(data, a.data);
      }
      OrRefines(ws, us, Words());
      Canonical(Words(), ws);
    }

    /** The word loop of `|=` */
    method OrWords(a: Bitvec) returns (rv: bool)
      requires Valid() && a.Valid() && ApartFrom(a) && size >= a.size > 1
      modifies ptr
      ensures forall j | 0 <= j < size :: ptr[j] == old(if j < a.size then OrWord(ptr[j], a.ptr[j]) else ptr[j])
      ensures rv <==> Words() != old(Words())
    {
      rv := false;
      var i := 0;
      while i < a.size
        invariant i <= a.size
        invariant forall j | 0 <= j < i :: ptr[j] == OrWord(old(ptr[j]), old(a.ptr[j]))
        invariant forall j | i <= j < size :: ptr[j] == old(ptr[j])
        invariant forall j | i <= j < a.size :: a.ptr[j] == old(a.ptr[j])
        invariant rv <==> exists j :: 0 <= j < i && ptr[j] != old(ptr[j])
      {
        rv := rv || OrWord(ptr[i], a.ptr[i]) != ptr[i];
        ptr[i] := OrWord(ptr[i], a.ptr[i]);
        i := i + 1;
      }
    }

    /** `*this -= a` */
    method SubAssign(a: Bitvec) returns (rv: bool)
      requires Valid() && a.Valid() && ApartFrom(a)
      modifies this, ptr
      ensures Valid() && ptr == old(ptr) && size == old(size)
      ensures Bits() == old(Bits()) - old(a.Bits())
      ensures rv <==> Bits() != old(Bits())
    {
      ghost var ws, us := Words(), a.Words();
      if size > 1 {
        if a.size > 1 {
          rv := SubWords(a);
        } else {
          rv := And(ptr[0], Not(a.data)) != ptr[0];
          ptr[0] := And(ptr[0], Not(a.data));
        }
      } else if a.size > 1 {
        rv := And(data, Not(a.ptr[0])) != data;
        data := And(data, Not(a.ptr[0]));
      } else {
        rv := And(data, Not(a.data)) != data;
        data := And(data, Not(a.data));
      }
      SubRefines(ws, us, Words());
      Canonical(Words(), ws);
    }

    /** The word loop of `-=` */
    method SubWords(a: Bitvec) returns (rv: bool)
      requires Valid() && a.Valid() && ApartFrom(a) && size > 1 && a.size > 1
      modifies ptr
      ensures forall j | 0 <= j < size :: ptr[j] == old(if j < a.size then And(ptr[j], Not(a.ptr[j])) else ptr[j])
      ensures rv <==> Words() != old(Words())
    {
      rv := false;
      var i := 0;
      while i < size && i < a.size
        invariant i <= size && i <= a.size
        invariant forall j | 0 <= j < i :: ptr[j] == And(old(ptr[j]), Not(old(a.ptr[j])))
        invariant forall j | i <= j < size :: ptr[j] == old(ptr[j])
        invariant forall j | i <= j < a.size :: a.ptr[j] == old(a.ptr[j])
        invariant rv <==> exists j :: 0 <= j < i && ptr[j] != old(ptr[j])
      {
        rv := rv || And(ptr[i], Not(a.ptr[i])) != ptr[i];
        ptr[i] := And(ptr[i], Not(a.ptr[i]));
        i := i + 1;
      }
    }

    /** `*this >>= count`. Trailing zero words are given up, down to the one-word form. The words of a vector fit into
        the address space. */
    method ShiftRight(count: nat)
      requires Valid() && size < MEMORY_WORDS
      modifies this, ptr
      ensures Valid() && ptr == old(ptr)
      ensures Bits() == if old(size) == 1 then Down(old(Bits()), count) else ShiftedRight(old(Bits()), count)
      ensures count < 0x20_0000_0000 ==> Bits() == Down(old(Bits()), count)
      ensures size == 1 || (old(size) > 1 && Words()[size - 1] != 0)
    {
      hide ShiftedRight, Down, BitSet, ShiftReach, IntCast;
      ghost var before := Bits();
      ShiftIsExact(before, count);
      if size == 1 {
        ShiftWordRight(count);
      } else {
        ShiftWordsRight(count);
        Trim();
      }
    }

    /** The one-word form of `>>=` */
    method ShiftWordRight(count: nat)
      requires Valid() && size == 1
      modifies `data
      ensures Bits() == Down(old(Bits()), count)
    {
      hide Down, BitSet, Shr;
      ShrOneWord(data, count);
      if count >= BITS { data := 0; } else { data := Shr(data, count); }
    }

    method ShiftWordsRight(count: nat)
      requires Valid() && 1 < size < MEMORY_WORDS
      modifies ptr
      ensures Bits() == ShiftedRight(old(Bits()), count)
    {
      hide Down, BitSet, IntCast, ShrWord, ShiftedRight;
      ghost var ws := Words();
      MoveWordsDown(IntCast(count / BITS), count % BITS);
      WordsShifted(ws, Words(), count);
    }

    /** The loop of `>>=`: each word is stored only after all that read its old value. The sum of position and offset
        is an unsigned 64-bit value: with a negative offset it is too large, or leads back to words that are zero by
        then. */
    method MoveWordsDown(off: int, c: nat)
      requires Valid() && 1 < size < MEMORY_WORDS && c < BITS && -INT_LIMIT <= off < INT_LIMIT
      modifies ptr
      ensures off >= 0 ==> forall j | 0 <= j < size :: ptr[j] == ShrWord(old(Words()), off, c, j)
      ensures off < 0 ==> forall j | 0 <= j < size :: ptr[j] == 0
    {
      ghost var ws := Words();
      var i := 0;
      while i < size
        invariant i <= size
        invariant off >= 0 ==> forall j | 0 <= j < i :: ptr[j] == ShrWord(ws, off, c, j)
        invariant off >= 0 ==> forall j | i <= j < size :: ptr[j] == ws[j]
        invariant off < 0 ==> forall j | 0 <= j < i :: ptr[j] == 0
      {
        WrappedSum(i, off, size);
        var from, above := (i + off) % LIMIT, (i + off + 1) % LIMIT;
        ShlZero(BITS - c);
        if from < size {
          ptr[i] := Shr(ptr[from], c);
          if c != 0 && above < size { ptr[i] := OrWord(ptr[i], Shl(ptr[above], BITS - c)); }
        } else {
          ptr[i] := 0;
        }
        i := i + 1;
      }
    }

    method Trim()
      requires Valid() && size > 1
      modifies this`size, this`data
      ensures Valid() && size <= old(size) && Bits() == old(Bits())
      ensures size == 1 || Words()[size - 1] != 0
    {
      ghost var vs := Words();
      while size > 1 && ptr[size - 1] == 0
        invariant 1 <= size <= |vs| && ptr[..|vs|] == vs
        invariant forall j | size <= j < |vs| :: vs[j] == 0
      {
        size := size - 1;
      }
      TrailingZeros(vs, size);
      if size == 1 { data := ptr[0]; }
      assert Words() == vs[..size];
    }

    method PopCount() returns (n: nat)
      requires Valid()
      ensures n == |Bits()|
    {
      n := 0;
      for i := 0 to size
        invariant n == |BitSet(Words()[..i])|
      {
        n := n + OnesIn(WordAt(i));
        AppendWord(Words()[..i], Words()[i]);
        assert Words()[..i + 1] == Words()[..i] + [Words()[i]];
      }
      assert Words()[..size] == Words();
    }

    /** Largest minus smallest member plus one, compared with the number of members */
    method IsContiguous() returns (b: bool)
      requires Valid()
      ensures b <==> exists lo: nat, n: nat :: 0 < n && Bits() == Run(lo, n)
    {
      var none := Empty();
      if none {
        forall lo: nat, n: nat | 0 < n ensures Run(lo, n) != Bits() { assert lo in Run(lo, n); }
        return false;
      }
      var max := Max();
      var min := FindFirstSet(0);
      var count := PopCount();
      ghost var some :| some in Bits();
      assert Bits() <= Run(min, max - min + 1);
      DenseIsRun(Bits(), min, max - min + 1);
      b := max - min + 1 == count;
    }

    method Max() returns (m: int)
      requires Valid()
      ensures m >= -1 && forall i | i in Bits() :: i <= m
      ensures m == -1 || m in Bits()
    {
      m := Prev(size * BITS);
    }

    /** `*this <<= count`, growing first when the largest member would leave the vector. The loop variable is an `int`,
        so in a vector of more than 2^31 words nothing moves. */
    method ShiftLeft(count: nat)
      requires Valid() && forall m | IsTop(Bits(), m) :: SizeFor(size, m, count) <= 0x1_0000_0000
      requires Bits() == {} ==> count != 0x20_0000_0000
      modifies this, ptr
      ensures Valid() && (ptr == old(ptr) || fresh(ptr))
      ensures exists m :: IsTop(old(Bits()), m) && size == SizeFor(old(size), m, count)
      ensures Bits() == if size <= 0x8000_0000 then Up(old(Bits()), count) else old(Bits())
    {
      hide BitSet, Up, RoundUp, IntCast;
      var max := Max();
      ghost var s := Bits();
      assert IsTop(s, max);
      var needsize := (max + count + BITS) / BITS;
      if needsize > size { Expand(needsize); }
      FitsInWords(s, max, count, size);
      if size == 1 {
        ShiftWordLeft(count);
      } else {
        OffsetFits(s, max, count, size);
        ShiftWordsLeft(count);
      }
    }

    /** The one-word form of `<<=` */
    method ShiftWordLeft(count: nat)
      requires Valid() && size == 1
      requires forall i | i in Bits() :: i + count < BITS * size
      modifies this`data
      ensures Bits() == Up(old(Bits()), count)
    {
      assert Bits() == BitSet([data]);
      ShlOneWord(data, count);
      data := Shl(data, count);
    }

    /** The last part of `<<=`, when there is more than one word */
    method ShiftWordsLeft(count: nat)
      requires Valid() && 1 < size <= 2 * INT_LIMIT && (size <= INT_LIMIT ==> count < SHIFT_LIMIT)
      requires forall i | i in Bits() :: i + count < BITS * size
      modifies ptr
      ensures Bits() == if size <= INT_LIMIT then Up(old(Bits()), count) else old(Bits())
    {
      hide BitSet, Up, ShlWord, IntCast;
      var off, c := IntCast(count / BITS), count % BITS;
      ghost var ws := Words();
      assert Bits() == BitSet(ws);
      IntCastExact(count);
      MoveWordsUp(off, c);
      if size <= INT_LIMIT { ShlRefinesUp(ws, Words(), off, c, count); }
    }

    /** The loop of `<<=`, from the top word down */
    method MoveWordsUp(off: int, c: nat)
      requires Valid() && 1 < size <= 2 * INT_LIMIT && c < BITS && (size <= INT_LIMIT ==> off >= 0)
      modifies ptr
      ensures size <= INT_LIMIT ==> forall j | 0 <= j < size :: ptr[j] == ShlWord(old(Words()), off, c, j)
      ensures size > INT_LIMIT ==> Words() == old(Words())
    {
      ghost var ws := Words();
      var i := IntCast(size - 1);
      if size > INT_LIMIT { assert i < 0; }
      while i >= 0
        invariant if size <= INT_LIMIT then -1 <= i < size else i < 0
        invariant size <= INT_LIMIT ==> forall j | i < j < size :: ptr[j] == ShlWord(ws, off, c, j)
        invariant forall j | 0 <= j < size && (j <= i || size > INT_LIMIT) :: ptr[j] == ws[j]
      {
        if i >= off {
          ptr[i] := Shl(ptr[i - off], c);
          if c != 0 && i > off {
            ptr[i] := OrWord(ptr[i], Shr(ptr[i - off - 1], BITS - c));
          }
        } else {
          ptr[i] := 0;
        }
        i := i - 1;
      }
    }
  }

  /** Values of `int` range from -INT_LIMIT up to INT_LIMIT. */
  const INT_LIMIT: int := 0x8000_0000

  /** How many words there can be in an address space of 2^64 bytes */
  const MEMORY_WORDS: nat := 0x2000_0000_0000_0000

  /** The largest member, or -1 when there is none */
  ghost predicate IsTop(s: set<nat>, m: int) {
    (m == -1 || m in s) && m >= -1 && forall i | i in s :: i <= m
  }

  /** The number of words after `<<=` */
  function SizeFor(size: nat, max: int, count: nat): nat
    requires max >= -1
  {
    var needsize := (max + count + BITS) / BITS;
    if needsize > size then RoundUp(needsize) else size
  }

  /** The word offset fits an `int` when there are no more words than that. */
  lemma OffsetFits(s: set<nat>, max: int, count: nat, size: nat)
    requires IsTop(s, max) && (max + count + BITS) / BITS <= size && (s == {} ==> count != 0x20_0000_0000)
    ensures size <= 0x8000_0000 ==> count < 0x20_0000_0000
  {
  }

  /** The shift is right if and only if the vector ends with at most 2^31 words, or there is nothing to be moved. */
  lemma ShiftLeftIsExact(s: set<nat>, count: nat, size: nat)
    ensures (if size <= 0x8000_0000 then Up(s, count) else s) == Up(s, count)
            <==> size <= 0x8000_0000 || count == 0 || s == {}
  {
    if count == 0 || s == {} {
      forall i: nat ensures i in Up(s, count) <==> i in s { InUp(s, count, i); }
    } else {
      var m := Largest(s);
      InUp(s, count, m + count);
    }
  }

  /** The conversion of an unsigned 64-bit value to `int`, as two's-complement truncation */
  function IntCast(x: nat): (r: int)
    ensures -0x8000_0000 <= r < 0x8000_0000
  {
    var low := x % 0x1_0000_0000;
    if low < INT_LIMIT then low else low - 0x1_0000_0000
  }

  lemma WrappedSum(i: nat, off: int, size: nat)
    requires i < size < MEMORY_WORDS && -INT_LIMIT <= off < INT_LIMIT
    ensures i + off >= 0 ==> (i + off) % LIMIT == i + off && (i + off + 1) % LIMIT == i + off + 1
    ensures i + off < 0 ==> (i + off) % LIMIT >= size
  {
    if i + off < 0 { assert (i + off) % LIMIT == i + off + LIMIT; }
  }

  lemma {:induction false} ShlZero(c: nat)
    ensures Shl(0, c) == 0 && Shr(0, c) == 0 && OrWord(0, 0) == 0
    decreases c
  {
    OrNothing(0);
    if c > 0 { ShlZero(c - 1); }
  }

  lemma AllZero(ws: seq<Word>)
    requires forall j | 0 <= j < |ws| :: ws[j] == 0
    ensures BitSet(ws) == {}
  {
    forall q, r | 0 <= q < |ws| && 0 <= r < BITS ensures !Bit(ws[q], r) { BitZero(r); }
    BitSetIs(ws, {});
  }

  /** Shift counts whose word offset fits the `int` that the shift loops keep it in */
  const SHIFT_LIMIT: nat := 0x20_0000_0000

  /** The word offset of a shift survives its conversion to `int` exactly when the count is below the limit. */
  lemma IntCastExact(count: nat)
    ensures IntCast(count / BITS) == count / BITS <==> count < 0x20_0000_0000
    ensures IntCast(count / BITS) <= count / BITS
  {
  }

  /** What `>>=` makes of the members when there are several words: the offset that is left of the count may be smaller,
      and when it is negative, all members are lost. */
  function ShiftedRight(s: set<nat>, count: nat): set<nat> {
    var off := IntCast(count / BITS);
    if off < 0 then {} else Down(s, BITS * off + count % BITS)
  }

  lemma WordsShifted(ws: seq<Word>, vs: seq<Word>, count: nat)
    requires |ws| == |vs|
    requires var off, c := IntCast(count / BITS), count % BITS;
             if off < 0 then forall j | 0 <= j < |vs| :: vs[j] == 0
             else forall j | 0 <= j < |vs| :: vs[j] == ShrWord(ws, off, c, j)
    ensures BitSet(vs) == ShiftedRight(BitSet(ws), count)
  {
    var off, c := IntCast(count / BITS), count % BITS;
    hide IntCast, BitSet, ShrWord, Down;
    if off >= 0 { ShrRefinesDown(ws, vs, off, c, BITS * off + c); } else { AllZero(vs); }
  }

  lemma {:induction false} Largest(s: set<nat>) returns (m: nat)
    requires s != {}
    ensures m in s && forall i | i in s :: i <= m
  {
    m :| m in s;
    if s != {m} {
      var n := Largest(s - {m});
      assert s == (s - {m}) + {m};
      if n > m { m := n; }
    }
  }

  /** The shift is right if and only if the count is below 2^37, or all members are smaller than what is left of the
      count, or than the count itself when the offset is negative. */
  lemma ShiftIsExact(s: set<nat>, count: nat)
    ensures ShiftedRight(s, count) == Down(s, count)
            <==> count < 0x20_0000_0000 || forall m | m in s :: m < ShiftReach(count)
  {
    IntCastExact(count);
    var off := IntCast(count / BITS);
    if count < SHIFT_LIMIT {
      assert BITS * off + count % BITS == count;
    } else if forall m | m in s :: m < ShiftReach(count) {
      NothingLeft(s, ShiftReach(count));
      NothingLeft(s, count);
    } else {
      var m := Largest(s);
      if off < 0 {
        InDown(s, count, m - count);
      } else {
        var n := ShiftReach(count);
        InDown(s, n, m - n);
        InDown(s, count, m - n);
      }
    }
  }

  function ShiftReach(count: nat): (n: nat)
    ensures n <= count
  {
    IntCastExact(count);
    var off := IntCast(count / BITS);
    if off < 0 then count else BITS * off + count % BITS
  }

  lemma NothingLeft(s: set<nat>, n: nat)
    requires forall m | m in s :: m < n
    ensures Down(s, n) == {}
  {
    forall i: nat ensures i !in Down(s, n) { InDown(s, n, i); }
  }

  /** Between 2^37 and 2^38 the offset is negative, and all members are lost. */
  lemma NegativeOffsetLosesAll(s: set<nat>, count: nat)
    requires 0x20_0000_0000 <= count < 0x40_0000_0000
    ensures ShiftedRight(s, count) == {}
  {
  }

  /** Above the limit `>>=` goes wrong: shifting a vector of several words right by 2^38 leaves it as it was, and that
      is wrong unless it is empty. */
  lemma WideShiftIsLost(ws: seq<Word>)
    requires BitSet(ws) != {}
    ensures ShiftedRight(BitSet(ws), 0x40_0000_0000) == BitSet(ws) != Down(BitSet(ws), 0x40_0000_0000)
  {
    var s := BitSet(ws);
    assert IntCast(0x40_0000_0000 / BITS) == 0 && 0x40_0000_0000 % BITS == 0;
    forall i: nat ensures i in Down(s, 0) <==> i in s { InDown(s, 0, i); }
    ShiftIsExact(s, 0x40_0000_0000);
  }
}
