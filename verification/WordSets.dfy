/** Sequences of machine words read as finite sets of naturals: bit r of word q stands for 64 * q + r.
    These are the specifications that the loops of lib/bitvec.h and lib/bitvec.cpp refine. */
module WordSets {
  import opened MachineWord
  import opened Wrappers

  predicate HasBit(ws: seq<Word>, i: nat) {
    i / BITS < |ws| && Bit(ws[i / BITS], i % BITS)
  }

  ghost function BitSet(ws: seq<Word>): set<nat> {
    set i: nat | i < BITS * |ws| && HasBit(ws, i)
  }

  lemma WordBitInSet(ws: seq<Word>, q: nat, r: nat)
    requires r < BITS
    ensures BITS * q + r in BitSet(ws) <==> q < |ws| && Bit(ws[q], r)
  {
    assert (BITS * q + r) / BITS == q && (BITS * q + r) % BITS == r;
  }

  /** A word sequence stands for `s` when each of its bits says whether its position is in `s`. */
  lemma BitSetIs(ws: seq<Word>, s: set<nat>)
    requires forall q, r | 0 <= q < |ws| && 0 <= r < BITS :: Bit(ws[q], r) == (BITS * q + r in s)
    requires forall i | i in s :: i < BITS * |ws|
    ensures BitSet(ws) == s
  {
    forall i: nat
      ensures i in BitSet(ws) <==> i in s
    {
      Split(i);
      var q, r := i / BITS, i % BITS;
      if q < |ws| { assert Bit(ws[q], r) == (BITS * q + r in s); } else { assert i >= BITS * |ws|; }
    }
  }

  lemma Split(i: nat)
    ensures i == BITS * (i / BITS) + i % BITS && i % BITS < BITS
  {
  }

  /** A change confined to the words below n and a change confined to the others show as one. */
  lemma ChangedInParts(ws: seq<Word>, mid: seq<Word>, vs: seq<Word>, n: nat)
    requires n <= |ws| == |mid| == |vs|
    requires forall j | n <= j < |ws| :: mid[j] == ws[j]
    requires forall j | 0 <= j < n :: vs[j] == mid[j]
    ensures vs != ws <==> mid != ws || vs != mid
  {
    if mid != ws {
      var j :| 0 <= j < |ws| && mid[j] != ws[j];
      assert vs[j] != ws[j];
    } else if vs != mid {
    }
  }

  /** The n naturals from lo on */
  function Run(lo: nat, n: nat): (s: set<nat>)
    ensures forall i: nat :: i in s <==> lo <= i < lo + n
  {
    if n == 0 then {} else Run(lo, n - 1) + {lo + n - 1}
  }

  /** The specification of `<<=` on sets */
  function Up(s: set<nat>, n: nat): set<nat> {
    set i | i in s :: i + n
  }

  /** The specification of `>>=` on sets */
  function Down(s: set<nat>, n: nat): set<nat> {
    set i | i in s && i >= n :: i - n
  }

  lemma InUp(s: set<nat>, n: nat, i: nat)
    ensures i in Up(s, n) <==> i >= n && i - n in s
  {
    if i >= n && i - n in s { assert (i - n) + n in Up(s, n); }
  }

  lemma InDown(s: set<nat>, n: nat, i: nat)
    ensures i in Down(s, n) <==> i + n in s
  {
    if i + n in s { assert (i + n) - n in Down(s, n); }
  }

  /** Shifting left and then right by the same count gives the set back; the other order keeps the members
      that are at least the count. */
  lemma ShiftsInvert(s: set<nat>, n: nat)
    ensures Down(Up(s, n), n) == s
    ensures Up(Down(s, n), n) == set i | i in s && i >= n
  {
    forall i: nat
      ensures i in Down(Up(s, n), n) <==> i in s
      ensures i in Up(Down(s, n), n) <==> i in s && i >= n
    {
      InDown(Up(s, n), n, i);
      InUp(s, n, i + n);
      InUp(Down(s, n), n, i);
      if i >= n { InDown(s, n, i - n); }
    }
  }

  /** Shifts compose by adding their counts. */
  lemma ShiftsCompose(s: set<nat>, m: nat, n: nat)
    ensures Up(Up(s, m), n) == Up(s, m + n)
    ensures Down(Down(s, m), n) == Down(s, m + n)
  {
    forall i: nat
      ensures i in Up(Up(s, m), n) <==> i in Up(s, m + n)
      ensures i in Down(Down(s, m), n) <==> i in Down(s, m + n)
    {
      InUp(Up(s, m), n, i);
      if i >= n { InUp(s, m, i - n); }
      InUp(s, m + n, i);
      InDown(Down(s, m), n, i);
      InDown(s, m, i + n);
      InDown(s, m + n, i);
    }
  }

  /** The word that `>>=` stores at position i */
  function ShrWord(ws: seq<Word>, off: nat, c: nat, i: nat): Word
    requires c < BITS
  {
    if i + off < |ws| then
      if c != 0 && i + off + 1 < |ws| then
        OrWord(Shr(ws[i + off], c), Shl(ws[i + off + 1], BITS - c))
      else
        Shr(ws[i + off], c)
    else
      0
  }

  /** The word that `<<=` stores at position i */
  function ShlWord(ws: seq<Word>, off: nat, c: nat, i: nat): Word
    requires c < BITS && i < |ws|
  {
    if i >= off then
      if c != 0 && i > off then
        OrWord(Shl(ws[i - off], c), Shr(ws[i - off - 1], BITS - c))
      else
        Shl(ws[i - off], c)
    else
      0
  }

  lemma ShrWordBit(ws: seq<Word>, off: nat, c: nat, i: nat, r: nat)
    requires c < BITS && r < BITS
    ensures Bit(ShrWord(ws, off, c, i), r) <==> BITS * i + r + (BITS * off + c) in BitSet(ws)
  {
    var q := i + off;
    if r + c < BITS {
      WordBitInSet(ws, q, r + c);
    } else {
      WordBitInSet(ws, q + 1, r + c - BITS);
    }
    if q < |ws| {
      BitShr(ws[q], c, r);
      if r + c >= BITS { WordHigh(ws[q], r + c); }
      if c != 0 && q + 1 < |ws| {
        BitShl(ws[q + 1], BITS - c, r);
        BitOr(Shr(ws[q], c), Shl(ws[q + 1], BITS - c), r);
      }
    } else {
      BitZero(r);
    }
  }

  lemma ShlWordBit(ws: seq<Word>, off: nat, c: nat, i: nat, r: nat)
    requires c < BITS && r < BITS && i < |ws|
    ensures Bit(ShlWord(ws, off, c, i), r) <==>
            BITS * i + r >= BITS * off + c && BITS * i + r - (BITS * off + c) in BitSet(ws)
  {
    if i < off {
      BitZero(r);
    } else {
      var q := i - off;
      BitShl(ws[q], c, r);
      if r >= c { WordBitInSet(ws, q, r - c); }
      if c != 0 && i > off {
        BitShr(ws[q - 1], BITS - c, r);
        BitOr(Shl(ws[q], c), Shr(ws[q - 1], BITS - c), r);
        if r >= c { WordHigh(ws[q - 1], r + (BITS - c)); } else { WordBitInSet(ws, q - 1, r + BITS - c); }
      }
    }
  }

  lemma ShrRefinesDown(ws: seq<Word>, vs: seq<Word>, off: nat, c: nat, n: nat)
    requires c < BITS && |vs| == |ws| && n == BITS * off + c
    requires forall i | 0 <= i < |vs| :: vs[i] == ShrWord(ws, off, c, i)
    ensures BitSet(vs) == Down(BitSet(ws), n)
  {
    var s := BitSet(ws);
    var t := Down(s, n);
    forall i: nat
      ensures i in t <==> i + n in s
    {
      InDown(s, n, i);
    }
    ShrRefines(ws, vs, off, c, n, t);
  }

  lemma ShrRefines(ws: seq<Word>, vs: seq<Word>, off: nat, c: nat, n: nat, t: set<nat>)
    requires c < BITS && |vs| == |ws| && n == BITS * off + c
    requires forall i | 0 <= i < |vs| :: vs[i] == ShrWord(ws, off, c, i)
    requires forall i: nat :: i in t <==> i + n in BitSet(ws)
    ensures BitSet(vs) == t
  {
    forall q, r | 0 <= q < |vs| && 0 <= r < BITS
      ensures Bit(vs[q], r) == (BITS * q + r in t)
    {
      ShrWordBit(ws, off, c, q, r);
    }
    BitSetIs(vs, t);
  }

  lemma ShlRefinesUp(ws: seq<Word>, vs: seq<Word>, off: nat, c: nat, n: nat)
    requires c < BITS && |vs| == |ws| && n == BITS * off + c
    requires forall i | 0 <= i < |vs| :: vs[i] == ShlWord(ws, off, c, i)
    requires forall i | i in BitSet(ws) :: i + n < BITS * |ws|
    ensures BitSet(vs) == Up(BitSet(ws), n)
  {
    var s := BitSet(ws);
    forall q, r | 0 <= q < |vs| && 0 <= r < BITS
      ensures Bit(vs[q], r) == (BITS * q + r in Up(s, n))
    {
      ShlWordBit(ws, off, c, q, r);
      InUp(s, n, BITS * q + r);
    }
    BitSetIs(vs, Up(s, n));
  }

  /** Zero words at the end add nothing. */
  lemma TrailingZeros(ws: seq<Word>, n: nat)
    requires n <= |ws|
    requires forall i | n <= i < |ws| :: ws[i] == 0
    ensures BitSet(ws[..n]) == BitSet(ws)
  {
    var s := BitSet(ws);
    forall q, r | 0 <= q < n && 0 <= r < BITS
      ensures Bit(ws[..n][q], r) == (BITS * q + r in s)
    {
      WordBitInSet(ws, q, r);
    }
    forall i | i in s
      ensures i < BITS * n
    {
      BitZero(i % BITS);
      assert i / BITS < n;
    }
    BitSetIs(ws[..n], s);
  }

  /** Different sets have different words: the representation in a fixed number of words is canonical. */
  lemma Canonical(ws: seq<Word>, vs: seq<Word>)
    requires |ws| == |vs|
    ensures BitSet(ws) == BitSet(vs) <==> ws == vs
  {
    if BitSet(ws) == BitSet(vs) {
      forall q | 0 <= q < |ws|
        ensures ws[q] == vs[q]
      {
        forall r | 0 <= r < BITS
          ensures Bit(ws[q], r) == Bit(vs[q], r)
        {
          WordBitInSet(ws, q, r);
          WordBitInSet(vs, q, r);
        }
        WordsEqual(ws[q], vs[q]);
      }
    }
  }

  /** `mask` holds the members of `t`, which all lie in word q. */
  ghost predicate Masks(mask: Word, q: nat, t: set<nat>) {
    && (forall r | 0 <= r < BITS :: Bit(mask, r) == (BITS * q + r in t))
    && (forall i | i in t :: i / BITS == q)
  }

  lemma RunMaskMasks(idx: nat, sz: nat)
    requires 0 < sz && idx / BITS == (idx + sz - 1) / BITS
    ensures Masks(RunMask(idx % BITS, sz), idx / BITS, Run(idx, sz))
  {
    forall r | 0 <= r < BITS
      ensures Bit(RunMask(idx % BITS, sz), r) == (BITS * (idx / BITS) + r in Run(idx, sz))
    {
      BitRunMask(idx % BITS, sz, r);
    }
  }

  lemma OneBitMasks(idx: nat)
    ensures Masks(Shl(1, idx % BITS), idx / BITS, {idx})
  {
    forall r | 0 <= r < BITS
      ensures Bit(Shl(1, idx % BITS), r) == (BITS * (idx / BITS) + r in {idx})
    {
      BitShl(1, idx % BITS, r);
      if r >= idx % BITS { BitOne(r - idx % BITS); }
    }
  }

  /** `ptr[q] |= mask` adds the masked set. */
  lemma OrOneWord(ws: seq<Word>, q: nat, mask: Word, t: set<nat>)
    requires q < |ws| && Masks(mask, q, t)
    ensures BitSet(ws[q := OrWord(ws[q], mask)]) == BitSet(ws) + t
  {
    var vs := ws[q := OrWord(ws[q], mask)];
    forall j, r | 0 <= j < |vs| && 0 <= r < BITS
      ensures Bit(vs[j], r) == (BITS * j + r in BitSet(ws) + t)
    {
      WordBitInSet(ws, j, r);
      BitOr(ws[q], mask, r);
    }
    BitSetIs(vs, BitSet(ws) + t);
  }

  /** `ptr[q] &= ~mask` removes the masked set. */
  lemma ClearOneWord(ws: seq<Word>, q: nat, mask: Word, t: set<nat>)
    requires q < |ws| && Masks(mask, q, t)
    ensures BitSet(ws[q := And(ws[q], Not(mask))]) == BitSet(ws) - t
  {
    var vs := ws[q := And(ws[q], Not(mask))];
    forall j, r | 0 <= j < |vs| && 0 <= r < BITS
      ensures Bit(vs[j], r) == (BITS * j + r in BitSet(ws) - t)
    {
      WordBitInSet(ws, j, r);
      BitAnd(ws[q], Not(mask), r);
      BitNot(mask, r);
    }
    BitSetIs(vs, BitSet(ws) - t);
  }

  /** The mask that a run starting at lo in word `first` and ending before hi in word `last` has in word j */
  function SpanMask(first: nat, lo: nat, last: nat, hi: nat, j: nat): Word
    requires hi < BITS
  {
    if j == first then Shl(ONES, lo)
    else if j == last then (BitLowMask(hi, 0); Shl(1, hi) - 1)
    else if first < j < last then ONES
    else 0
  }

  lemma SpanMaskBit(idx: nat, sz: nat, j: nat, r: nat)
    requires 0 < sz && idx / BITS < (idx + sz - 1) / BITS && r < BITS
    ensures Bit(SpanMask(idx / BITS, idx % BITS, (idx + sz) / BITS, (idx + sz) % BITS, j), r)
            == (BITS * j + r in Run(idx, sz))
  {
    var first, last := idx / BITS, (idx + sz) / BITS;
    if j == first {
      BitOnesShl(idx % BITS, r);
    } else if j == last {
      BitLowMask((idx + sz) % BITS, r);
    } else if first < j < last {
      BitOnesShl(0, r);
    } else {
      BitZero(r);
    }
  }

  /** What setrange makes of word j when the run covers several words */
  function SetSpanWord(w: Word, first: nat, lo: nat, last: nat, hi: nat, j: nat): Word
    requires hi < BITS
  {
    if j == first then OrWord(w, Shl(ONES, lo))
    else if j == last then (BitLowMask(hi, 0); OrWord(w, Shl(1, hi) - 1))
    else if first < j < last then ONES
    else w
  }

  /** What clrrange makes of it */
  function ClearSpanWord(w: Word, first: nat, lo: nat, last: nat, hi: nat, j: nat): Word
    requires hi < BITS
  {
    if j == first then And(w, Not(Shl(ONES, lo)))
    else if j == last then (BitLowMask(hi, 0); And(w, Not(Shl(1, hi) - 1)))
    else if first < j < last then 0
    else w
  }

  lemma SetSpan(ws: seq<Word>, vs: seq<Word>, idx: nat, sz: nat)
    requires 0 < sz && idx / BITS < (idx + sz - 1) / BITS && idx + sz <= BITS * |ws| && |vs| == |ws|
    requires forall j | 0 <= j < |vs| ::
               vs[j] == SetSpanWord(ws[j], idx / BITS, idx % BITS, (idx + sz) / BITS, (idx + sz) % BITS, j)
    ensures BitSet(vs) == BitSet(ws) + Run(idx, sz)
  {
    forall j, r | 0 <= j < |vs| && 0 <= r < BITS
      ensures Bit(vs[j], r) == (BITS * j + r in BitSet(ws) + Run(idx, sz))
    {
      var mask := SpanMask(idx / BITS, idx % BITS, (idx + sz) / BITS, (idx + sz) % BITS, j);
      WordBitInSet(ws, j, r);
      SpanMaskBit(idx, sz, j, r);
      OrNothing(ws[j]);
      assert vs[j] == OrWord(ws[j], mask);
      BitOr(ws[j], mask, r);
    }
    BitSetIs(vs, BitSet(ws) + Run(idx, sz));
  }

  lemma ClearSpan(ws: seq<Word>, vs: seq<Word>, idx: nat, sz: nat)
    requires 0 < sz && idx / BITS < (idx + sz - 1) / BITS && |vs| == |ws|
    requires forall j | 0 <= j < |vs| ::
               vs[j] == ClearSpanWord(ws[j], idx / BITS, idx % BITS, (idx + sz) / BITS, (idx + sz) % BITS, j)
    ensures BitSet(vs) == BitSet(ws) - Run(idx, sz)
  {
    forall j, r | 0 <= j < |vs| && 0 <= r < BITS
      ensures Bit(vs[j], r) == (BITS * j + r in BitSet(ws) - Run(idx, sz))
    {
      var mask := SpanMask(idx / BITS, idx % BITS, (idx + sz) / BITS, (idx + sz) % BITS, j);
      WordBitInSet(ws, j, r);
      SpanMaskBit(idx, sz, j, r);
      OrNothing(ws[j]);
      assert vs[j] == And(ws[j], Not(mask));
      BitAnd(ws[j], Not(mask), r);
      BitNot(mask, r);
    }
    BitSetIs(vs, BitSet(ws) - Run(idx, sz));
  }

  lemma OrNothing(w: Word)
    ensures OrWord(w, 0) == w && OrWord(w, ONES) == ONES && And(w, Not(0)) == w && And(w, Not(ONES)) == 0
  {
    forall r | 0 <= r < BITS
      ensures Bit(OrWord(w, 0), r) == Bit(w, r) == Bit(And(w, Not(0)), r)
      ensures Bit(OrWord(w, ONES), r) == Bit(ONES, r)
    {
      BitOr(w, 0, r);
      BitOr(w, ONES, r);
      BitAnd(w, Not(0), r);
      BitNot(0, r);
      BitZero(r);
      BitOnesShl(0, r);
    }
    WordsEqual(OrWord(w, 0), w);
    WordsEqual(OrWord(w, ONES), ONES);
    WordsEqual(And(w, Not(0)), w);
    AndZero(w);
  }

  lemma {:induction false} AndZero(w: nat)
    ensures And(w, 0) == 0
  {
    if w > 0 { AndZero(w / 2); }
  }

  /** The members that the low sz bits of v give when stored at idx */
  function Field(idx: nat, sz: nat, v: Word): set<nat> {
    set i | i in Run(idx, sz) && Bit(v, i - idx)
  }

  /** The part of x, stored at idx, that falls into word j */
  function FieldMask(idx: nat, sz: nat, x: Word, j: nat): Word {
    if j == idx / BITS then Shl(x, idx % BITS)
    else if j == idx / BITS + 1 && BITS - idx % BITS < sz then Shr(x, BITS - idx % BITS)
    else 0
  }

  lemma FieldMaskBit(idx: nat, sz: nat, x: Word, j: nat, r: nat)
    requires 0 < sz <= BITS && r < BITS
    requires forall k | sz <= k < BITS :: !Bit(x, k)
    ensures Bit(FieldMask(idx, sz, x, j), r) == (BITS * j + r in Run(idx, sz) && Bit(x, BITS * j + r - idx))
  {
    var q, s := idx / BITS, idx % BITS;
    if j == q {
      BitShl(x, s, r);
    } else if j == q + 1 && BITS - s < sz {
      BitShr(x, BITS - s, r);
      if r + (BITS - s) >= BITS { WordHigh(x, r + (BITS - s)); }
    } else {
      BitZero(r);
    }
  }

  lemma PutField(ws: seq<Word>, vs: seq<Word>, idx: nat, sz: nat, v: Word)
    requires 0 < sz <= BITS && |vs| == |ws| && idx + sz <= BITS * |ws|
    requires forall j | 0 <= j < |vs| ::
               vs[j] == OrWord(And(ws[j], Not(FieldMask(idx, sz, Shr(ONES, BITS - sz), j))),
                               FieldMask(idx, sz, And(v, Shr(ONES, BITS - sz)), j))
    ensures BitSet(vs) == BitSet(ws) - Run(idx, sz) + Field(idx, sz, v)
  {
    var mask: Word, s := Shr(ONES, BITS - sz), BitSet(ws) - Run(idx, sz) + Field(idx, sz, v);
    var u: Word := And(v, mask);
    forall k | 0 <= k < BITS
      ensures Bit(mask, k) == (k < sz) && Bit(u, k) == (k < sz && Bit(v, k))
    {
      BitOnesShr(sz, k);
      BitAnd(v, mask, k);
    }
    forall j, r | 0 <= j < |vs| && 0 <= r < BITS
      ensures Bit(vs[j], r) == (BITS * j + r in s)
    {
      var m, x := FieldMask(idx, sz, mask, j), FieldMask(idx, sz, u, j);
      WordBitInSet(ws, j, r);
      FieldMaskBit(idx, sz, mask, j, r);
      FieldMaskBit(idx, sz, u, j, r);
      BitOr(And(ws[j], Not(m)), x, r);
      BitAnd(ws[j], Not(m), r);
      BitNot(m, r);
    }
    BitSetIs(vs, s);
  }

  /** What getrange computes before masking, in a vector of several words */
  lemma ReadWordBit(ws: seq<Word>, q: nat, shift: nat, sz: nat, r: nat)
    requires q < |ws| && shift < BITS && r < sz <= BITS
    ensures var lo: Word := Shr(ws[q], shift);
            var rv := if BITS - shift < sz && q + 1 < |ws| then OrWord(lo, Shl(ws[q + 1], BITS - shift)) else lo;
            Bit(rv, r) <==> BITS * q + shift + r in BitSet(ws)
  {
    BitShr(ws[q], shift, r);
    if shift + r < BITS {
      WordBitInSet(ws, q, shift + r);
    } else {
      WordHigh(ws[q], r + shift);
      WordBitInSet(ws, q + 1, shift + r - BITS);
    }
    if BITS - shift < sz && q + 1 < |ws| {
      BitOr(Shr(ws[q], shift), Shl(ws[q + 1], BITS - shift), r);
      BitShl(ws[q + 1], BITS - shift, r);
    }
  }

  /** Reading a field gives back the number stored there: its low bits are the field, and a word is determined
      by its bits. Reading a field elsewhere is not affected. */
  lemma FieldReadsBack(s: set<nat>, idx: nat, sz: nat, v: Word, rv: Word)
    requires 0 < sz <= BITS
    requires forall r | 0 <= r < BITS ::
               Bit(rv, r) <==> r < sz && idx + r in s - Run(idx, sz) + Field(idx, sz, v)
    ensures rv == And(v, Shr(ONES, BITS - sz))
  {
    var u: Word := And(v, Shr(ONES, BITS - sz));
    forall r | 0 <= r < BITS
      ensures Bit(rv, r) == Bit(u, r)
    {
      BitAnd(v, Shr(ONES, BITS - sz), r);
      BitOnesShr(sz, r);
    }
    WordsEqual(rv, u);
  }

  lemma AndRefines(ws: seq<Word>, us: seq<Word>, vs: seq<Word>)
    requires |vs| == |ws|
    requires forall j | 0 <= j < |vs| :: vs[j] == if j < |us| then And(ws[j], us[j]) else 0
    ensures BitSet(vs) == BitSet(ws) * BitSet(us)
  {
    forall q, r | 0 <= q < |vs| && 0 <= r < BITS
      ensures Bit(vs[q], r) == (BITS * q + r in BitSet(ws) * BitSet(us))
    {
      WordBitInSet(ws, q, r);
      WordBitInSet(us, q, r);
      BitZero(r);
      if q < |us| { BitAnd(ws[q], us[q], r); }
    }
    BitSetIs(vs, BitSet(ws) * BitSet(us));
  }

  lemma OrRefines(ws: seq<Word>, us: seq<Word>, vs: seq<Word>)
    requires |vs| == |ws| >= |us|
    requires forall j | 0 <= j < |vs| :: vs[j] == if j < |us| then OrWord(ws[j], us[j]) else ws[j]
    ensures BitSet(vs) == BitSet(ws) + BitSet(us)
  {
    forall q, r | 0 <= q < |vs| && 0 <= r < BITS
      ensures Bit(vs[q], r) == (BITS * q + r in BitSet(ws) + BitSet(us))
    {
      WordBitInSet(ws, q, r);
      WordBitInSet(us, q, r);
      if q < |us| { BitOr(ws[q], us[q], r); }
    }
    BitSetIs(vs, BitSet(ws) + BitSet(us));
  }

  lemma SubRefines(ws: seq<Word>, us: seq<Word>, vs: seq<Word>)
    requires |vs| == |ws|
    requires forall j | 0 <= j < |vs| :: vs[j] == if j < |us| then And(ws[j], Not(us[j])) else ws[j]
    ensures BitSet(vs) == BitSet(ws) - BitSet(us)
  {
    forall q, r | 0 <= q < |vs| && 0 <= r < BITS
      ensures Bit(vs[q], r) == (BITS * q + r in BitSet(ws) - BitSet(us))
    {
      WordBitInSet(ws, q, r);
      WordBitInSet(us, q, r);
      if q < |us| {
        BitAnd(ws[q], Not(us[q]), r);
        BitNot(us[q], r);
      }
    }
    BitSetIs(vs, BitSet(ws) - BitSet(us));
  }

  lemma ShrOneWord(w: Word, n: nat)
    ensures BitSet([if n >= BITS then 0 else Shr(w, n)]) == Down(BitSet([w]), n)
  {
    var v: Word, t := if n >= BITS then 0 else Shr(w, n), Down(BitSet([w]), n);
    forall q, r | 0 <= q < 1 && 0 <= r < BITS
      ensures Bit([v][q], r) == (BITS * q + r in t)
    {
      InDown(BitSet([w]), n, r);
      BitZero(r);
      BitShr(w, n, r);
      if r + n < BITS { WordBitInSet([w], 0, r + n); } else { WordHigh(w, r + n); }
    }
    forall i | i in t
      ensures i < BITS
    {
      InDown(BitSet([w]), n, i);
    }
    BitSetIs([v], t);
  }

  lemma ShlOneWord(w: Word, n: nat)
    requires forall i | i in BitSet([w]) :: i + n < BITS
    ensures BitSet([Shl(w, n)]) == Up(BitSet([w]), n)
  {
    var t := Up(BitSet([w]), n);
    forall q, r | 0 <= q < 1 && 0 <= r < BITS
      ensures Bit([Shl(w, n)][q], r) == (BITS * q + r in t)
    {
      InUp(BitSet([w]), n, r);
      BitShl(w, n, r);
      if r >= n { WordBitInSet([w], 0, r - n); }
    }
    forall i | i in t
      ensures i < BITS
    {
      InUp(BitSet([w]), n, i);
    }
    BitSetIs([Shl(w, n)], t);
  }

  /** The number of set bits of a word */
  function OnesIn(w: nat): nat {
    if w == 0 then 0 else w % 2 + OnesIn(w / 2)
  }

  lemma {:induction false} UpSize(s: set<nat>, n: nat)
    ensures |Up(s, n)| == |s|
  {
    if s != {} {
      var x :| x in s;
      UpSize(s - {x}, n);
      forall i: nat
        ensures i in Up(s, n) <==> i in Up(s - {x}, n) + {x + n}
      {
        InUp(s, n, i);
        InUp(s - {x}, n, i);
      }
      assert Up(s, n) == Up(s - {x}, n) + {x + n};
      InUp(s - {x}, n, x + n);
    }
  }

  ghost function WordSet(w: Word): set<nat> {
    set i: nat | i < BITS && Bit(w, i)
  }

  lemma {:induction false} WordSetSize(w: Word)
    ensures |WordSet(w)| == OnesIn(w)
  {
    if w == 0 {
      forall i: nat ensures i !in WordSet(w) { BitZero(i); }
      assert WordSet(w) == {};
    } else {
      WordSetSize(w / 2);
      UpSize(WordSet(w / 2), 1);
      SplitWordSet(w);
      InUp(WordSet(w / 2), 1, 0);
    }
  }

  lemma SplitWordSet(w: Word)
    ensures WordSet(w) == (if w % 2 == 1 then {0} else {}) + Up(WordSet(w / 2), 1)
  {
    var t := Up(WordSet(w / 2), 1);
    forall i: nat
      ensures i in WordSet(w) <==> (i == 0 && w % 2 == 1) || i in t
    {
      InUp(WordSet(w / 2), 1, i);
      if i > 0 { assert Bit(w, i) == Bit(w / 2, i - 1); }
      if i == BITS { WordHigh(w, BITS); }
    }
  }

  /** Appending a word adds as many members as it has set bits. */
  lemma AppendWord(ws: seq<Word>, w: Word)
    ensures |BitSet(ws + [w])| == |BitSet(ws)| + OnesIn(w)
  {
    var n, vs := BITS * |ws|, ws + [w];
    var high := Up(WordSet(w), n);
    forall q, r | 0 <= q < |vs| && 0 <= r < BITS
      ensures Bit(vs[q], r) == (BITS * q + r in BitSet(ws) + high)
    {
      WordBitInSet(ws, q, r);
      InUp(WordSet(w), n, BITS * q + r);
    }
    forall i | i in high
      ensures i < BITS * |vs| && i !in BitSet(ws)
    {
      InUp(WordSet(w), n, i);
    }
    BitSetIs(vs, BitSet(ws) + high);
    assert BitSet(ws) !! high;
    UpSize(WordSet(w), n);
    WordSetSize(w);
  }

  lemma {:induction false} RunSize(lo: nat, n: nat)
    ensures |Run(lo, n)| == n
  {
    if n > 0 { RunSize(lo, n - 1); }
  }

  /** A set within a run that it reaches both ends of is a run exactly when it has as many members. */
  lemma DenseIsRun(s: set<nat>, lo: nat, n: nat)
    requires 0 < n && s <= Run(lo, n) && lo in s && lo + n - 1 in s
    ensures |s| == n <==> exists l: nat, m: nat :: 0 < m && s == Run(l, m)
  {
    RunSize(lo, n);
    SubsetSize(s, Run(lo, n));
    forall l: nat, m: nat | 0 < m && s == Run(l, m)
      ensures |s| == n
    {
      RunSize(l, m);
      assert l in s && l + m - 1 in s;
    }
    if |s| == n { assert s == Run(lo, n); }
  }
}
