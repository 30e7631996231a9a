/** Iteration over the stretches of consecutive set bits of a vector (lib/bitrange.h). */
module BitRanges {
  import opened MachineWord
  import opened WordSets
  import opened BitVector

  /** A stretch of members that cannot be extended at either end */
  ghost predicate MaximalRun(s: set<nat>, r: (int, int)) {
    && 0 <= r.0 <= r.1
    && (forall i | r.0 <= i <= r.1 :: i in s)
    && (r.0 > 0 ==> r.0 - 1 !in s)
    && r.1 + 1 !in s
  }

  ghost predicate Covered(rs: seq<(int, int)>, i: int) {
    exists k :: 0 <= k < |rs| && rs[k].0 <= i <= rs[k].1
  }

  /** `rs` lists the maximal runs that lie below `limit`, in ascending order. */
  ghost predicate RunsBelow(s: set<nat>, rs: seq<(int, int)>, limit: int) {
    && (forall k | 0 <= k < |rs| :: MaximalRun(s, rs[k]) && rs[k].1 + 1 < limit)
    && (forall j, k | 0 <= j < k < |rs| :: rs[j].1 + 1 < rs[k].0)
    && (forall i | i in s && i < limit :: Covered(rs, i))
  }

  /** Maximal runs that share a member are the same. */
  lemma RunsMeet(s: set<nat>, r: (int, int), t: (int, int))
    requires MaximalRun(s, r) && MaximalRun(s, t)
    requires t.0 <= r.0 <= t.1
    ensures r == t
  {
  }

  /** A list that covers the set in this way holds every maximal run, and nothing else. */
  lemma ListsAllRuns(s: set<nat>, rs: seq<(int, int)>, limit: int)
    requires RunsBelow(s, rs, limit) && forall i | i in s :: i < limit
    ensures forall j, k | 0 <= j < k < |rs| :: rs[j].1 + 1 < rs[k].0
    ensures forall r :: r in rs <==> MaximalRun(s, r)
  {
    forall r | MaximalRun(s, r)
      ensures r in rs
    {
      assert r.0 in s && Covered(rs, r.0);
      var k :| 0 <= k < |rs| && rs[k].0 <= r.0 <= rs[k].1;
      RunsMeet(s, r, rs[k]);
    }
  }

  lemma AppendRun(s: set<nat>, rs: seq<(int, int)>, run: (int, int), limit: int)
    requires RunsBelow(s, rs, run.0) && MaximalRun(s, run)
    requires run.1 + 1 < limit && forall i | i in s && i > run.1 :: i >= limit
    ensures RunsBelow(s, rs + [run], limit)
  {
    var all := rs + [run];
    forall i | i in s && i < limit
      ensures Covered(all, i)
    {
      if i < run.0 {
        assert Covered(rs, i);
        var k :| 0 <= k < |rs| && rs[k].0 <= i <= rs[k].1;
        assert all[k] == rs[k];
      } else {
        assert all[|rs|] == run;
      }
    }
  }

  /** What an iterator holds: `ptr` is -1 or a member, and while the iterator is valid its range is a stretch of
      members that cannot be extended upwards, with `ptr` at the first member beyond it. */
  ghost predicate IterOk(s: set<nat>, valid: bool, ptr: int, range: (int, int)) {
    && (ptr == -1 || (ptr >= 0 && ptr in s))
    && (valid ==>
          && 0 <= range.0 <= range.1
          && (forall i | range.0 <= i <= range.1 :: i in s)
          && range.1 + 1 !in s
          && (forall i | i in s && i > range.1 :: ptr != -1 && ptr <= i)
          && (ptr != -1 ==> ptr > range.1 + 1))
  }

  /** While a range grows: its members, and the next one beyond it */
  ghost predicate Extent(s: set<nat>, top: nat, range: (int, int), ptr: int) {
    && 0 <= range.0 <= range.1 && (forall i | range.0 <= i <= range.1 :: i in s)
    && IsNext(s, top, range.1, ptr)
  }

  /** What `++` gives for an iterator at i */
  ghost predicate IsNext(s: set<nat>, top: nat, i: int, ptr: int) {
    if ptr == -1 then NoneIn(s, i + 1, top) else i < ptr && ptr in s && NoneIn(s, i + 1, ptr)
  }

  lemma ExtentStarts(s: set<nat>, top: nat, i: int, ptr: int)
    requires i >= 0 && i in s && IsNext(s, top, i, ptr)
    ensures Extent(s, top, (i, i), ptr)
  {
  }

  lemma ExtentGrows(s: set<nat>, top: nat, range: (int, int), ptr: int, ptr': int)
    requires Extent(s, top, range, ptr) && ptr == range.1 + 1 && IsNext(s, top, ptr, ptr')
    ensures Extent(s, top, (range.0, ptr), ptr') && ptr in s
  {
  }

  lemma ExtentEnds(s: set<nat>, top: nat, range: (int, int), ptr: int)
    requires Extent(s, top, range, ptr) && !(ptr != -1 && range.1 + 1 == ptr) && forall i | i in s :: i < top
    ensures IterOk(s, true, ptr, range)
  {
    assert range.1 + 1 !in s;
  }

  lemma MembersBelow(bits: Bitvec)
    requires bits.Valid()
    ensures forall i | i in bits.Bits() :: i < BITS * bits.size
  {
  }

  class RangeIter {
    const bits: Bitvec
    var valid: bool
    var ptr: int
    var range: (int, int)

    ghost predicate Valid()
      reads this, bits, bits.ptr
    {
      bits.Valid() && IterOk(bits.Bits(), valid, ptr, range)
    }

    constructor (b: Bitvec, p: int)
      requires b.Valid() && (p == -1 || (p >= 0 && p in b.Bits()))
      ensures Valid() && bits == b
      ensures valid <==> p != -1
      ensures valid ==> range.0 == p
      ensures !valid ==> ptr == -1
    {
      bits := b;
      valid := true;
      ptr := p;
      range := (0, -1);
      new;
      Advance();
    }

    /** `++`: the run that starts at `ptr` becomes the current range. */
    method Advance()
      requires bits.Valid() && (ptr == -1 || (ptr >= 0 && ptr in bits.Bits()))
      modifies this
      ensures Valid()
      ensures old(ptr) == -1 ==> !valid && ptr == -1
      ensures old(ptr) != -1 ==> valid == old(valid) && range.0 == old(ptr)
    {
      var here := false;
      if ptr >= 0 { here := bits.GetBit(ptr); }
      if here {
        GrowRange();
      } else {
        valid := false;
      }
    }

    method GrowRange()
      requires bits.Valid() && ptr >= 0 && ptr in bits.Bits()
      modifies `range, `ptr
      ensures IterOk(bits.Bits(), true, ptr, range) && range.0 == old(ptr)
    {
      hide BitSet, NoneIn, Extent, IterOk;
      ghost var s, top := bits.Bits(), BITS * bits.size;
      MembersBelow(bits);
      range := (ptr, ptr);
      ptr := bits.Next(ptr);
      ExtentStarts(s, top, range.0, ptr);
      while ptr != -1 && range.1 + 1 == ptr
        invariant range.0 == old(ptr) && -1 <= ptr < top && Extent(s, top, range, ptr)
        decreases if ptr == -1 then 0 else 1 + top - ptr
      {
        ghost var before := range;
        range := (range.0, range.1 + 1);
        ptr := bits.Next(ptr);
        ExtentGrows(s, top, before, range.1, ptr);
      }
      ExtentEnds(s, top, range, ptr);
    }
  }

  /** How far a walk over the ranges has come: all runs below the current one are listed. */
  ghost predicate Scanned(s: set<nat>, top: nat, rs: seq<(int, int)>, valid: bool, ptr: int, range: (int, int)) {
    && IterOk(s, valid, ptr, range)
    && (valid || ptr == -1)
    && (valid ==> MaximalRun(s, range) && range.0 < top)
    && RunsBelow(s, rs, if valid then range.0 else top + 2)
  }

  lemma ScanBegins(s: set<nat>, top: nat, begin: int, valid: bool, ptr: int, range: (int, int))
    requires IterOk(s, valid, ptr, range) && (forall i | i in s :: i < top)
    requires NoneIn(s, 0, if begin == -1 then top else begin) && (begin == -1 || (begin >= 0 && begin in s))
    requires if begin == -1 then !valid && ptr == -1 else valid && range.0 == begin
    ensures Scanned(s, top, [], valid, ptr, range)
  {
  }

  lemma ScanStep(s: set<nat>, top: nat, rs: seq<(int, int)>, ptr: int, range: (int, int),
                 valid': bool, ptr': int, range': (int, int))
    requires Scanned(s, top, rs, true, ptr, range) && IterOk(s, valid', ptr', range')
    requires forall i | i in s :: i < top
    requires if ptr == -1 then !valid' && ptr' == -1 else valid' && range'.0 == ptr
    ensures Scanned(s, top, rs + [range], valid', ptr', range')
  {
    assert range.1 in s;
    AppendRun(s, rs, range, if valid' then range'.0 else top + 2);
  }

  /** `for (auto r : bitranges(bits))`: from `begin` until the iterator equals the invalid `end` one */
  method Ranges(bits: Bitvec) returns (rs: seq<(int, int)>)
    requires bits.Valid()
    ensures forall j, k | 0 <= j < k < |rs| :: rs[j].1 + 1 < rs[k].0
    ensures forall r :: r in rs <==> MaximalRun(bits.Bits(), r)
  {
    hide BitSet, RunsBelow, MaximalRun, NoneIn;
    ghost var s, top := bits.Bits(), BITS * bits.size;
    MembersBelow(bits);
    rs := [];
    var begin := bits.FindFirstSet(0);
    var it := new RangeIter(bits, begin);
    ScanBegins(s, top, begin, it.valid, it.ptr, it.range);
    while it.valid || it.ptr != -1
      invariant it.bits == bits && bits.Bits() == s
      invariant Scanned(s, top, rs, it.valid, it.ptr, it.range)
      decreases if it.valid then top - it.range.0 else 0
    {
      ghost var before, ptr, range := rs, it.ptr, it.range;
      rs := rs + [it.range];
      it.Advance();
      ScanStep(s, top, before, ptr, range, it.valid, it.ptr, it.range);
    }
    ListsAllRuns(s, rs, top + 2);
  }
}
