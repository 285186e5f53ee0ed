/** The main results about the heap: what every run keeps, and what freeing gives back. */
module HeapRuns {
  import opened Basics
  import opened Lists
  import opened HeapSpec
  import opened HeapSafety

  // ----- adding memory -----

  /** BlAddHeapRange keeps the heap sound exactly when regions come in ascending order: with no range
      below it, a region is put first without a look at the ranges behind it. */
  lemma {:induction false} AddExact(s: State, base: Addr, size: nat)
    requires Inv(s) && RegionOk(s, base, size)
    ensures Inv(AddRange(s, base, size)) <==> Ascending(s, base, size)
  {
    var end0, base0 := WordDown(base + size), WordUp(base);
    assert W32(base + size) == base + size;
    if base0 < end0 {
      AddAtExact(s, base0, end0);
    }
  }

  lemma {:induction false} AddAtExact(s: State, base: Addr, end: Addr)
    requires Inv(s) && 0 < base < end < WORD32 && Aligned(base) && Aligned(end)
    requires forall a | base <= a < end :: CarvedHits(s.carved, a) == 0
    ensures Inv(AddAt(s, Below(s.ranges, base), base, end))
       <==> s.ranges == [] || s.ranges[0].base < base || end < s.ranges[0].base ||
            (end == s.ranges[0].base && !s.ranges[0].free) || end - base < HEADER
  {
    var p := Below(s.ranges, base);
    if p > 0 {
      AddBehind(s, p, base, end);
    } else if s.ranges == [] || end < s.ranges[0].base || (end == s.ranges[0].base && !s.ranges[0].free) {
      AddFirst(s, base, end);
    } else if end - base >= HEADER {
      AddOutOfOrder(s, base, end);
    }
  }

  lemma {:induction false} AddFirst(s: State, base: Addr, end: Addr)
    requires Inv(s) && 0 < base < end < WORD32 && Aligned(base) && Aligned(end)
    requires forall a | base <= a < end :: CarvedHits(s.carved, a) == 0
    requires s.ranges != [] ==> end < s.ranges[0].base || (end == s.ranges[0].base && !s.ranges[0].free)
    ensures Inv(AddAt(s, 0, base, end))
  {
    DonateOrDropInv(s, 0, base, end, false, false);
  }

  lemma {:induction false} AddOutOfOrder(s: State, base: Addr, end: Addr)
    requires s.ranges != [] && base + HEADER <= end
    requires end > s.ranges[0].base || (end == s.ranges[0].base && s.ranges[0].free)
    ensures !Inv(AddAt(s, 0, base, end))
  {
    var r := AddAt(s, 0, base, end).ranges;
    assert r == [Range(base, end, true)] + s.ranges;
    assert !Before(r[0], r[1]);
  }

  lemma {:induction false} AddBehind(s: State, p: nat, base: Addr, end: Addr)
    requires Inv(s) && 0 < base < end < WORD32 && Aligned(base) && Aligned(end)
    requires forall a | base <= a < end :: CarvedHits(s.carved, a) == 0
    requires 0 < p <= |s.ranges| && s.ranges[p - 1].base < base
    ensures Inv(AddAt(s, p, base, end))
  {
    var rs := s.ranges;
    var base1 := if rs[p - 1].end > base then rs[p - 1].end else base;
    var end1 := if p < |rs| && end > rs[p].base then rs[p].base else end;
    if base1 < end1 {
      var mergePrev := rs[p - 1].free && rs[p - 1].end == base1;
      var mergeNext := p < |rs| && rs[p].free && end1 == rs[p].base;
      ClampedLies(s, p, base, end, base1, end1, mergePrev, mergeNext);
      DonateOrDropInv(s, p, base1, end1, mergePrev, mergeNext);
    }
  }

  lemma {:induction false} ClampedLies(s: State, p: nat, base: Addr, end: Addr, base1: Addr, end1: Addr,
                    mergePrev: bool, mergeNext: bool)
    requires Chain(s.ranges) && 0 < p <= |s.ranges|
    requires 0 < base < end < WORD32 && Aligned(base) && Aligned(end)
    requires base1 == if s.ranges[p - 1].end > base then s.ranges[p - 1].end else base
    requires end1 == if p < |s.ranges| && end > s.ranges[p].base then s.ranges[p].base else end
    requires base1 < end1
    requires mergePrev == (s.ranges[p - 1].free && s.ranges[p - 1].end == base1)
    requires mergeNext == (p < |s.ranges| && s.ranges[p].free && end1 == s.ranges[p].base)
    ensures LiesAt(s, p, base1, end1, mergePrev, mergeNext)
  {
    assert RangeOk(s.ranges[p - 1]);
    assert p < |s.ranges| ==> RangeOk(s.ranges[p]);
  }

  /** A region added below a free range that it reaches into leaves two overlapping ranges. */
  lemma {:induction false} DescendingOverlaps(s: State)
    requires Inv(s) && s.ranges == [Range(4096, 8192, true)] && s.carved == []
    ensures AddRange(s, 1024, 4096).ranges == [Range(1024, 5120, true), Range(4096, 8192, true)]
    ensures !Inv(AddRange(s, 1024, 4096))
  {
    AddExact(s, 1024, 4096);
  }

  // ----- allocating -----

  lemma {:induction false} FirstFitFits(rs: seq<Range>, fl: seq<Addr>, size: nat, alignment: nat, headExtra: nat)
    ensures var j := FirstFit(rs, fl, size, alignment, headExtra);
            j < |fl| ==> IndexOf(rs, fl[j]) < |rs| && TryFit(rs[IndexOf(rs, fl[j])], size, alignment, headExtra).Fit?
  {
    if fl != [] {
      FirstFitFits(rs, fl[1..], size, alignment, headExtra);
    }
  }

  /** The free range an allocation takes. */
  lemma {:induction false} AllocateFinds(s: State, need: nat, alignment: nat, headExtra: nat) returns (j: nat, k: nat)
    requires Inv(s)
    requires FirstFit(s.ranges, s.free, need, alignment, headExtra) < |s.free|
    ensures j == FirstFit(s.ranges, s.free, need, alignment, headExtra)
    ensures k < |s.ranges| && k == IndexOf(s.ranges, s.free[j])
    ensures s.free[j] == s.ranges[k].base && s.ranges[k].free && TryFit(s.ranges[k], need, alignment, headExtra).Fit?
  {
    j := FirstFit(s.ranges, s.free, need, alignment, headExtra);
    FirstFitFits(s.ranges, s.free, need, alignment, headExtra);
    k := IndexOf(s.ranges, s.free[j]);
    assert s.free[j] in multiset(s.free);
    FreeBaseIsFree(s.ranges, s.free[j]);
  }

  /** An allocation takes the first range that fits, and crashes when there is none. */
  lemma {:induction false} AllocateForms(s: State, size: nat, alignment: nat, permanent: bool, need: nat, align: nat,
                      j: nat, k: nat, f: Fit)
    requires size > 0 && need == WordUp(size) && align == EffectiveAlignment(alignment)
    requires j == FirstFit(s.ranges, s.free, need, align, HeadExtra(permanent))
    requires j < |s.free| ==> k == IndexOf(s.ranges, s.free[j]) && k < |s.ranges|
    requires j < |s.free| ==> f == TryFit(s.ranges[k], need, align, HeadExtra(permanent)) && f.Fit?
    ensures j < |s.free| && SplitClear(s, size, alignment, permanent) ==> LinksClear(s.ranges[k], f)
    ensures j == |s.free| ==> Allocate(s, size, alignment, permanent).Crash?
    ensures j < |s.free| ==> Allocate(s, size, alignment, permanent) == Done(Cut(s, k, j, f, permanent), f.valueBase)
  {
  }

  lemma {:induction false} EffectiveOk(alignment: nat, align: nat)
    requires AlignmentOk(alignment) && align == EffectiveAlignment(alignment)
    ensures AlignmentOk(align) && align >= ALIGNMENT
  {
    assert IsPow2(2) && IsPow2(4);
  }

  lemma {:induction false} DoneFinds(s: State, size: nat, alignment: nat, permanent: bool, need: nat, align: nat)
    requires size > 0 && need == WordUp(size) && align == EffectiveAlignment(alignment)
    requires Allocate(s, size, alignment, permanent).Done?
    ensures FirstFit(s.ranges, s.free, need, align, HeadExtra(permanent)) < |s.free|
  {
  }

  /** A successful allocation cuts one free range, and the placement in it is sound. */
  lemma {:induction false} AllocateCuts(s: State, size: nat, alignment: nat, permanent: bool) returns (k: nat, j: nat, f: Fit)
    requires Inv(s) && SizeOk(size) && AlignmentOk(alignment) && size > 0
    requires Allocate(s, size, alignment, permanent).Done?
    ensures k < |s.ranges| && j < |s.free| && s.free[j] == s.ranges[k].base && s.ranges[k].free
    ensures f == TryFit(s.ranges[k], WordUp(size), EffectiveAlignment(alignment), HeadExtra(permanent))
    ensures Placed(s.ranges[k], f) && f.valueBase == f.allocBase + HeadExtra(permanent)
    ensures f.allocEnd == f.valueBase + WordUp(size)
    ensures AlignedTo(f.valueBase, EffectiveAlignment(alignment))
    ensures Allocate(s, size, alignment, permanent) == Done(Cut(s, k, j, f, permanent), f.valueBase)
  {
    var need, align := WordUp(size), EffectiveAlignment(alignment);
    NeedIsSize(size);
    EffectiveOk(alignment, align);
    DoneFinds(s, size, alignment, permanent, need, align);
    j, k := AllocateFinds(s, need, align, HeadExtra(permanent));
    f := TryFit(s.ranges[k], need, align, HeadExtra(permanent));
    AllocateForms(s, size, alignment, permanent, need, align, j, k, f);
    assert RangeOk(s.ranges[k]);
    TryFitSound(s.ranges[k], need, align, permanent);
  }

  lemma {:induction false} NeedIsSize(size: nat)
    requires SizeOk(size)
    ensures size > 0 ==> NeedOk(WordUp(size))
  {
  }

  lemma {:induction false} AllocateInv(s: State, size: nat, alignment: nat, permanent: bool)
    requires Inv(s) && SizeOk(size) && AlignmentOk(alignment)
    requires Allocate(s, size, alignment, permanent).Done?
    ensures Inv(Allocate(s, size, alignment, permanent).s)
  {
    if size > 0 {
      var k, j, f := AllocateCuts(s, size, alignment, permanent);
      CutInv(s, k, j, f, permanent);
    }
  }

  // ----- freeing and resizing -----

  lemma {:induction false} FreeInv(s: State, ptr: Addr)
    requires Inv(s)
    ensures Inv(Free(s, ptr))
  {
    if Live(s, ptr) {
      FreeRangeInv(s, IndexOf(s.ranges, ptr - HEADER));
    }
  }

  /** Whether a resize leaves the block where it is. */
  predicate StaysInPlace(s: State, k: nat, need: nat)
    requires k < |s.ranges|
  {
    s.ranges[k].base + HEADER + need <= s.ranges[k].end || MergesNext(s.ranges, k)
  }

  /** Resizing in place keeps the heap sound exactly when the block shrinks by less than a header or
      the free range behind it is large enough. */
  lemma {:induction false} ResizeInPlaceExact(s: State, k: nat, need: nat, alignment: nat)
    requires Inv(s) && NeedOk(need) && k < |s.ranges| && !s.ranges[k].free && StaysInPlace(s, k, need)
    ensures ResizeBlock(s, k, need, alignment).Done?
    ensures Inv(ResizeBlock(s, k, need, alignment).s) <==> FitsInPlace(s, k, need)
  {
    if s.ranges[k].base + HEADER + need <= s.ranges[k].end {
      ShrinksExact(s, k, need, alignment);
    } else {
      GrowsExact(s, k, need, alignment);
    }
  }

  lemma {:induction false} ShrinksExact(s: State, k: nat, need: nat, alignment: nat)
    requires Inv(s) && k < |s.ranges| && !s.ranges[k].free
    requires s.ranges[k].base + HEADER + need <= s.ranges[k].end
    ensures ResizeBlock(s, k, need, alignment).Done?
    ensures Inv(ResizeBlock(s, k, need, alignment).s) <==> FitsInPlace(s, k, need)
  {
    ShrinkExact(s, k, s.ranges[k].end - s.ranges[k].base - HEADER - need);
  }

  lemma {:induction false} ResizeBlockGrows(s: State, k: nat, need: nat, alignment: nat, ptr: Addr, newEnd: Addr)
    requires k < |s.ranges| && ptr == s.ranges[k].base + HEADER && newEnd == W32(ptr + need)
    requires ptr + need > s.ranges[k].end && MergesNext(s.ranges, k)
    ensures ResizeBlock(s, k, need, alignment) == Done(Grow(s, k, newEnd), ptr)
  {
  }

  lemma {:induction false} FitsGrown(s: State, k: nat, need: nat, newEnd: Addr)
    requires k < |s.ranges| && MergesNext(s.ranges, k)
    requires newEnd == s.ranges[k].base + HEADER + need && newEnd > s.ranges[k].end
    ensures FitsInPlace(s, k, need) <==> newEnd <= s.ranges[k + 1].end
  {
  }

  lemma {:induction false} BlockEndOk(r: Range, need: nat, ptr: Addr, newEnd: Addr)
    requires RangeOk(r) && NeedOk(need) && ptr == r.base + HEADER && newEnd == ptr + need
    ensures Aligned(newEnd) && newEnd < WORD32 + r.base
  {
  }

  lemma {:induction false} GrowsExact(s: State, k: nat, need: nat, alignment: nat)
    requires Inv(s) && NeedOk(need) && k < |s.ranges| && !s.ranges[k].free && MergesNext(s.ranges, k)
    requires s.ranges[k].base + HEADER + need > s.ranges[k].end
    ensures ResizeBlock(s, k, need, alignment).Done?
    ensures Inv(ResizeBlock(s, k, need, alignment).s) <==> FitsInPlace(s, k, need)
  {
    var ptr := s.ranges[k].base + HEADER;
    var newEnd := ptr + need;
    var wrapped := W32(newEnd);
    assert RangeOk(s.ranges[k]);
    BlockEndOk(s.ranges[k], need, ptr, newEnd);
    GrowExact(s, k, newEnd);
    ResizeBlockGrows(s, k, need, alignment, ptr, wrapped);
    FitsGrown(s, k, need, newEnd);
  }

  lemma {:induction false} ResizeInv(s: State, ptr: Addr, size: nat, alignment: nat)
    requires Inv(s) && Legal(s, ResizeHeap(ptr, size, alignment))
    requires Resize(s, ptr, size, alignment).Done?
    ensures Inv(Resize(s, ptr, size, alignment).s)
  {
    if ptr == 0 {
      AllocateInv(s, size, alignment, false);
    } else if size == 0 {
      FreeInv(s, ptr);
    } else {
      NeedIsSize(size);
      ResizeBlockInv(s, IndexOf(s.ranges, ptr - HEADER), WordUp(size), alignment);
    }
  }

  lemma {:induction false} ResizeBlockInv(s: State, k: nat, need: nat, alignment: nat)
    requires Inv(s) && NeedOk(need) && AlignmentOk(alignment) && k < |s.ranges| && !s.ranges[k].free
    requires FitsInPlace(s, k, need) && ResizeBlock(s, k, need, alignment).Done?
    ensures Inv(ResizeBlock(s, k, need, alignment).s)
  {
    if StaysInPlace(s, k, need) {
      ResizeInPlaceExact(s, k, need, alignment);
    } else {
      AllocateInv(s, need, alignment, false);
      FreeInv(Allocate(s, need, alignment, false).s, s.ranges[k].base + HEADER);
    }
  }

  // ----- runs -----

  lemma {:induction false} StepInv(s: State, req: Request)
    requires Inv(s) && Legal(s, req) && Step(s, req).Done?
    ensures Inv(Step(s, req).s)
  {
    match req
    case AddHeapRange(base, size) => AddExact(s, base, size);
    case AllocateHeap(size, alignment, permanent) => AllocateInv(s, size, alignment, permanent);
    case ResizeHeap(ptr, size, alignment) => ResizeInv(s, ptr, size, alignment);
    case FreeHeap(ptr) => FreeInv(s, ptr);
  }

  /** The heap is sound after every run of legal requests. */
  lemma {:induction false} RunInv(s: State, reqs: seq<Request>, s': State)
    requires Inv(s) && Run(s, reqs, s')
    ensures Inv(s')
    decreases |reqs|
  {
    if reqs != [] {
      StepInv(s, reqs[0]);
      RunInv(Step(s, reqs[0]).s, reqs[1..], s');
    }
  }
}
