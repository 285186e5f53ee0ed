/** Inputs with which bootloader/memory.c leaves a heap that is not sound, and where the border lies. */
module HeapLimits {
  import opened Basics
  import opened Lists
  import opened HeapSpec
  import opened HeapSafety
  import opened HeapMemory
  import opened HeapRuns
  import opened HeapTheorems
  import opened HeapHeaders
  import opened HeapCut

  // ----- resizing in place -----

  lemma {:induction false} ResizeOfBlock(s: State, ptr: Addr, size: nat, alignment: nat, k: nat, need: nat)
    requires ptr >= HEADER && size > 0 && need == WordUp(size)
    requires k == IndexOf(s.ranges, ptr - HEADER) && k < |s.ranges| && !s.ranges[k].free
    ensures Resize(s, ptr, size, alignment) == ResizeBlock(s, k, need, alignment)
  {
  }

  lemma {:induction false} ShrinkForm(s: State, k: nat, need: nat, alignment: nat, ptr: Addr, extra: nat)
    requires k < |s.ranges| && ptr == s.ranges[k].base + HEADER && ptr + need + extra == s.ranges[k].end && extra >= HEADER
    ensures var r := ResizeBlock(s, k, need, alignment);
            && r.Done? && r.s.free == [s.ranges[k].end] + s.free
            && r.s.ranges == Splice(s.ranges, k, k + 1, [s.ranges[k].(end := ptr + need), Range(ptr + need + extra, ptr + need + extra, true)])
  {
  }

  lemma {:induction false} ShrinkLands(s: State, size: nat, alignment: nat)
    requires s.ranges == [Range(4096, 8192, false)] && size == 64
    ensures Resize(s, 4120, size, alignment) == ResizeBlock(s, 0, size, alignment)
    ensures var r := ResizeBlock(s, 0, size, alignment);
            r.Done? && r.s.ranges == [Range(4096, 4184, false), Range(8192, 8192, true)] && r.s.free == [8192] + s.free
  {
    ResizeOfBlock(s, 4120, size, alignment, 0, size);
    ShrinkForm(s, 0, size, alignment, 4120, 4008);
  }

  /** A block of a page that is shrunk to 64 bytes: the new header is put behind the block, in memory that is not the
      heap's, and the bytes that were given up are in no range any more. */
  lemma {:induction false} ShrinkBreaks(s: State, alignment: nat)
    requires Inv(s) && s.ranges == [Range(4096, 8192, false)]
    ensures var r := Resize(s, 4120, 64, alignment);
            && r.Done? && r.s.ranges == [Range(4096, 4184, false), Range(8192, 8192, true)] && r.s.free == [8192] + s.free
            && !Inv(r.s)
  {
    ShrinkLands(s, 64, alignment);
    ResizeInPlaceExact(s, 0, 64, alignment);
  }

  lemma {:induction false} GrowForm(s: State, k: nat, need: nat, alignment: nat, ptr: Addr, newEnd: Addr)
    requires k + 1 < |s.ranges| && ptr == s.ranges[k].base + HEADER && newEnd == ptr + need < WORD32
    requires MergesNext(s.ranges, k) && s.ranges[k].end < newEnd && s.ranges[k + 1].end < newEnd
    requires newEnd + HEADER <= WORD32 + s.ranges[k + 1].end
    ensures var r := ResizeBlock(s, k, need, alignment);
            && r.Done? && r.s.free == [newEnd] + Without(s.free, s.ranges[k + 1].base)
            && r.s.ranges == Splice(s.ranges, k, k + 2, [s.ranges[k].(end := newEnd)] + [Range(newEnd, s.ranges[k + 1].end, true)])
  {
    var next := s.ranges[k + 1];
    assert W32(next.end - newEnd) == next.end - newEnd + WORD32;
    assert Rest(next, newEnd) == [Range(newEnd, next.end, true)];
    ResizeBlockGrows(s, k, need, alignment, ptr, newEnd);
    OneFreeBase(Range(newEnd, next.end, true));
  }

  lemma {:induction false} BothReplaced(rs: seq<Range>, mid: seq<Range>)
    requires |rs| == 2
    ensures Splice(rs, 0, 2, mid) == mid
  {
  }

  lemma {:induction false} WithoutOnly(a: Addr)
    ensures Without([a], a) == []
  {
  }

  lemma {:induction false} GrowLands(s: State, block: Range, next: Range, need: nat, alignment: nat, ptr: Addr, newEnd: Addr)
    requires s.ranges == [block, next] && s.free == [next.base] && MergesNext(s.ranges, 0)
    requires ptr == block.base + HEADER && newEnd == ptr + need && block.end < newEnd && next.end < newEnd < 0x1_0000
    ensures var r := ResizeBlock(s, 0, need, alignment);
            r.Done? && r.s.ranges == [block.(end := newEnd)] + [Range(newEnd, next.end, true)] && r.s.free == [newEnd]
  {
    GrowForm(s, 0, need, alignment, ptr, newEnd);
    BothReplaced(s.ranges, [block.(end := newEnd)] + [Range(newEnd, next.end, true)]);
    WithoutOnly(next.base);
  }

  /** A block that is grown past the end of the free range behind it: it ends beyond that range, and what is left of the
      range would end before it starts. */
  lemma {:induction false} GrowBreaks(s: State, size: nat, alignment: nat)
    requires Inv(s) && s.ranges == [Range(4096, 4128, false)] + [Range(4128, 4160, true)] && s.free == [4128] && size == 100
    ensures Resize(s, 4120, size, alignment).Done?
    ensures var s' := Resize(s, 4120, size, alignment).s;
            s'.ranges == [Range(4096, 4220, false)] + [Range(4220, 4160, true)] && s'.free == [4220] && !Inv(s')
  {
    var block, next, ptr, k, newEnd := s.ranges[0], s.ranges[1], 4120, 0, 4220;
    ResizeOfBlock(s, ptr, size, alignment, k, size);
    GrowLands(s, block, next, size, alignment, ptr, newEnd);
    ResizeInPlaceExact(s, k, size, alignment);
  }

  // ----- small permanent blocks -----

  /** BL_PAGE_SIZE, the alignment of an initrd. */
  const PAGE := 4096

  lemma {:induction false} SplitClearIs(s: State, size: nat, alignment: nat, permanent: bool, need: nat, align: nat,
                                        j: nat, k: nat, f: Fit)
    requires need == WordUp(size) && align == EffectiveAlignment(alignment)
    requires j == FirstFit(s.ranges, s.free, need, align, HeadExtra(permanent)) && j < |s.free|
    requires k == IndexOf(s.ranges, s.free[j]) && k < |s.ranges|
    requires f == TryFit(s.ranges[k], need, align, HeadExtra(permanent)) && f.Fit?
    ensures SplitClear(s, size, alignment, permanent) <==> LinksClear(s.ranges[k], f)
  {
  }

  lemma {:induction false} FitFound(s: State, need: nat, align: nat, permanent: bool) returns (j: nat, k: nat, f: Fit)
    requires Inv(s) && NeedOk(need) && AlignmentOk(align) && align >= ALIGNMENT
    requires FirstFit(s.ranges, s.free, need, align, HeadExtra(permanent)) < |s.free|
    ensures j == FirstFit(s.ranges, s.free, need, align, HeadExtra(permanent)) && j < |s.free|
    ensures k == IndexOf(s.ranges, s.free[j]) && k < |s.ranges| && s.free[j] == s.ranges[k].base && s.ranges[k].free
    ensures Placed(s.ranges[k], f) && (!permanent ==> f.allocBase + HEADER <= f.allocEnd)
    ensures f == TryFit(s.ranges[k], need, align, HeadExtra(permanent))
  {
    j, k := AllocateFinds(s, need, align, HeadExtra(permanent));
    f := TryFit(s.ranges[k], need, align, HeadExtra(permanent));
    TryFitSound(s.ranges[k], need, align, permanent);
  }

  lemma {:induction false} AllocateFound(s: State, size: nat, alignment: nat, permanent: bool, need: nat, align: nat)
    requires size > 0 && need == WordUp(size) && align == EffectiveAlignment(alignment)
    requires Allocate(s, size, alignment, permanent).Done?
    ensures FirstFit(s.ranges, s.free, need, align, HeadExtra(permanent)) < |s.free|
  {
  }

  /** The writes of an allocation that finds a range leave the lists that they should if and only if the header split
      off behind the block does not reach into the links of the range that is being cut. */
  lemma {:induction false} SplitExact(t: Threads, s: State, size: nat, alignment: nat, permanent: bool)
    returns (k: nat, j: nat, f: Fit, cut: State)
    requires Inv(s) && Represents(t, s.ranges, s.free) && SizeOk(size) && AlignmentOk(alignment) && size > 0
    requires Allocate(s, size, alignment, permanent).Done?
    ensures k < |s.ranges| && j < |s.free| && f.Fit? && cut == Cut(s, k, j, f, permanent)
    ensures Allocate(s, size, alignment, permanent) == Done(cut, f.valueBase)
    ensures Represents(CutWrites(t, s.ranges[k], f, permanent), cut.ranges, cut.free) <==> SplitClear(s, size, alignment, permanent)
  {
    var need, align := WordUp(size), EffectiveAlignment(alignment);
    NeedIsSize(size);
    AllocateFound(s, size, alignment, permanent, need, align);
    j, k, f := FitFound(s, need, align, permanent);
    AllocateForms(s, size, alignment, permanent, need, align, j, k, f);
    SplitClearIs(s, size, alignment, permanent, need, align, j, k, f);
    cut := Cut(s, k, j, f, permanent);
    CutExact(t, CutWrites(t, s.ranges[k], f, permanent), s, cut, k, j, s.ranges[k], f, permanent);
  }

  lemma {:induction false} LargeFitClear(r: Range, need: nat, align: nat, permanent: bool)
    requires RangeOk(r) && NeedOk(need) && need >= LINKS && AlignmentOk(align) && align >= ALIGNMENT
    ensures var f := TryFit(r, need, align, HeadExtra(permanent)); f.Fit? ==> LinksClear(r, f)
  {
    if TryFit(r, need, align, HeadExtra(permanent)).Fit? {
      TryFitSound(r, need, align, permanent);
    }
  }

  /** Requests that are at least as long as the links are always clear. */
  lemma {:induction false} LargeIsClear(s: State, size: nat, alignment: nat, permanent: bool)
    requires Inv(s) && SizeOk(size) && AlignmentOk(alignment) && size > LINKS - ALIGNMENT
    ensures SplitClear(s, size, alignment, permanent)
  {
    var need, align := WordUp(size), EffectiveAlignment(alignment);
    NeedIsSize(size);
    var j := FirstFit(s.ranges, s.free, need, align, HeadExtra(permanent));
    if j < |s.free| {
      var k := IndexOf(s.ranges, s.free[j]);
      if k < |s.ranges| {
        assert RangeOk(s.ranges[k]);
        LargeFitClear(s.ranges[k], need, align, permanent);
      }
    }
  }

  /** A permanent block of 4 bytes, where the only range is free, from 4096 to 8192: the new header starts in the second
      word of the old one. Both lists still start at the old header, and both have become circles: a traversal of
      either goes from 4104 to 4108 and back, for ever. */
  lemma {:induction false} SmallPermanentCircles(t: Threads, s: State, alignment: nat)
    requires Inv(s) && s.ranges == [Range(4096, 8192, true)] && s.free == [4096] && Represents(t, s.ranges, s.free)
    requires alignment >= ALIGNMENT && AlignUp(4096, alignment) == 4096
    ensures Allocate(s, 4, alignment, true) == Done(Cut(s, 0, 0, Fit(4096, 4096, 4100), true), 4096)
    ensures !SplitClear(s, 4, alignment, true)
    ensures var t' := CutWrites(t, s.ranges[0], Fit(4096, 4096, 4100), true);
            && t'.fl.head == 4104 && Load(t'.m, 4104 + NEXT) == 4108 && Load(t'.m, 4108 + NEXT) == 4104
            && t'.rl.head == 4096 && Load(t'.m, 4096 + NEXT) == 4100 && Load(t'.m, 4100 + NEXT) == 4108
  {
    SmallFits(s, 4, alignment, true, 4096);
    assert Linked(t.m, Bases(s.ranges), 0) && Linked(t.m, FreeNodes(s.free), 0);
    SmallWrites(t);
  }

  lemma {:induction false} SmallFits(s: State, size: nat, alignment: nat, permanent: bool, x: nat)
    requires s.ranges == [Range(4096, 8192, true)] && s.free == [4096] && size == 4 && permanent
    requires alignment >= ALIGNMENT && AlignUp(x, alignment) == x && x == 4096
    ensures Allocate(s, size, alignment, permanent) == Done(Cut(s, 0, 0, Fit(4096, 4096, 4100), permanent), 4096)
    ensures !SplitClear(s, size, alignment, permanent)
  {
    var need, align, j, k, f := WordUp(size), EffectiveAlignment(alignment), 0, 0, Fit(4096, 4096, 4100);
    FitHere(s.ranges[0], need, align, HeadExtra(permanent), x, x);
    SmallFitAt(s.ranges[0], x, need, HeadExtra(permanent));
    assert k == IndexOf(s.ranges, s.free[j]) && f == TryFit(s.ranges[k], need, align, HeadExtra(permanent));
    assert j == FirstFit(s.ranges, s.free, need, align, HeadExtra(permanent));
    AllocateForms(s, size, alignment, permanent, need, align, j, k, f);
    SplitClearIs(s, size, alignment, permanent, need, align, j, k, f);
  }

  lemma {:induction false} SecondPage(v: nat)
    requires v % 4096 == 0 && v <= 8191 < v + 4096
    ensures v == 4096
  {
  }

  lemma {:induction false} PageDown(y: nat, z: nat)
    requires IsPow2(y) && y == 4096 && z == 8191
    ensures AlignDown(z, y) == 4096
  {
    var v := AlignDown(z, y);
    AlignDownFacts(z, y);
    AlignedToIsMultiple(v, y);
    assert v % 4096 == 0;
    SecondPage(v);
  }

  /** That is so for the alignment of an initrd. */
  lemma {:induction false} PageStays(x: nat, y: nat)
    requires y == PAGE && x == 4096
    ensures AlignUp(x, y) == x
  {
    var z := x + y - 1;
    assert IsPow2(4096);
    PageDown(y, z);
  }

  lemma {:induction false} FitHere(r: Range, need: nat, align: nat, extra: nat, x: nat, v: nat)
    requires x == r.base + extra && x < WORD32 && v == AlignUp(x, align)
    ensures TryFit(r, need, align, extra) == FitAt(r, v, need, extra)
  {
    assert W32(x) == x;
  }

  lemma {:induction false} SmallFitAt(r: Range, v: nat, need: nat, extra: nat)
    requires r == Range(4096, 8192, true) && v == 4096 && need == 4 && extra == 0
    ensures FitAt(r, v, need, extra) == Fit(4096, 4096, 4100)
  {
  }

  lemma {:induction false} SmallWrites(t: Threads)
    ensures var t' := DropHeader(SplitOff(t, 4096, 4100, 8192), 4096);
            && t'.rl.head == t.rl.head && t'.fl.head == t.fl.head
            && Load(t'.m, 4096 + NEXT) == 4100 && Load(t'.m, 4100 + NEXT) == 4108
            && Load(t'.m, 4104 + NEXT) == 4108 && Load(t'.m, 4108 + NEXT) == 4104
  {
    var t2 := LinkRanges(WithHeader(t, 4100, 8192, true), 4096, 4100);
    assert Load(t2.m, 4096) == 4100 && Load(t2.m, 4100) == 4100 && Load(t2.m, 4104) == 4096 && t2.rl.head == t.rl.head;
    var t3 := LinkNodes(t2, 4104, 4108);
    assert Load(t3.m, 4096) == 4100 && Load(t3.m, 4100) == 4100 && Load(t3.m, 4104) == 4108 && t3.fl.head == t.fl.head;
    assert Load(t3.m, 4108) == 4108 && Load(t3.m, 4112) == 4104;
    var t4 := UnlinkRanges(t3, 4096);
    assert Load(t4.m, 4100) == 4100 && Load(t4.m, 4104) == 4100 && Load(t4.m, 4108) == 4108 && Load(t4.m, 4112) == 4104;
    assert t4.rl.head == t.rl.head && t4.fl.head == t.fl.head;
  }
}
