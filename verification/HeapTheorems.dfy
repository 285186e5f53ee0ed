/** What the heap invariant means to callers, and what freeing everything gives back. */
module HeapTheorems {
  import opened Basics
  import opened Lists
  import opened HeapSpec
  import opened HeapSafety
  import opened HeapRuns

  // ----- the free list -----

  lemma {:induction false} FreeBasesDistinct(rs: seq<Range>)
    requires Chain(rs)
    ensures forall i, j | 0 <= i < j < |FreeBases(rs)| :: FreeBases(rs)[i] != FreeBases(rs)[j]
  {
    if rs != [] {
      var rest := FreeBases(rs[1..]);
      FreeBasesDistinct(rs[1..]);
      forall j | 0 <= j < |rest| ensures rest[j] != rs[0].base {
        FreeBaseIsFree(rs[1..], rest[j]);
        var k := IndexOf(rs[1..], rest[j]);
        assert Before(rs[0], rs[1 + k]) && RangeOk(rs[0]);
      }
    }
  }

  lemma {:induction false} DistinctCount(xs: seq<Addr>)
    requires forall i, j | 0 <= i < j < |xs| :: xs[i] != xs[j]
    ensures forall a :: multiset(xs)[a] <= 1
  {
    if xs != [] {
      DistinctCount(xs[1..]);
      assert xs == [xs[0]] + xs[1..];
      assert xs[0] !in multiset(xs[1..]);
    }
  }

  lemma {:induction false} CountDistinct(xs: seq<Addr>, i: nat, j: nat)
    requires forall a :: multiset(xs)[a] <= 1
    requires i < j < |xs|
    ensures xs[i] != xs[j]
  {
    assert xs == xs[..i] + [xs[i]] + xs[i + 1..];
    assert xs[j] in xs[i + 1..];
    assert multiset(xs)[xs[i]] == multiset(xs[..i])[xs[i]] + 1 + multiset(xs[i + 1..])[xs[i]];
  }

  /** The free list holds exactly the headers of the free ranges, each once. */
  lemma {:induction false} FreeListExact(s: State)
    requires Inv(s)
    ensures forall i, j | 0 <= i < j < |s.free| :: s.free[i] != s.free[j]
    ensures forall k | 0 <= k < |s.ranges| :: s.ranges[k].free <==> s.ranges[k].base in s.free
    ensures forall a | a in s.free :: IndexOf(s.ranges, a) < |s.ranges| && s.ranges[IndexOf(s.ranges, a)].free
  {
    FreeBasesDistinct(s.ranges);
    DistinctCount(FreeBases(s.ranges));
    forall i, j | 0 <= i < j < |s.free| ensures s.free[i] != s.free[j] {
      CountDistinct(s.free, i, j);
    }
    forall a | a in s.free
      ensures IndexOf(s.ranges, a) < |s.ranges| && s.ranges[IndexOf(s.ranges, a)].free
    {
      assert a in multiset(s.free);
      FreeBaseIsFree(s.ranges, a);
    }
    forall k | 0 <= k < |s.ranges| ensures s.ranges[k].free <==> s.ranges[k].base in s.free {
      IndexOfChain(s.ranges, k);
      if s.ranges[k].free {
        FreeIsFreeBase(s.ranges, k);
        assert s.ranges[k].base in multiset(s.free);
      }
    }
  }

  // ----- conservation -----

  function HitsOf(rs: seq<Range>, free: bool, a: Addr): nat {
    if rs == [] then 0
    else (if rs[0].free == free then Hit(rs[0].base, rs[0].end, a) else 0) + HitsOf(rs[1..], free, a)
  }

  function CarvedHitsOf(cs: seq<Carved>, gap: bool, a: Addr): nat {
    if cs == [] then 0
    else (if cs[0].gap == gap then Hit(cs[0].lo, cs[0].hi, a) else 0) + CarvedHitsOf(cs[1..], gap, a)
  }

  lemma {:induction false} HitsByKind(rs: seq<Range>, a: Addr)
    ensures Hits(rs, a) == HitsOf(rs, true, a) + HitsOf(rs, false, a)
  {
    if rs != [] {
      HitsByKind(rs[1..], a);
    }
  }

  lemma {:induction false} CarvedHitsByKind(cs: seq<Carved>, a: Addr)
    ensures CarvedHits(cs, a) == CarvedHitsOf(cs, true, a) + CarvedHitsOf(cs, false, a)
  {
    if cs != [] {
      CarvedHitsByKind(cs[1..], a);
    }
  }

  /** Heap conservation over every run: each donated byte is in exactly one free range, live block,
      permanent block or gap smaller than a header, and no other byte is in any. */
  lemma {:induction false} EveryByteOnce(reqs: seq<Request>, s: State, a: Addr)
    requires Run(EMPTY_HEAP, reqs, s)
    ensures HitsOf(s.ranges, true, a) + HitsOf(s.ranges, false, a) +
            CarvedHitsOf(s.carved, false, a) + CarvedHitsOf(s.carved, true, a) == Owned(s.donated, a)
    ensures forall i | 0 <= i < |s.carved| && s.carved[i].gap :: s.carved[i].hi - s.carved[i].lo < HEADER
  {
    RunInv(EMPTY_HEAP, reqs, s);
    HitsByKind(s.ranges, a);
    CarvedHitsByKind(s.carved, a);
    assert Hits(s.ranges, a) + CarvedHits(s.carved, a) == Owned(s.donated, a);
    forall i | 0 <= i < |s.carved| && s.carved[i].gap ensures s.carved[i].hi - s.carved[i].lo < HEADER {
      assert CarvedOk(s.carved[i]);
    }
  }

  /** Heap safety over every run: ranges are sorted, disjoint, aligned and hold their header, no two
      free ranges touch, and the free list holds exactly the free ranges. */
  lemma {:induction false} HeapSafe(reqs: seq<Request>, s: State)
    requires Run(EMPTY_HEAP, reqs, s)
    ensures forall i | 0 <= i < |s.ranges| ::
              Aligned(s.ranges[i].base) && Aligned(s.ranges[i].end) && s.ranges[i].base + HEADER <= s.ranges[i].end
    ensures forall i, j | 0 <= i < j < |s.ranges| :: s.ranges[i].end <= s.ranges[j].base
    ensures forall i, j | 0 <= i < j < |s.ranges| && s.ranges[i].free && s.ranges[j].free ::
              s.ranges[i].end < s.ranges[j].base
    ensures forall i, j | 0 <= i < j < |s.free| :: s.free[i] != s.free[j]
    ensures forall k | 0 <= k < |s.ranges| :: s.ranges[k].free <==> s.ranges[k].base in s.free
    ensures forall a | a in s.free :: IndexOf(s.ranges, a) < |s.ranges| && s.ranges[IndexOf(s.ranges, a)].free
  {
    RunInv(EMPTY_HEAP, reqs, s);
    FreeListExact(s);
    forall i | 0 <= i < |s.ranges|
      ensures Aligned(s.ranges[i].base) && Aligned(s.ranges[i].end) && s.ranges[i].base + HEADER <= s.ranges[i].end
    {
      assert RangeOk(s.ranges[i]);
    }
    forall i, j | 0 <= i < j < |s.ranges| ensures Before(s.ranges[i], s.ranges[j]) {
    }
  }

  // ----- what an operation leaves alone -----

  /** `r` is one of the ranges. */
  predicate Has(rs: seq<Range>, r: Range) {
    IndexOf(rs, r.base) < |rs| && rs[IndexOf(rs, r.base)] == r
  }

  lemma {:induction false} HasAt(rs: seq<Range>, i: nat)
    requires Chain(rs) && i < |rs|
    ensures Has(rs, rs[i])
  {
    IndexOfChain(rs, i);
  }

  lemma {:induction false} SpliceKeeps(rs: seq<Range>, p: nat, q: nat, mid: seq<Range>, i: nat, r: seq<Range>)
    requires p <= q <= |rs| && i < |rs| && !(p <= i < q) && r == Splice(rs, p, q, mid) && Chain(r)
    ensures Has(r, rs[i])
  {
    var j := if i < p then i else i - q + p + |mid|;
    assert r[j] == rs[i];
    HasAt(r, j);
  }

  /** An allocation returns aligned memory of the requested size out of one free range. Every live
      block stays, and the new block becomes the only other change among blocks in use. */
  lemma {:induction false} AllocationIsFresh(s: State, size: nat, alignment: nat, permanent: bool)
    requires Inv(s) && SizeOk(size) && AlignmentOk(alignment) && size > 0
    requires Allocate(s, size, alignment, permanent).Done?
    ensures var ptr := Allocate(s, size, alignment, permanent).ptr;
            && ptr % EffectiveAlignment(alignment) == 0
            && (exists k :: 0 <= k < |s.ranges| && s.ranges[k].free &&
                  s.ranges[k].base + HeadExtra(permanent) <= ptr && ptr + size < s.ranges[k].end)
    ensures forall i | 0 <= i < |s.ranges| && !s.ranges[i].free ::
              Has(Allocate(s, size, alignment, permanent).s.ranges, s.ranges[i])
  {
    var k, j, f := AllocateCuts(s, size, alignment, permanent);
    NeedIsSize(size);
    CutInv(s, k, j, f, permanent);
    assert IsPow2(1) && IsPow2(2) && IsPow2(4);
    AlignedToIsMultiple(f.valueBase, EffectiveAlignment(alignment));
    forall i | 0 <= i < |s.ranges| && !s.ranges[i].free
      ensures Has(Cut(s, k, j, f, permanent).ranges, s.ranges[i])
    {
      SpliceKeeps(s.ranges, k, k + 1, Pieces(s.ranges[k], f, permanent), i, Cut(s, k, j, f, permanent).ranges);
    }
    assert s.ranges[k].free;
  }

  lemma {:induction false} CutIsLive(s: State, k: nat, j: nat, f: Fit)
    requires k < |s.ranges| && j < |s.free| && f.Fit? && Chain(Cut(s, k, j, f, false).ranges)
    ensures var s' := Cut(s, k, j, f, false);
            var i := IndexOf(s'.ranges, f.allocBase);
            i < |s'.ranges| && s'.ranges[i] == Range(f.allocBase, BlockEnd(s.ranges[k], f), false)
  {
    var rs := Cut(s, k, j, f, false).ranges;
    var i := k + |Front(s.ranges[k], f)|;
    assert rs[i] == Range(f.allocBase, BlockEnd(s.ranges[k], f), false);
    IndexOfChain(rs, i);
  }

  lemma {:induction false} AllocatedIsLive(s: State, size: nat, alignment: nat)
    requires Inv(s) && SizeOk(size) && AlignmentOk(alignment) && size > 0
    requires Allocate(s, size, alignment, false).Done?
    ensures var r := Allocate(s, size, alignment, false);
            Live(r.s, r.ptr) && r.ptr + size <= r.s.ranges[IndexOf(r.s.ranges, r.ptr - HEADER)].end
  {
    var k, j, f := AllocateCuts(s, size, alignment, false);
    AllocateInv(s, size, alignment, false);
    NeedIsSize(size);
    CutIsLive(s, k, j, f);
  }

  lemma {:induction false} FreeRangeSplices(s: State, k: nat, p: nat, q: nat, mid: seq<Range>)
    requires k < |s.ranges| && p == MergeStart(s.ranges, k) && q == MergeEnd(s.ranges, k) && mid == [Merged(s.ranges, k)]
    ensures FreeRange(s, k).ranges == Splice(s.ranges, p, q, mid)
  {
  }

  /** Freeing a block leaves every other block in use where it is. */
  lemma {:induction false} FreeKeepsOthers(s: State, k: nat, i: nat)
    requires Inv(s) && k < |s.ranges| && !s.ranges[k].free && i < |s.ranges| && i != k && !s.ranges[i].free
    ensures Has(FreeRange(s, k).ranges, s.ranges[i])
  {
    var rs := s.ranges;
    FreeRangeInv(s, k);
    var p, q := MergeStart(rs, k), MergeEnd(rs, k);
    FreeRangeSplices(s, k, p, q, [Merged(rs, k)]);
    assert i != k && (i == k - 1 ==> !MergesPrev(rs, k)) && (i == k + 1 ==> !MergesNext(rs, k));
    SpliceKeeps(rs, p, q, [Merged(rs, k)], i, FreeRange(s, k).ranges);
  }

  /** The block `r` is still among the ranges, unless it is the one at `ptr`. */
  predicate StillThere(r: Range, rs: seq<Range>, ptr: Addr) {
    r.base + HEADER == ptr || Has(rs, r)
  }

  /** Every block in use stays where it is, except the one at `ptr`. */
  ghost predicate Leaves(rs: seq<Range>, rs': seq<Range>, ptr: Addr) {
    forall i {:trigger StillThere(rs[i], rs', ptr)} | 0 <= i < |rs| && !rs[i].free :: StillThere(rs[i], rs', ptr)
  }

  lemma {:induction false} SameLeaves(rs: seq<Range>, ptr: Addr)
    requires Chain(rs)
    ensures Leaves(rs, rs, ptr)
  {
    forall i | 0 <= i < |rs| ensures StillThere(rs[i], rs, ptr) {
      HasAt(rs, i);
    }
  }

  lemma {:induction false} LeavesTrans(rs: seq<Range>, rs1: seq<Range>, rs2: seq<Range>, ptr: Addr)
    requires Leaves(rs, rs1, 0) && Leaves(rs1, rs2, ptr)
    ensures Leaves(rs, rs2, ptr)
  {
    forall i | 0 <= i < |rs| && !rs[i].free ensures StillThere(rs[i], rs2, ptr) {
      assert StillThere(rs[i], rs1, 0);
      var j := IndexOf(rs1, rs[i].base);
      assert StillThere(rs1[j], rs2, ptr);
    }
  }

  /** A splice that replaces free ranges, and at most the block at `ptr`, leaves all other blocks. */
  lemma {:induction false} SpliceLeaves(rs: seq<Range>, p: nat, q: nat, mid: seq<Range>, r: seq<Range>, ptr: Addr)
    requires p <= q <= |rs| && r == Splice(rs, p, q, mid) && Chain(r)
    requires forall i | p <= i < q :: rs[i].free || rs[i].base + HEADER == ptr
    ensures Leaves(rs, r, ptr)
  {
    forall i | 0 <= i < |rs| && !rs[i].free ensures StillThere(rs[i], r, ptr) {
      if i < p || q <= i {
        SpliceKeeps(rs, p, q, mid, i, r);
      }
    }
  }

  lemma {:induction false} DonateLeaves(s: State, p: nat, base: Addr, end: Addr, mergePrev: bool, mergeNext: bool)
    requires p <= |s.ranges| && (mergePrev ==> p > 0 && s.ranges[p - 1].free) && base < end
    requires (mergeNext ==> p < |s.ranges| && s.ranges[p].free)
    requires Chain(s.ranges) && Chain(Donate(s, p, base, end, mergePrev, mergeNext).ranges)
    ensures Leaves(s.ranges, Donate(s, p, base, end, mergePrev, mergeNext).ranges, 0)
  {
    if !mergePrev && !mergeNext && end - base < HEADER {
      SameLeaves(s.ranges, 0);
    } else {
      SpliceLeaves(s.ranges, DonateStart(p, mergePrev), DonateEnd(p, mergeNext),
                   [DonatedRange(s.ranges, p, base, end, mergePrev, mergeNext)],
                   Donate(s, p, base, end, mergePrev, mergeNext).ranges, 0);
    }
  }

  /** Adding memory leaves every block in use where it is. */
  lemma {:induction false} AddLeaves(s: State, base: Addr, size: nat)
    requires Chain(s.ranges) && Chain(AddRange(s, base, size).ranges)
    ensures Leaves(s.ranges, AddRange(s, base, size).ranges, 0)
  {
    var rs, end0, base0 := s.ranges, WordDown(W32(base + size)), WordUp(base);
    var p := Below(rs, base0);
    var hasNext := 0 < p < |rs|;
    var base1 := if p > 0 && rs[p - 1].end > base0 then rs[p - 1].end else base0;
    var end1 := if hasNext && end0 > rs[p].base then rs[p].base else end0;
    if base0 >= end0 || base1 >= end1 {
      SameLeaves(rs, 0);
    } else {
      DonateLeaves(s, p, base1, end1, p > 0 && rs[p - 1].free && rs[p - 1].end == base1,
                   hasNext && rs[p].free && end1 == rs[p].base);
    }
  }

  lemma {:induction false} AllocateLeaves(s: State, size: nat, alignment: nat, permanent: bool)
    requires Inv(s) && SizeOk(size) && AlignmentOk(alignment)
    requires Allocate(s, size, alignment, permanent).Done?
    ensures Leaves(s.ranges, Allocate(s, size, alignment, permanent).s.ranges, 0)
  {
    if size == 0 {
      SameLeaves(s.ranges, 0);
    } else {
      AllocationIsFresh(s, size, alignment, permanent);
    }
  }

  lemma {:induction false} FreeLeaves(s: State, ptr: Addr)
    requires Inv(s)
    ensures Leaves(s.ranges, Free(s, ptr).ranges, ptr)
  {
    if Live(s, ptr) {
      var k := IndexOf(s.ranges, ptr - HEADER);
      forall i | 0 <= i < |s.ranges| && !s.ranges[i].free ensures StillThere(s.ranges[i], FreeRange(s, k).ranges, ptr) {
        if i != k {
          FreeKeepsOthers(s, k, i);
        }
      }
    } else {
      SameLeaves(s.ranges, ptr);
    }
  }

  /** Growing a block into the free range behind it leaves every other block. */
  lemma {:induction false} GrowLeaves(s: State, k: nat, newEnd: Addr, ptr: Addr)
    requires k + 1 < |s.ranges| && s.ranges[k + 1].free && ptr == s.ranges[k].base + HEADER
    requires Chain(Grow(s, k, newEnd).ranges)
    ensures Leaves(s.ranges, Grow(s, k, newEnd).ranges, ptr)
  {
    var next := s.ranges[k + 1];
    SpliceLeaves(s.ranges, k, k + 2, [Grown(s.ranges[k], next, newEnd)] + Rest(next, newEnd),
                 Grow(s, k, newEnd).ranges, ptr);
  }

  lemma {:induction false} MoveLeaves(s: State, need: nat, alignment: nat, ptr: Addr)
    requires Inv(s) && NeedOk(need) && AlignmentOk(alignment) && Allocate(s, need, alignment, false).Done?
    ensures Leaves(s.ranges, Free(Allocate(s, need, alignment, false).s, ptr).ranges, ptr)
  {
    var s1 := Allocate(s, need, alignment, false).s;
    AllocateLeaves(s, need, alignment, false);
    AllocateInv(s, need, alignment, false);
    FreeLeaves(s1, ptr);
    LeavesTrans(s.ranges, s1.ranges, Free(s1, ptr).ranges, ptr);
  }

  lemma {:induction false} ResizeBlockLeaves(s: State, k: nat, need: nat, alignment: nat, ptr: Addr)
    requires Inv(s) && NeedOk(need) && AlignmentOk(alignment) && k < |s.ranges| && !s.ranges[k].free
    requires FitsInPlace(s, k, need) && ResizeBlock(s, k, need, alignment).Done? && ptr == s.ranges[k].base + HEADER
    ensures Leaves(s.ranges, ResizeBlock(s, k, need, alignment).s.ranges, ptr)
  {
    ResizeBlockInv(s, k, need, alignment);
    if ptr + need <= s.ranges[k].end {
      SameLeaves(s.ranges, ptr);
    } else if MergesNext(s.ranges, k) {
      var newEnd := W32(ptr + need);
      ResizeBlockGrows(s, k, need, alignment, ptr, newEnd);
      GrowLeaves(s, k, newEnd, ptr);
    } else {
      MoveLeaves(s, need, alignment, ptr);
    }
  }

  lemma {:induction false} ResizeLeaves(s: State, ptr: Addr, size: nat, alignment: nat)
    requires Inv(s) && Legal(s, ResizeHeap(ptr, size, alignment)) && Resize(s, ptr, size, alignment).Done?
    ensures Leaves(s.ranges, Resize(s, ptr, size, alignment).s.ranges, ptr)
  {
    if ptr == 0 {
      AllocateLeaves(s, size, alignment, false);
    } else if size == 0 {
      FreeLeaves(s, ptr);
    } else {
      NeedIsSize(size);
      ResizeBlockLeaves(s, IndexOf(s.ranges, ptr - HEADER), WordUp(size), alignment, ptr);
    }
  }

  /** Every block in use that a request does not name stays where it is. */
  lemma {:induction false} StepLeaves(s: State, req: Request)
    requires Inv(s) && Legal(s, req) && Step(s, req).Done?
    ensures Leaves(s.ranges, Step(s, req).s.ranges, Named(req))
  {
    StepInv(s, req);
    match req
    case AddHeapRange(base, size) => AddLeaves(s, base, size);
    case AllocateHeap(size, alignment, permanent) => AllocateLeaves(s, size, alignment, permanent);
    case ResizeHeap(ptr, size, alignment) => ResizeLeaves(s, ptr, size, alignment);
    case FreeHeap(ptr) => FreeLeaves(s, ptr);
  }

  /** Memory is only ever donated, and what was carved out stays carved out. */
  predicate LedgerGrows(s: State, s': State) {
    s.carved <= s'.carved && s.donated <= s'.donated
  }

  lemma {:induction false} AllocateLedger(s: State, size: nat, alignment: nat, permanent: bool)
    requires Allocate(s, size, alignment, permanent).Done?
    ensures LedgerGrows(s, Allocate(s, size, alignment, permanent).s)
  {
  }

  lemma {:induction false} FreeLedger(s: State, ptr: Addr)
    ensures LedgerGrows(s, Free(s, ptr))
  {
  }

  lemma {:induction false} ResizeBlockLedger(s: State, k: nat, need: nat, alignment: nat)
    requires k < |s.ranges| && ResizeBlock(s, k, need, alignment).Done?
    ensures LedgerGrows(s, ResizeBlock(s, k, need, alignment).s)
  {
    var moved := Allocate(s, need, alignment, false);
    if moved.Done? {
      AllocateLedger(s, need, alignment, false);
      FreeLedger(moved.s, s.ranges[k].base + HEADER);
    }
  }

  lemma {:induction false} ResizeLedger(s: State, ptr: Addr, size: nat, alignment: nat)
    requires Resize(s, ptr, size, alignment).Done?
    ensures LedgerGrows(s, Resize(s, ptr, size, alignment).s)
  {
    if ptr == 0 {
      AllocateLedger(s, size, alignment, false);
    } else if size == 0 {
      FreeLedger(s, ptr);
    } else {
      ResizeBlockLedger(s, IndexOf(s.ranges, ptr - HEADER), WordUp(size), alignment);
    }
  }

  lemma {:induction false} StepLedger(s: State, req: Request)
    requires Step(s, req).Done?
    ensures LedgerGrows(s, Step(s, req).s)
  {
    match req
    case AddHeapRange(base, size) =>
    case AllocateHeap(size, alignment, permanent) => AllocateLedger(s, size, alignment, permanent);
    case ResizeHeap(ptr, size, alignment) => ResizeLedger(s, ptr, size, alignment);
    case FreeHeap(ptr) => FreeLedger(s, ptr);
  }

  // ----- freeing everything -----

  ghost predicate AllFree(rs: seq<Range>) {
    forall i | 0 <= i < |rs| :: rs[i].free
  }

  lemma {:induction false} NoHitsBelow(rs: seq<Range>, a: Addr)
    requires Chain(rs) && (rs == [] || a < rs[0].base)
    ensures Hits(rs, a) == 0
  {
    forall i | 0 <= i < |rs| ensures !(rs[i].base <= a < rs[i].end) {
      assert i > 0 ==> Before(rs[0], rs[i]) && RangeOk(rs[0]);
    }
    NoHits(rs, a);
  }

  lemma {:induction false} FirstRange(rs: seq<Range>, a: Addr)
    requires Chain(rs) && AllFree(rs) && rs != [] && a <= rs[0].end
    ensures Hits(rs, a) == Hit(rs[0].base, rs[0].end, a)
  {
    var rest := rs[1..];
    assert rest != [] ==> Before(rs[0], rs[1]) && rest[0] == rs[1];
    assert Chain(rest);
    NoHitsBelow(rest, a);
  }

  /** Free ranges that never touch are determined by the bytes they cover. */
  lemma {:induction false} MaximalRangesUnique(xs: seq<Range>, ys: seq<Range>)
    requires Chain(xs) && Chain(ys) && AllFree(xs) && AllFree(ys)
    requires forall a: Addr :: Hits(xs, a) == Hits(ys, a)
    ensures xs == ys
  {
    BothEmpty(xs, ys);
    if xs != [] {
      SameFirst(xs, ys);
      forall a: Addr ensures Hits(xs[1..], a) == Hits(ys[1..], a) {
        assert Hits(xs, a) == Hits(ys, a);
      }
      MaximalRangesUnique(xs[1..], ys[1..]);
      assert xs == [xs[0]] + xs[1..] && ys == [ys[0]] + ys[1..];
    }
  }

  lemma {:induction false} StartsCovered(rs: seq<Range>)
    requires Chain(rs) && AllFree(rs) && rs != []
    ensures Hits(rs, rs[0].base) == 1
  {
    assert RangeOk(rs[0]);
    FirstRange(rs, rs[0].base);
  }

  lemma {:induction false} BothEmpty(xs: seq<Range>, ys: seq<Range>)
    requires Chain(xs) && Chain(ys) && AllFree(xs) && AllFree(ys)
    requires forall a: Addr :: Hits(xs, a) == Hits(ys, a)
    ensures xs == [] <==> ys == []
  {
    if xs != [] {
      StartsCovered(xs);
    }
    if ys != [] {
      StartsCovered(ys);
    }
  }

  lemma {:induction false} SameFirst(xs: seq<Range>, ys: seq<Range>)
    requires Chain(xs) && Chain(ys) && AllFree(xs) && AllFree(ys) && xs != [] && ys != []
    requires forall a: Addr :: Hits(xs, a) == Hits(ys, a)
    ensures xs[0] == ys[0]
  {
    assert RangeOk(xs[0]) && RangeOk(ys[0]);
    StartsNoLater(xs, ys);
    StartsNoLater(ys, xs);
    EndsNoLater(xs, ys);
    EndsNoLater(ys, xs);
  }

  lemma {:induction false} StartsNoLater(xs: seq<Range>, ys: seq<Range>)
    requires Chain(xs) && Chain(ys) && AllFree(xs) && AllFree(ys) && xs != [] && ys != []
    requires forall a: Addr :: Hits(xs, a) == Hits(ys, a)
    ensures ys[0].base <= xs[0].base
  {
    var a := xs[0].base;
    assert RangeOk(xs[0]);
    FirstRange(xs, a);
    assert Hits(ys, a) == 1;
    if a < ys[0].base {
      NoHitsBelow(ys, a);
    }
  }

  lemma {:induction false} EndsNoLater(xs: seq<Range>, ys: seq<Range>)
    requires Chain(xs) && Chain(ys) && AllFree(xs) && AllFree(ys) && xs != [] && ys != []
    requires xs[0].base == ys[0].base
    requires forall a: Addr :: Hits(xs, a) == Hits(ys, a)
    ensures ys[0].end <= xs[0].end
  {
    var a := xs[0].end;
    assert RangeOk(xs[0]);
    FirstRange(xs, a);
    assert Hits(ys, a) == 0;
    if a < ys[0].end {
      FirstRange(ys, a);
    }
  }

  /** No memory is carved out by requests for blocks that can be freed and need no special alignment. */
  predicate Plain(req: Request) {
    match req
    case AddHeapRange(_, _) => false
    case AllocateHeap(_, alignment, permanent) => !permanent && alignment <= ALIGNMENT
    case ResizeHeap(_, _, alignment) => alignment <= ALIGNMENT
    case FreeHeap(_) => true
  }

  lemma {:induction false} AlignDownFour(y: nat)
    ensures AlignDown(y, 4) == y / 4 * 4
  {
    assert AlignDown(y, 4) == 2 * AlignDown(y / 2, 2);
    assert AlignDown(y / 2, 2) == 2 * AlignDown(y / 4, 1);
  }

  /** What is aligned already stays where it is. */
  lemma {:induction false} AlignedStays(x: nat)
    requires Aligned(x) && x < WORD32
    ensures AlignUp(x, ALIGNMENT) == x
  {
    AlignDownFour(x + 3);
    assert x + 3 < WORD32;
  }

  lemma {:induction false} PlainFit(r: Range, need: nat)
    requires RangeOk(r) && NeedOk(need) && TryFit(r, need, ALIGNMENT, HEADER).Fit?
    ensures TryFit(r, need, ALIGNMENT, HEADER).allocBase == r.base
  {
    var x := r.base + HEADER;
    assert W32(x) == x;
    AlignedStays(x);
  }

  lemma {:induction false} PlainAllocate(s: State, size: nat, alignment: nat)
    requires Inv(s) && SizeOk(size) && AlignmentOk(alignment) && alignment <= ALIGNMENT
    requires Allocate(s, size, alignment, false).Done?
    ensures var s' := Allocate(s, size, alignment, false).s;
            s'.carved == s.carved && s'.donated == s.donated
  {
    if size > 0 {
      var k, j, f := AllocateCuts(s, size, alignment, false);
      NeedIsSize(size);
      PlainFit(s.ranges[k], WordUp(size));
      assert NewCarved(s.ranges[k], f, false) == [];
    }
  }

  lemma {:induction false} PlainResize(s: State, ptr: Addr, size: nat, alignment: nat)
    requires Inv(s) && Legal(s, ResizeHeap(ptr, size, alignment)) && alignment <= ALIGNMENT
    requires Resize(s, ptr, size, alignment).Done?
    ensures var s' := Resize(s, ptr, size, alignment).s;
            s'.carved == s.carved && s'.donated == s.donated
  {
    if ptr == 0 {
      PlainAllocate(s, size, alignment);
    } else if size > 0 {
      NeedIsSize(size);
      var k := IndexOf(s.ranges, ptr - HEADER);
      if !StaysInPlace(s, k, WordUp(size)) {
        PlainAllocate(s, WordUp(size), alignment);
      }
    }
  }

  lemma {:induction false} PlainStep(s: State, req: Request)
    requires Inv(s) && Legal(s, req) && Plain(req) && Step(s, req).Done?
    ensures Step(s, req).s.carved == s.carved && Step(s, req).s.donated == s.donated
  {
    match req
    case AllocateHeap(size, alignment, permanent) => PlainAllocate(s, size, alignment);
    case ResizeHeap(ptr, size, alignment) => PlainResize(s, ptr, size, alignment);
    case FreeHeap(ptr) =>
  }

  lemma {:induction false} PlainRun(s: State, reqs: seq<Request>, s': State)
    requires Inv(s) && Run(s, reqs, s') && forall i | 0 <= i < |reqs| :: Plain(reqs[i])
    ensures s'.carved == s.carved && s'.donated == s.donated
    decreases |reqs|
  {
    if reqs != [] {
      PlainStep(s, reqs[0]);
      StepInv(s, reqs[0]);
      PlainRun(Step(s, reqs[0]).s, reqs[1..], s');
    }
  }

  /** Once every block is free again, in whatever order, the ranges are those from before the first
      request: nothing is lost and everything is merged. */
  lemma {:induction false} FreeingEverythingRestores(s: State, reqs: seq<Request>, s': State)
    requires Inv(s) && AllFree(s.ranges)
    requires Run(s, reqs, s') && forall i | 0 <= i < |reqs| :: Plain(reqs[i])
    requires AllFree(s'.ranges)
    ensures s'.ranges == s.ranges
  {
    RunInv(s, reqs, s');
    PlainRun(s, reqs, s');
    forall a: Addr ensures Hits(s.ranges, a) == Hits(s'.ranges, a) {
      assert Hits(s.ranges, a) + CarvedHits(s.carved, a) == Owned(s.donated, a);
      assert Hits(s'.ranges, a) + CarvedHits(s'.carved, a) == Owned(s'.donated, a);
    }
    MaximalRangesUnique(s'.ranges, s.ranges);
  }
}
