/** What callers get from the heap: memory whenever some free range has room for it, no more than they
    asked for, and back again when it is freed. None of it is said in terms of how the code searches. */
module HeapServes {
  import opened Basics
  import opened Lists
  import opened HeapSpec
  import opened HeapSafety
  import opened HeapRuns
  import opened HeapTheorems

  // ----- room -----

  /** The free range `r` can hold a block with its payload at `v`: the payload is aligned, a header fits
      in front of it unless the block is permanent, and a byte remains behind it. */
  predicate Room(r: Range, v: Addr, need: nat, alignment: nat, permanent: bool)
    requires alignment > 0
  {
    && r.free && v % 4 == 0 && v % alignment == 0
    && r.base + (if permanent then 0 else 24) <= v && v + need < r.end
  }

  ghost predicate HasRoom(r: Range, need: nat, alignment: nat, permanent: bool)
    requires alignment > 0
  {
    exists v: Addr :: Room(r, v, need, alignment, permanent)
  }

  /** Some free range has room for the request, its size rounded up to whole words. */
  ghost predicate HeapHasRoom(rs: seq<Range>, size: nat, alignment: nat, permanent: bool)
    requires alignment > 0
  {
    var need := (size + 3) / 4 * 4;
    exists k :: 0 <= k < |rs| && HasRoom(rs[k], need, alignment, permanent)
  }

  lemma {:induction false} NeedIsRounded(size: nat)
    requires SizeOk(size)
    ensures WordUp(size) == (size + 3) / 4 * 4
  {
    assert W32(size + 3) == size + 3;
  }

  lemma {:induction false} PowersDivide(x: nat, y: nat)
    requires IsPow2(x) && IsPow2(y) && x <= y
    ensures y % x == 0
  {
    if x > 1 {
      PowersDivide(x / 2, y / 2);
      DoubledMultiple(y / 2, x / 2);
    }
  }

  lemma {:induction false} PowersMultiply(x: nat, y: nat, p: nat)
    requires IsPow2(x) && IsPow2(y) && p == x * y
    ensures IsPow2(p)
  {
    if x > 1 {
      var h := x / 2;
      var half := h * y;
      HalvedProduct(h, y, x, half, p);
      PowersMultiply(h, y, half);
      PowerDoubled(half, p);
    }
  }

  lemma {:induction false} HalvedProduct(h: nat, y: nat, x: nat, half: nat, p: nat)
    requires x == 2 * h && half == h * y && p == x * y
    ensures p == 2 * half
  {
    assert (2 * h) * y == 2 * (h * y);
  }

  lemma {:induction false} PowerDoubled(x: nat, p: nat)
    requires IsPow2(x) && p == 2 * x
    ensures IsPow2(p)
  {
  }

  lemma {:induction false} WordIsPower(word: nat)
    requires word == WORD32
    ensures IsPow2(word)
  {
    var byte, half := 256, 65536;
    assert IsPow2(16);
    PowersMultiply(16, 16, byte);
    PowersMultiply(byte, byte, half);
    PowersMultiply(half, half, word);
  }

  lemma {:induction false} MultipleOfMultiple(v: nat, x: nat, y: nat)
    requires x > 0 && y > 0 && v % y == 0 && y % x == 0
    ensures v % x == 0
  {
    var a, b := v / y, y / x;
    assert v == y * a && y == x * b;
    assert v == x * (b * a);
    ProductMod(b * a, x);
  }

  /** Being a multiple of four and of the alignment is being a multiple of the larger one. */
  lemma {:induction false} EffectiveMultiple(v: nat, alignment: nat, align: nat)
    requires IsPow2(alignment) && align == EffectiveAlignment(alignment)
    ensures IsPow2(align) && (v % 4 == 0 && v % alignment == 0 <==> v % align == 0)
  {
    assert IsPow2(2) && IsPow2(4);
    if alignment < 4 {
      PowersDivide(alignment, 4);
      if v % 4 == 0 {
        MultipleOfMultiple(v, alignment, 4);
      }
    } else {
      PowersDivide(4, alignment);
      if v % alignment == 0 {
        MultipleOfMultiple(v, 4, alignment);
      }
    }
  }

  /** A multiple of `y` less than `y` above another one is not above it. */
  lemma {:induction false} MultiplesApart(a: nat, v: nat, y: nat)
    requires y > 0 && a % y == 0 && v % y == 0 && a < v + y
    ensures a <= v
  {
    var p, q := a / y, v / y;
    assert a == y * p && v == y * q;
    assert p > q ==> y * p >= y * (q + 1);
  }

  lemma {:induction false} NextMultiple(v: nat, y: nat)
    requires y > 0 && v % y == 0
    ensures (v + y) % y == 0
  {
    var q := v / y;
    assert v + y == y * (q + 1);
    ProductMod(q + 1, y);
  }

  /** The address space ends on a multiple of every power of two below it. */
  lemma {:induction false} BelowWordEnd(v: nat, next: nat, y: nat)
    requires IsPow2(y) && y < WORD32 && v < WORD32 && v % y == 0 && next == v + y
    ensures next <= WORD32
  {
    var word := WORD32;
    WordIsPower(word);
    PowersDivide(y, word);
    NextMultiple(v, y);
    MultiplesApart(next, word, y);
  }

  /** Rounding up finds the lowest multiple at or above `x`, if there is one in the address space. */
  lemma {:induction false} AlignUpLowest(x: nat, y: nat, v: nat)
    requires IsPow2(y) && y < WORD32 && x < WORD32
    requires x <= v < WORD32 && v % y == 0
    ensures x <= AlignUp(x, y) <= v
  {
    var z, next := x + y - 1, v + y;
    BelowWordEnd(v, next, y);
    assert W32(z) == z;
    AlignDownFacts(z, y);
    var a := AlignDown(z, y);
    AlignedToIsMultiple(a, y);
    MultiplesApart(a, v, y);
  }

  // ----- one range -----

  /** A range is taken exactly when it has room, and then at the lowest place. */
  lemma {:induction false} TryFitExact(r: Range, need: nat, alignment: nat, align: nat, permanent: bool)
    requires RangeOk(r) && r.free && NeedOk(need) && AlignmentOk(alignment) && align == EffectiveAlignment(alignment)
    ensures TryFit(r, need, align, HeadExtra(permanent)).Fit? <==> HasRoom(r, need, alignment, permanent)
    ensures var f := TryFit(r, need, align, HeadExtra(permanent));
            f.Fit? ==>
              && Room(r, f.valueBase, need, alignment, permanent)
              && forall v: Addr :: Room(r, v, need, alignment, permanent) ==> f.valueBase <= v
  {
    var f := TryFit(r, need, align, HeadExtra(permanent));
    if f.Fit? {
      FitHasRoom(r, need, alignment, align, permanent);
    }
    forall v: Addr | Room(r, v, need, alignment, permanent) ensures f.Fit? && f.valueBase <= v {
      RoomFits(r, v, need, alignment, align, permanent);
    }
  }

  lemma {:induction false} FitHasRoom(r: Range, need: nat, alignment: nat, align: nat, permanent: bool)
    requires RangeOk(r) && r.free && NeedOk(need) && AlignmentOk(alignment) && align == EffectiveAlignment(alignment)
    requires TryFit(r, need, align, HeadExtra(permanent)).Fit?
    ensures Room(r, TryFit(r, need, align, HeadExtra(permanent)).valueBase, need, alignment, permanent)
  {
    var f := TryFit(r, need, align, HeadExtra(permanent));
    EffectiveMultiple(f.valueBase, alignment, align);
    TryFitSound(r, need, align, permanent);
    AlignedToIsMultiple(f.valueBase, align);
  }

  lemma {:induction false} RoomFits(r: Range, v: Addr, need: nat, alignment: nat, align: nat, permanent: bool)
    requires RangeOk(r) && NeedOk(need) && AlignmentOk(alignment) && align == EffectiveAlignment(alignment)
    requires Room(r, v, need, alignment, permanent)
    ensures TryFit(r, need, align, HeadExtra(permanent)).Fit?
    ensures TryFit(r, need, align, HeadExtra(permanent)).valueBase <= v
  {
    var x := r.base + HeadExtra(permanent);
    assert W32(x) == x;
    EffectiveMultiple(v, alignment, align);
    AlignUpLowest(x, align, v);
    LowFits(r, AlignUp(x, align), v, need, permanent);
  }

  lemma {:induction false} LowFits(r: Range, low: Addr, v: Addr, need: nat, permanent: bool)
    requires RangeOk(r) && r.base + HeadExtra(permanent) <= low <= v && v + need < r.end
    ensures FitAt(r, low, need, HeadExtra(permanent)).Fit?
  {
  }

  // ----- the whole heap -----

  /** The search of the free list stops at the first range that would be taken. */
  lemma {:induction false} FirstFitFirst(rs: seq<Range>, fl: seq<Addr>, need: nat, align: nat, extra: nat, i: nat)
    requires i < |fl| && IndexOf(rs, fl[i]) < |rs|
    requires i < FirstFit(rs, fl, need, align, extra)
    ensures TryFit(rs[IndexOf(rs, fl[i])], need, align, extra).NoFit?
  {
    if i > 0 {
      FirstFitFirst(rs, fl[1..], need, align, extra, i - 1);
    }
  }

  /** Allocating succeeds exactly when some free range has room. */
  lemma {:induction false} AllocateExact(s: State, size: nat, alignment: nat, permanent: bool)
    requires Inv(s) && SizeOk(size) && AlignmentOk(alignment) && size > 0
    ensures Allocate(s, size, alignment, permanent).Done? <==> HeapHasRoom(s.ranges, size, alignment, permanent)
  {
    var need, align := WordUp(size), EffectiveAlignment(alignment);
    NeedIsRounded(size);
    NeedIsSize(size);
    if Allocate(s, size, alignment, permanent).Done? {
      var k, j, f := AllocateCuts(s, size, alignment, permanent);
      assert RangeOk(s.ranges[k]);
      TryFitExact(s.ranges[k], need, alignment, align, permanent);
    }
    forall k | 0 <= k < |s.ranges| && HasRoom(s.ranges[k], need, alignment, permanent)
      ensures Allocate(s, size, alignment, permanent).Done?
    {
      RoomIsServed(s, k, size, need, alignment, align, permanent);
    }
  }

  lemma {:induction false} OnFreeList(s: State, k: nat) returns (i: nat)
    requires Inv(s) && k < |s.ranges| && s.ranges[k].free
    ensures i < |s.free| && s.free[i] == s.ranges[k].base && IndexOf(s.ranges, s.free[i]) == k
  {
    FreeIsFreeBase(s.ranges, k);
    assert s.ranges[k].base in multiset(s.free);
    i :| 0 <= i < |s.free| && s.free[i] == s.ranges[k].base;
    IndexOfChain(s.ranges, k);
  }

  /** A range that the search of the free list goes past has no room. */
  lemma {:induction false} PassedOver(s: State, k: nat, i: nat, need: nat, alignment: nat, align: nat, permanent: bool)
    requires Inv(s) && NeedOk(need) && AlignmentOk(alignment) && align == EffectiveAlignment(alignment)
    requires k < |s.ranges| && i < FirstFit(s.ranges, s.free, need, align, HeadExtra(permanent))
    requires i < |s.free| && s.free[i] == s.ranges[k].base
    ensures !HasRoom(s.ranges[k], need, alignment, permanent)
  {
    assert s.free[i] in multiset(s.free);
    FreeBaseIsFree(s.ranges, s.free[i]);
    IndexOfChain(s.ranges, k);
    assert RangeOk(s.ranges[k]);
    FirstFitFirst(s.ranges, s.free, need, align, HeadExtra(permanent), i);
    TryFitExact(s.ranges[k], need, alignment, align, permanent);
  }

  lemma {:induction false} RoomIsServed(s: State, k: nat, size: nat, need: nat, alignment: nat, align: nat, permanent: bool)
    requires Inv(s) && size > 0 && NeedOk(need) && AlignmentOk(alignment)
    requires need == WordUp(size) && align == EffectiveAlignment(alignment)
    requires k < |s.ranges| && HasRoom(s.ranges[k], need, alignment, permanent)
    ensures Allocate(s, size, alignment, permanent).Done?
  {
    var i := OnFreeList(s, k);
    var extra := HeadExtra(permanent);
    var j := FirstFit(s.ranges, s.free, need, align, extra);
    if i < j {
      PassedOver(s, k, i, need, alignment, align, permanent);
    }
    FirstFitFits(s.ranges, s.free, need, align, extra);
  }

  /** Among the ranges with room the first on the free list is taken, at the lowest place that will do. */
  lemma {:induction false} AllocatesFirst(s: State, size: nat, alignment: nat, permanent: bool) returns (j: nat, k: nat)
    requires Inv(s) && SizeOk(size) && AlignmentOk(alignment) && size > 0
    requires Allocate(s, size, alignment, permanent).Done?
    ensures j < |s.free| && k < |s.ranges| && s.free[j] == s.ranges[k].base
    ensures var need, ptr := (size + 3) / 4 * 4, Allocate(s, size, alignment, permanent).ptr;
            && Room(s.ranges[k], ptr, need, alignment, permanent)
            && (forall v: Addr :: Room(s.ranges[k], v, need, alignment, permanent) ==> ptr <= v)
            && (forall i, m | 0 <= i < j && 0 <= m < |s.ranges| && s.ranges[m].base == s.free[i] ::
                  !HasRoom(s.ranges[m], need, alignment, permanent))
  {
    var need, align, extra := WordUp(size), EffectiveAlignment(alignment), HeadExtra(permanent);
    NeedIsRounded(size);
    NeedIsSize(size);
    j, k := AllocateFinds(s, need, align, extra);
    assert RangeOk(s.ranges[k]);
    TryFitExact(s.ranges[k], need, alignment, align, permanent);
    forall i, m | 0 <= i < j && 0 <= m < |s.ranges| && s.ranges[m].base == s.free[i]
      ensures !HasRoom(s.ranges[m], need, alignment, permanent)
    {
      PassedOver(s, m, i, need, alignment, align, permanent);
    }
  }

  // ----- free bytes -----

  ghost predicate FreeByte(rs: seq<Range>, a: Addr) {
    exists i :: 0 <= i < |rs| && rs[i].free && rs[i].base <= a < rs[i].end
  }

  lemma {:induction false} FreeByteAt(rs: seq<Range>, i: nat, a: Addr)
    requires i < |rs| && rs[i].free && rs[i].base <= a < rs[i].end
    ensures FreeByte(rs, a)
  {
  }

  lemma {:induction false} OutsideSlice(rs: seq<Range>, p: nat, q: nat, a: Addr)
    requires p <= q <= |rs| && !FreeByte(rs[p..q], a)
    ensures forall i | p <= i < q :: !(rs[i].free && rs[i].base <= a < rs[i].end)
  {
    forall i | p <= i < q ensures !(rs[i].free && rs[i].base <= a < rs[i].end) {
      assert rs[p..q][i - p] == rs[i];
    }
  }

  /** A splice of a chain frees the bytes of the new free ranges and takes those of the old ones. */
  lemma {:induction false} SpliceBytes(rs: seq<Range>, p: nat, q: nat, mid: seq<Range>, r: seq<Range>, a: Addr)
    requires Chain(rs) && p <= q <= |rs| && r == Splice(rs, p, q, mid)
    ensures FreeByte(r, a) <==> FreeByte(mid, a) || (FreeByte(rs, a) && !FreeByte(rs[p..q], a))
  {
    var e := p + |mid|;
    if FreeByte(r, a) {
      var i :| 0 <= i < |r| && r[i].free && r[i].base <= a < r[i].end;
      if p <= i < e {
        assert r[i] == mid[i - p];
      } else {
        var m := if i < p then i else i - e + q;
        assert r[i] == rs[m];
        NotBetween(rs, p, q, m, a);
      }
    }
    if FreeByte(mid, a) {
      var i :| 0 <= i < |mid| && mid[i].free && mid[i].base <= a < mid[i].end;
      assert r[p + i] == mid[i];
    }
    if FreeByte(rs, a) && !FreeByte(rs[p..q], a) {
      var i :| 0 <= i < |rs| && rs[i].free && rs[i].base <= a < rs[i].end;
      OutsideSlice(rs, p, q, a);
      var m := if i < p then i else i - q + e;
      assert r[m] == rs[i];
    }
  }

  /** A byte is in at most one range of a chain. */
  lemma {:induction false} NotBetween(rs: seq<Range>, p: nat, q: nat, m: nat, a: Addr)
    requires Chain(rs) && p <= q <= |rs| && m < |rs| && !(p <= m < q) && rs[m].base <= a < rs[m].end
    ensures !FreeByte(rs[p..q], a)
  {
    forall i | p <= i < q ensures !(rs[i].base <= a < rs[i].end) {
      assert if i < m then Before(rs[i], rs[m]) else Before(rs[m], rs[i]);
    }
  }

  lemma {:induction false} OneByte(r: Range, a: Addr)
    ensures FreeByte([r], a) <==> r.free && r.base <= a < r.end
  {
    assert [r][0] == r;
  }

  lemma {:induction false} PieceBytes(r: Range, f: Fit, permanent: bool, lo: Addr, a: Addr)
    requires r.free && Placed(r, f) && lo == if f.allocBase - r.base >= HEADER then f.allocBase else r.base
    ensures FreeByte(Pieces(r, f, permanent), a) <==> r.base <= a < r.end && !(lo <= a < BlockEnd(r, f))
  {
    var front, back, all := Front(r, f), Back(r, f), Pieces(r, f, permanent);
    if r.base <= a < lo {
      FreeByteAt(all, 0, a);
    }
    if BlockEnd(r, f) <= a < r.end {
      FreeByteAt(all, |front + Block(r, f, permanent)|, a);
    }
  }

  /** The free bytes from `lo` to `hi` are no longer free, all others still are. */
  ghost predicate Taken(rs: seq<Range>, rs': seq<Range>, lo: Addr, hi: Addr) {
    && (forall a | lo <= a < hi :: FreeByte(rs, a))
    && (forall a: Addr :: FreeByte(rs', a) <==> FreeByte(rs, a) && !(lo <= a < hi))
  }

  /** The block `b` has its payload of `need` bytes at `ptr`, `head` bytes behind its start. */
  predicate Holds(b: Range, ptr: Addr, head: nat, need: nat) {
    !b.free && b.base + head == ptr && ptr + need <= b.end
  }

  /** Less than a header is taken before the block, and less than a header behind its payload. */
  predicate Snug(b: Range, lo: Addr, ptr: Addr, need: nat) {
    lo <= b.base < lo + 24 && b.end < ptr + need + 24
  }

  /** An allocation takes the block it returns, and less than a header before and behind it; all other
      free memory stays free. A block that can be freed again is one of the ranges in use. */
  lemma {:induction false} AllocateTakes(s: State, size: nat, need: nat, alignment: nat, permanent: bool, head: nat,
                                         s': State, ptr: Addr) returns (lo: Addr, b: Range)
    requires Inv(s) && SizeOk(size) && AlignmentOk(alignment) && size > 0
    requires Allocate(s, size, alignment, permanent) == Done(s', ptr)
    requires need == (size + 3) / 4 * 4 && head == if permanent then 0 else 24
    ensures Holds(b, ptr, head, need) && Snug(b, lo, ptr, need) && (!permanent ==> Has(s'.ranges, b))
    ensures Taken(s.ranges, s'.ranges, lo, b.end)
  {
    var k, j, f := AllocateCuts(s, size, alignment, permanent);
    NeedIsRounded(size);
    NeedIsSize(size);
    lo, b := CutGives(s, k, j, f, permanent, need, head, s', ptr);
  }

  lemma {:induction false} CutGives(s: State, k: nat, j: nat, f: Fit, permanent: bool, need: nat, head: nat,
                                    s': State, ptr: Addr) returns (lo: Addr, b: Range)
    requires Inv(s) && k < |s.ranges| && j < |s.free| && s.ranges[k].free && s.free[j] == s.ranges[k].base
    requires Placed(s.ranges[k], f) && s' == Cut(s, k, j, f, permanent) && ptr == f.valueBase
    requires NeedOk(need) && f.allocEnd == ptr + need && ptr == f.allocBase + head
    requires head == if permanent then 0 else 24
    ensures Holds(b, ptr, head, need) && Snug(b, lo, ptr, need) && (!permanent ==> Has(s'.ranges, b))
    ensures Taken(s.ranges, s'.ranges, lo, b.end)
  {
    var r, next := s.ranges[k], k + 1;
    b := Range(f.allocBase, BlockEnd(r, f), false);
    lo := if f.allocBase - r.base >= HEADER then f.allocBase else r.base;
    if !permanent {
      CutInv(s, k, j, f, permanent);
      CutIsLive(s, k, j, f);
    }
    CutTakes(s, k, next, j, f, permanent, lo, b.end);
  }

  lemma {:induction false} CutTakes(s: State, k: nat, next: nat, j: nat, f: Fit, permanent: bool, lo: Addr, hi: Addr)
    requires Chain(s.ranges) && k < |s.ranges| && next == k + 1 && j < |s.free| && s.ranges[k].free
    requires Placed(s.ranges[k], f) && hi == BlockEnd(s.ranges[k], f)
    requires lo == if f.allocBase - s.ranges[k].base >= HEADER then f.allocBase else s.ranges[k].base
    ensures Taken(s.ranges, Cut(s, k, j, f, permanent).ranges, lo, hi)
  {
    forall a | lo <= a < hi ensures FreeByte(s.ranges, a) {
      FreeByteAt(s.ranges, k, a);
    }
    forall a: Addr ensures FreeByte(Cut(s, k, j, f, permanent).ranges, a) <==> FreeByte(s.ranges, a) && !(lo <= a < hi) {
      CutBytes(s, k, next, j, f, permanent, lo, a);
    }
  }

  lemma {:induction false} CutBytes(s: State, k: nat, next: nat, j: nat, f: Fit, permanent: bool, lo: Addr, a: Addr)
    requires Chain(s.ranges) && k < |s.ranges| && next == k + 1 && j < |s.free| && s.ranges[k].free
    requires Placed(s.ranges[k], f)
    requires lo == if f.allocBase - s.ranges[k].base >= HEADER then f.allocBase else s.ranges[k].base
    ensures FreeByte(Cut(s, k, j, f, permanent).ranges, a)
       <==> FreeByte(s.ranges, a) && !(lo <= a < BlockEnd(s.ranges[k], f))
  {
    var r := s.ranges[k];
    var mid := Pieces(r, f, permanent);
    SpliceBytes(s.ranges, k, next, mid, Cut(s, k, j, f, permanent).ranges, a);
    OneRange(s.ranges, k);
    OneByte(r, a);
    PieceBytes(r, f, permanent, lo, a);
    if r.base <= a < r.end {
      FreeByteAt(s.ranges, k, a);
    }
  }

  /** Freeing a block makes its bytes free, its header included, and no others. */
  lemma {:induction false} FreeReturns(s: State, ptr: Addr, k: nat, a: Addr)
    requires Inv(s) && Live(s, ptr) && k == IndexOf(s.ranges, ptr - HEADER)
    ensures FreeByte(Free(s, ptr).ranges, a)
       <==> FreeByte(s.ranges, a) || s.ranges[k].base <= a < s.ranges[k].end
  {
    var rs := s.ranges;
    var p, q, merged := MergeStart(rs, k), MergeEnd(rs, k), Merged(rs, k);
    var mid, after := [merged], FreeRange(s, k).ranges;
    FreeRangeSplices(s, k, p, q, mid);
    SpliceBytes(rs, p, q, mid, after, a);
    OneByte(merged, a);
    assert RangeOk(rs[k]);
    MergedBytes(rs, k, p, q, a);
  }

  lemma {:induction false} MergedBytes(rs: seq<Range>, k: nat, p: nat, q: nat, a: Addr)
    requires Chain(rs) && k < |rs| && !rs[k].free && p == MergeStart(rs, k) && q == MergeEnd(rs, k)
    ensures rs[p].base <= a < rs[q - 1].end <==> FreeByte(rs[p..q], a) || rs[k].base <= a < rs[k].end
    ensures FreeByte(rs[p..q], a) ==> FreeByte(rs, a)
  {
    assert RangeOk(rs[p]) && RangeOk(rs[k]) && RangeOk(rs[q - 1]);
    if rs[p].base <= a < rs[k].base {
      FreeByteAt(rs[p..q], 0, a);
    }
    if rs[k].end <= a < rs[q - 1].end {
      var last := q - 1 - p;
      FreeByteAt(rs[p..q], last, a);
    }
  }

  // ----- adding memory -----

  lemma {:induction false} DonateBytes(s: State, p: nat, base: Addr, end: Addr, mergePrev: bool, mergeNext: bool, a: Addr)
    requires Chain(s.ranges) && CanDonate(s, p, base, end, mergePrev, mergeNext)
    ensures FreeByte(Donate(s, p, base, end, mergePrev, mergeNext).ranges, a)
       <==> FreeByte(s.ranges, a) || base <= a < end
  {
    var rs := s.ranges;
    var q, e := DonateStart(p, mergePrev), DonateEnd(p, mergeNext);
    var d := DonatedRange(rs, p, base, end, mergePrev, mergeNext);
    SpliceBytes(rs, q, e, [d], Donate(s, p, base, end, mergePrev, mergeNext).ranges, a);
    OneByte(d, a);
    DonatedBytes(rs, p, base, end, mergePrev, mergeNext, q, e, a);
  }

  lemma {:induction false} DonatedBytes(rs: seq<Range>, p: nat, base: Addr, end: Addr, mergePrev: bool, mergeNext: bool,
                                        q: nat, e: nat, a: Addr)
    requires Chain(rs) && p <= |rs| && base < end
    requires mergePrev ==> p > 0 && rs[p - 1].free && rs[p - 1].end == base
    requires mergeNext ==> p < |rs| && rs[p].free && rs[p].base == end
    requires q == DonateStart(p, mergePrev) && e == DonateEnd(p, mergeNext)
    ensures var d := DonatedRange(rs, p, base, end, mergePrev, mergeNext);
            d.base <= a < d.end <==> FreeByte(rs[q..e], a) || base <= a < end
    ensures FreeByte(rs[q..e], a) ==> FreeByte(rs, a)
  {
    assert mergePrev ==> RangeOk(rs[p - 1]);
    assert mergeNext ==> RangeOk(rs[p]);
    if mergePrev && rs[p - 1].base <= a < base {
      FreeByteAt(rs[q..e], 0, a);
    }
    if mergeNext && end <= a < rs[p].end {
      var last := p - q;
      FreeByteAt(rs[q..e], last, a);
    }
  }

  /** The bytes from `lo` to `hi` are part of a region, lie outside of all ranges, and have none between
      them and the start of the region. */
  ghost predicate InReach(rs: seq<Range>, base: Addr, size: nat, lo: Addr, hi: Addr) {
    && base <= lo && hi <= base + size
    && (forall i {:trigger rs[i]} | 0 <= i < |rs| :: rs[i].end <= lo || hi <= rs[i].base)
    && (forall i {:trigger rs[i]} | 0 <= i < |rs| :: rs[i].base < base || hi <= rs[i].base)
  }

  /** Adding memory frees bytes of the region only, and all words in reach that are at least a header. */
  lemma {:induction false} AddGives(s: State, base: Addr, size: nat, lo: Addr, hi: Addr, a: Addr)
    requires Inv(s) && RegionOk(s, base, size) && Ascending(s, base, size)
    ensures FreeByte(s.ranges, a) ==> FreeByte(AddRange(s, base, size).ranges, a)
    ensures FreeByte(AddRange(s, base, size).ranges, a) ==> FreeByte(s.ranges, a) || base <= a < base + size
    ensures InReach(s.ranges, base, size, lo, hi) && lo % 4 == 0 && hi % 4 == 0 && lo + 24 <= hi && lo <= a < hi
        ==> FreeByte(AddRange(s, base, size).ranges, a)
  {
    var end0, base0 := WordDown(base + size), WordUp(base);
    assert W32(base + size) == base + size;
    if base0 < end0 {
      var p := Below(s.ranges, base0);
      ReachRounded(s.ranges, base, size, lo, hi, base0, end0, p);
      if p > 0 {
        AddBytesBehind(s, p, base0, end0, lo, hi, a);
      } else {
        AddBytesFirst(s, base0, end0, lo, hi, a);
      }
    }
  }

  ghost predicate Clear(rs: seq<Range>, p: nat, base: Addr, end: Addr, lo: Addr, hi: Addr)
    requires p <= |rs|
  {
    && base <= lo && lo + 24 <= hi <= end
    && (p > 0 ==> rs[p - 1].end <= lo)
    && (p < |rs| ==> hi <= rs[p].base)
  }

  lemma {:induction false} ReachRounded(rs: seq<Range>, base: Addr, size: nat, lo: Addr, hi: Addr,
                                        base0: Addr, end0: Addr, p: nat)
    requires Chain(rs) && 0 < base <= WORD32 - ALIGNMENT && base + size < WORD32
    requires base0 == WordUp(base) && end0 == WordDown(base + size) && p == Below(rs, base0)
    ensures InReach(rs, base, size, lo, hi) && lo % 4 == 0 && hi % 4 == 0 && lo + 24 <= hi
        ==> Clear(rs, p, base0, end0, lo, hi)
  {
    RoundedEnds(base, base + size, lo, hi, base0, end0);
    if p > 0 {
      assert RangeOk(rs[p - 1]);
      RoundedBase(base, base0, rs[p - 1].base);
    }
    if p < |rs| {
      assert RangeOk(rs[p]);
    }
  }

  lemma {:induction false} RoundedEnds(base: Addr, end: Addr, lo: Addr, hi: Addr, base0: Addr, end0: Addr)
    requires base0 % 4 == 0 && base <= base0 < base + 4 && end0 % 4 == 0 && end0 <= end < end0 + 4
    ensures base <= lo && lo % 4 == 0 ==> base0 <= lo
    ensures hi <= end && hi % 4 == 0 ==> hi <= end0
  {
    WordsApart(base0, lo);
    WordsApart(hi, end0);
  }

  lemma {:induction false} WordsApart(a: nat, b: nat)
    ensures a % 4 == 0 && b % 4 == 0 && a < b + 4 ==> a <= b
  {
  }

  lemma {:induction false} RoundedBase(base: Addr, base0: Addr, a: Addr)
    requires base0 % 4 == 0 && base <= base0 < base + 4 && a % 4 == 0 && a < base0
    ensures a < base
  {
    WordsApart(base0, a);
  }

  lemma {:induction false} AddBytesFirst(s: State, base: Addr, end: Addr, lo: Addr, hi: Addr, a: Addr)
    requires Inv(s) && 0 < base < end < WORD32 && Aligned(base) && Aligned(end)
    requires s.ranges != [] ==> end < s.ranges[0].base || (end == s.ranges[0].base && !s.ranges[0].free) || end - base < HEADER
    ensures FreeByte(s.ranges, a) ==> FreeByte(AddAt(s, 0, base, end).ranges, a)
    ensures FreeByte(AddAt(s, 0, base, end).ranges, a) ==> FreeByte(s.ranges, a) || base <= a < end
    ensures Clear(s.ranges, 0, base, end, lo, hi) && lo <= a < hi ==> FreeByte(AddAt(s, 0, base, end).ranges, a)
  {
    if end - base >= HEADER {
      DonateBytes(s, 0, base, end, false, false, a);
    }
  }

  lemma {:induction false} AddBytesBehind(s: State, p: nat, base: Addr, end: Addr, lo: Addr, hi: Addr, a: Addr)
    requires Inv(s) && 0 < base < end < WORD32 && Aligned(base) && Aligned(end)
    requires 0 < p <= |s.ranges|
    ensures FreeByte(s.ranges, a) ==> FreeByte(AddAt(s, p, base, end).ranges, a)
    ensures FreeByte(AddAt(s, p, base, end).ranges, a) ==> FreeByte(s.ranges, a) || base <= a < end
    ensures Clear(s.ranges, p, base, end, lo, hi) && lo <= a < hi ==> FreeByte(AddAt(s, p, base, end).ranges, a)
  {
    var rs := s.ranges;
    var base1 := if rs[p - 1].end > base then rs[p - 1].end else base;
    var end1 := if p < |rs| && end > rs[p].base then rs[p].base else end;
    if base1 < end1 {
      var mergePrev := rs[p - 1].free && rs[p - 1].end == base1;
      var mergeNext := p < |rs| && rs[p].free && end1 == rs[p].base;
      ClampedLies(s, p, base, end, base1, end1, mergePrev, mergeNext);
      if CanDonate(s, p, base1, end1, mergePrev, mergeNext) {
        DonateBytes(s, p, base1, end1, mergePrev, mergeNext, a);
      }
    }
  }

  // ----- resizing -----

  /** A block has to move when it ends too early and no free range starts at its end. */
  ghost predicate MustMove(rs: seq<Range>, r: Range, size: nat) {
    && r.base + 24 + (size + 3) / 4 * 4 > r.end
    && forall i {:trigger rs[i]} | 0 <= i < |rs| && rs[i].free :: rs[i].base != r.end
  }

  lemma {:induction false} MustMoveExact(s: State, k: nat, size: nat, need: nat)
    requires Chain(s.ranges) && k < |s.ranges| && !s.ranges[k].free && SizeOk(size) && need == WordUp(size)
    ensures MustMove(s.ranges, s.ranges[k], size) <==> !StaysInPlace(s, k, need)
  {
    NeedIsRounded(size);
    var rs := s.ranges;
    assert RangeOk(rs[k]);
    forall i | 0 <= i < |rs| && rs[i].base == rs[k].end ensures i == k + 1 {
      assert i < k ==> Before(rs[i], rs[k]) && RangeOk(rs[i]);
      assert k + 1 < i ==> Before(rs[k], rs[k + 1]) && Before(rs[k + 1], rs[i]) && RangeOk(rs[k + 1]);
    }
  }

  /** Whole words stay as they are. */
  lemma {:induction false} RoundedStays(need: nat)
    requires need % 4 == 0
    ensures (need + 3) / 4 * 4 == need
  {
    var q := need / 4;
    assert need + 3 == 4 * q + 3;
  }

  lemma {:induction false} BlockCrashes(s: State, k: nat, size: nat, need: nat, alignment: nat)
    requires Inv(s) && k < |s.ranges| && !s.ranges[k].free && size > 0 && SizeOk(size) && AlignmentOk(alignment)
    requires need == WordUp(size)
    ensures ResizeBlock(s, k, need, alignment).Crash?
       <==> MustMove(s.ranges, s.ranges[k], size) && !HeapHasRoom(s.ranges, size, alignment, false)
  {
    NeedIsRounded(size);
    NeedIsSize(size);
    MustMoveExact(s, k, size, need);
    RoundedStays(need);
    AllocateExact(s, need, alignment, false);
  }

  /** Resizing crashes exactly when there is no block yet, or the block has to move, and no free range has
      room for the new one. */
  lemma {:induction false} ResizeCrashes(s: State, ptr: Addr, size: nat, alignment: nat)
    requires Inv(s) && Legal(s, ResizeHeap(ptr, size, alignment))
    ensures Resize(s, ptr, size, alignment).Crash?
       <==> && size > 0 && !HeapHasRoom(s.ranges, size, alignment, false)
            && (ptr == 0 || MustMove(s.ranges, s.ranges[IndexOf(s.ranges, ptr - 24)], size))
  {
    if size > 0 {
      if ptr == 0 {
        AllocateExact(s, size, alignment, false);
      } else {
        BlockCrashes(s, IndexOf(s.ranges, ptr - HEADER), size, WordUp(size), alignment);
      }
    }
  }

  lemma {:induction false} GrowBytes(rs: seq<Range>, k: nat, behind: nat, newEnd: Addr, mid: seq<Range>, end: Addr,
                                     rs': seq<Range>, a: Addr)
    requires Chain(rs) && behind == k + 2 <= |rs| && !rs[k].free && rs[k + 1].free
    requires rs[k].end == rs[k + 1].base < newEnd <= rs[k + 1].end < WORD32
    requires mid == [Grown(rs[k], rs[k + 1], newEnd)] + Rest(rs[k + 1], newEnd) && end == mid[0].end
    requires rs' == Splice(rs, k, behind, mid)
    ensures FreeByte(rs', a) <==> FreeByte(rs, a) && !(rs[k].end <= a < end)
  {
    var next := rs[k + 1];
    SpliceBytes(rs, k, behind, mid, rs', a);
    TwoRanges(rs, k);
    if next.base <= a < next.end {
      FreeByteAt(rs, k + 1, a);
      FreeByteAt(rs[k..behind], 1, a);
    }
    if end <= a < next.end {
      FreeByteAt(mid, 1, a);
    }
  }

  /** A block that grows takes bytes of the free range behind it. */
  lemma {:induction false} GrowGives(s: State, k: nat, newEnd: Addr, s': State) returns (b: Range)
    requires Inv(s) && Inv(s') && k + 1 < |s.ranges| && !s.ranges[k].free && s.ranges[k + 1].free
    requires s.ranges[k].end == s.ranges[k + 1].base < newEnd <= s.ranges[k + 1].end
    requires s' == Grow(s, k, newEnd)
    ensures Has(s'.ranges, b) && !b.free && b.base == s.ranges[k].base && newEnd <= b.end < newEnd + 24
    ensures Taken(s.ranges, s'.ranges, s.ranges[k].end, b.end)
  {
    var rs, r, next := s.ranges, s.ranges[k], s.ranges[k + 1];
    assert RangeOk(next);
    b := Grown(r, next, newEnd);
    var behind, mid := k + 2, [b] + Rest(next, newEnd);
    assert s'.ranges[k] == b;
    HasAt(s'.ranges, k);
    forall a | r.end <= a < b.end ensures FreeByte(rs, a) {
      FreeByteAt(rs, k + 1, a);
    }
    forall a: Addr ensures FreeByte(s'.ranges, a) <==> FreeByte(rs, a) && !(r.end <= a < b.end) {
      GrowBytes(rs, k, behind, newEnd, mid, b.end, s'.ranges, a);
    }
  }

  /** Free memory after the block `r` moved: less what the new one takes, with the bytes of the old one. */
  ghost predicate Exchanged(rs: seq<Range>, rs': seq<Range>, lo: Addr, hi: Addr, r: Range) {
    forall a: Addr :: FreeByte(rs', a) <==> (FreeByte(rs, a) && !(lo <= a < hi)) || r.base <= a < r.end
  }

  lemma {:induction false} NewBlock(s: State, need: nat, alignment: nat, s1: State, newPtr: Addr, k: nat)
    requires Inv(s) && NeedOk(need) && AlignmentOk(alignment) && Allocate(s, need, alignment, false) == Done(s1, newPtr)
    requires k < |s.ranges| && !s.ranges[k].free
    ensures Inv(s1) && Has(s1.ranges, s.ranges[k]) && newPtr % alignment == 0
  {
    AllocateInv(s, need, alignment, false);
    AllocateLeaves(s, need, alignment, false);
    assert StillThere(s.ranges[k], s1.ranges, 0);
    var _, _ := AllocatesFirst(s, need, alignment, false);
  }

  /** A block that moves is allocated anew among free bytes, and its old bytes are free afterwards. */
  lemma {:induction false} MoveGives(s: State, k: nat, need: nat, alignment: nat, r: Range, ptr: Addr, s1: State,
                                     s': State, newPtr: Addr) returns (lo: Addr, b: Range)
    requires Inv(s) && k < |s.ranges| && !s.ranges[k].free && NeedOk(need) && AlignmentOk(alignment)
    requires r == s.ranges[k] && ptr == r.base + 24 && Allocate(s, need, alignment, false) == Done(s1, newPtr)
    requires s' == Free(s1, ptr)
    ensures newPtr != ptr && Holds(b, newPtr, 24, need) && Snug(b, lo, newPtr, need) && Has(s'.ranges, b)
    ensures newPtr % alignment == 0 && Exchanged(s.ranges, s'.ranges, lo, b.end, r)
  {
    RoundedStays(need);
    lo, b := AllocateTakes(s, need, need, alignment, false, 24, s1, newPtr);
    NewBlock(s, need, alignment, s1, newPtr, k);
    assert RangeOk(r);
    MovedOver(s.ranges, k, r, ptr, s1, s', b, lo);
  }

  lemma {:induction false} MovedOver(rs: seq<Range>, k: nat, r: Range, ptr: Addr, s1: State, s': State, b: Range, lo: Addr)
    requires Chain(rs) && k < |rs| && !rs[k].free && r == rs[k] && RangeOk(r) && ptr == r.base + 24
    requires Inv(s1) && Has(s1.ranges, r) && Has(s1.ranges, b) && !b.free && s' == Free(s1, ptr)
    requires Taken(rs, s1.ranges, lo, b.end) && lo <= b.base < b.end
    ensures b.base != r.base && Has(s'.ranges, b) && Exchanged(rs, s'.ranges, lo, b.end, r)
  {
    NotUsedAndFree(rs, k, r.base);
    assert FreeByte(rs, b.base);
    var i, j := IndexOf(s1.ranges, r.base), IndexOf(s1.ranges, b.base);
    FreeKeepsOthers(s1, i, j);
    forall a: Addr
      ensures FreeByte(s'.ranges, a) <==> (FreeByte(rs, a) && !(lo <= a < b.end)) || r.base <= a < r.end
    {
      FreeReturns(s1, ptr, i, a);
    }
  }

  lemma {:induction false} NotUsedAndFree(rs: seq<Range>, k: nat, a: Addr)
    requires Chain(rs) && k < |rs| && !rs[k].free && rs[k].base <= a < rs[k].end
    ensures !FreeByte(rs, a)
  {
    forall i | 0 <= i < |rs| && rs[i].free ensures !(rs[i].base <= a < rs[i].end) {
      assert if i < k then Before(rs[i], rs[k]) else Before(rs[k], rs[i]);
    }
  }

  /** What a resize does that FitsInPlace allows: it keeps the block, grows it, or moves it. */
  lemma {:induction false} ResizeCases(s: State, k: nat, need: nat, alignment: nat, ptr: Addr, newEnd: Addr, s': State,
                                       newPtr: Addr)
    requires Inv(s) && k < |s.ranges| && !s.ranges[k].free && NeedOk(need) && FitsInPlace(s, k, need)
    requires ptr == s.ranges[k].base + HEADER && newEnd == ptr + need
    requires ResizeBlock(s, k, need, alignment) == Done(s', newPtr)
    ensures newEnd <= s.ranges[k].end ==> newPtr == ptr && s' == s
    ensures newEnd > s.ranges[k].end && MergesNext(s.ranges, k)
        ==> newPtr == ptr && s' == Grow(s, k, newEnd) && newEnd <= s.ranges[k + 1].end && Inv(s')
    ensures !StaysInPlace(s, k, need)
        ==> var moved := Allocate(s, need, alignment, false);
            moved.Done? && newPtr == moved.ptr && s' == Free(moved.s, ptr)
  {
    if newEnd > s.ranges[k].end && MergesNext(s.ranges, k) {
      ResizeInPlaceExact(s, k, need, alignment);
      assert RangeOk(s.ranges[k + 1]);
      assert W32(newEnd) == newEnd;
      ResizeBlockGrows(s, k, need, alignment, ptr, newEnd);
    }
  }

  /** Resizing a block moves it only if it must. In place it takes no more than it needs, rounded up by
      less than a header; a block that moves is aligned, and its old bytes become free. */
  lemma {:induction false} ResizeServes(s: State, ptr: Addr, size: nat, need: nat, alignment: nat, r: Range, s': State,
                                        newPtr: Addr) returns (lo: Addr, b: Range)
    requires Inv(s) && Legal(s, ResizeHeap(ptr, size, alignment)) && ptr > 0 && size > 0
    requires Resize(s, ptr, size, alignment) == Done(s', newPtr)
    requires need == (size + 3) / 4 * 4 && r == s.ranges[IndexOf(s.ranges, ptr - 24)]
    ensures Has(s'.ranges, b) && Holds(b, newPtr, 24, need) && (newPtr != ptr <==> MustMove(s.ranges, r, size))
    ensures newPtr == ptr ==> (b == r || b.end < ptr + need + 24) && Taken(s.ranges, s'.ranges, r.end, b.end)
    ensures newPtr != ptr ==> newPtr % alignment == 0 && Snug(b, lo, newPtr, need)
                              && Exchanged(s.ranges, s'.ranges, lo, b.end, r)
  {
    var k := IndexOf(s.ranges, ptr - HEADER);
    NeedIsRounded(size);
    NeedIsSize(size);
    MustMoveExact(s, k, size, need);
    lo, b := BlockServes(s, k, need, alignment, r, ptr, s', newPtr);
  }

  lemma {:induction false} BlockServes(s: State, k: nat, need: nat, alignment: nat, r: Range, ptr: Addr, s': State,
                                       newPtr: Addr) returns (lo: Addr, b: Range)
    requires Inv(s) && k < |s.ranges| && !s.ranges[k].free && NeedOk(need) && AlignmentOk(alignment)
    requires FitsInPlace(s, k, need) && r == s.ranges[k] && ptr == r.base + 24
    requires ResizeBlock(s, k, need, alignment) == Done(s', newPtr)
    ensures Has(s'.ranges, b) && Holds(b, newPtr, 24, need) && (newPtr == ptr <==> StaysInPlace(s, k, need))
    ensures newPtr == ptr ==> (b == r || b.end < ptr + need + 24) && Taken(s.ranges, s'.ranges, r.end, b.end)
    ensures newPtr != ptr ==> newPtr % alignment == 0 && Snug(b, lo, newPtr, need)
                              && Exchanged(s.ranges, s'.ranges, lo, b.end, r)
  {
    var newEnd := ptr + need;
    lo, b := 0, r;
    ResizeCases(s, k, need, alignment, ptr, newEnd, s', newPtr);
    if newEnd <= r.end {
      HasAt(s.ranges, k);
    } else if MergesNext(s.ranges, k) {
      b := GrowGives(s, k, newEnd, s');
    } else {
      lo, b := MoveGives(s, k, need, alignment, r, ptr, Allocate(s, need, alignment, false).s, s', newPtr);
    }
  }
}
