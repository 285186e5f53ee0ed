/** Which headers an operation of the heap may link, unlink or write without one overlapping another. */
module HeapHeaders {
  import opened Basics
  import opened Lists
  import opened HeapSpec
  import opened HeapSafety
  import opened HeapMemory
  import opened HeapRuns
  import opened HeapTheorems

  function Heads(rs: seq<Range>): set<Addr> {
    set i | 0 <= i < |rs| :: rs[i].base
  }

  lemma {:induction false} ChainSpaced(rs: seq<Range>)
    requires Chain(rs)
    ensures Spaced(Heads(rs))
  {
    forall x, y | x in Heads(rs) && y in Heads(rs) ensures HeaderApart(x, y) {
      var i :| 0 <= i < |rs| && rs[i].base == x;
      var j :| 0 <= j < |rs| && rs[j].base == y;
      assert RangeOk(rs[i]) && RangeOk(rs[j]);
      assert i < j ==> Before(rs[i], rs[j]);
      assert j < i ==> Before(rs[j], rs[i]);
    }
    forall i | 0 <= i < |rs| ensures rs[i].base != 0 {
      assert RangeOk(rs[i]);
    }
  }

  predicate Differ(a: Addr, b: Addr) {
    a != b
  }

  ghost predicate Distinct(fs: seq<Addr>) {
    forall i, j {:trigger Differ(fs[i], fs[j])} | 0 <= i < j < |fs| :: Differ(fs[i], fs[j])
  }

  ghost predicate DistinctBases(rs: seq<Range>) {
    forall i, j {:trigger Differ(rs[i].base, rs[j].base)} | 0 <= i < j < |rs| :: Differ(rs[i].base, rs[j].base)
  }

  lemma {:induction false} OtherBases(rs: seq<Range>, k: nat)
    requires DistinctBases(rs) && k < |rs|
    ensures forall i | 0 <= i < |rs| && i != k :: rs[i].base != rs[k].base
  {
    forall i | 0 <= i < |rs| && i != k ensures rs[i].base != rs[k].base {
      if i < k {
        assert Differ(rs[i].base, rs[k].base);
      } else {
        assert Differ(rs[k].base, rs[i].base);
      }
    }
  }

  lemma {:induction false} RemovedDistinct(rs: seq<Range>, k: nat)
    requires DistinctBases(rs) && k < |rs|
    ensures DistinctBases(rs[..k] + rs[k + 1..])
  {
    var r := rs[..k] + rs[k + 1..];
    forall i, j | 0 <= i < j < |r| ensures Differ(r[i].base, r[j].base) {
      var i', j' := if i < k then i else i + 1, if j < k then j else j + 1;
      assert r[i] == rs[i'] && r[j] == rs[j'] && Differ(rs[i'].base, rs[j'].base);
    }
  }

  lemma {:induction false} SetDistinct(rs: seq<Range>, k: nat, r: Range)
    requires DistinctBases(rs) && k < |rs| && r.base == rs[k].base
    ensures DistinctBases(rs[k := r])
  {
    var r' := rs[k := r];
    forall i, j | 0 <= i < j < |rs| ensures Differ(r'[i].base, r'[j].base) {
      assert Differ(rs[i].base, rs[j].base);
    }
  }

  /** What keeps list operations on headers apart: no two headers overlap, and the free list mentions
      the header of each free range once and nothing else. */
  ghost predicate Sound(rs: seq<Range>, fs: seq<Addr>) {
    && Spaced(Heads(rs)) && HeadsIn(rs, fs, Heads(rs)) && DistinctBases(rs)
    && Distinct(fs)
    && (forall k | 0 <= k < |rs| :: rs[k].free <==> rs[k].base in fs)
  }

  lemma {:induction false} InvIsSound(s: State)
    requires Inv(s)
    ensures Sound(s.ranges, s.free)
  {
    ChainSpaced(s.ranges);
    FreeListExact(s);
    forall i, j | 0 <= i < j < |s.ranges| ensures Differ(s.ranges[i].base, s.ranges[j].base) {
      assert Before(s.ranges[i], s.ranges[j]) && RangeOk(s.ranges[i]);
    }
    forall j | 0 <= j < |s.free| ensures s.free[j] in Heads(s.ranges) {
      assert s.free[j] in s.free;
    }
  }

  lemma {:induction false} StillWithout(fl: seq<Addr>, a: Addr, b: Addr)
    requires b !in fl
    ensures b !in Without(fl, a)
  {
    if fl != [] && fl[0] != a {
      StillWithout(fl[1..], a, b);
    }
  }

  /** The four outcomes of freeing a block. */
  lemma {:induction false} FreeRangeForms(s: State, k: nat)
    requires k < |s.ranges|
    ensures MergesPrev(s.ranges, k) && MergesNext(s.ranges, k) ==>
              FreeRange(s, k) ==
              s.(ranges := Splice(s.ranges, k - 1, k + 2, [s.ranges[k - 1].(end := s.ranges[k + 1].end)]),
                 free := Without(s.free, s.ranges[k + 1].base))
    ensures MergesPrev(s.ranges, k) && !MergesNext(s.ranges, k) ==>
              FreeRange(s, k) ==
              s.(ranges := Splice(s.ranges, k - 1, k + 1, [s.ranges[k - 1].(end := s.ranges[k].end)]))
    ensures !MergesPrev(s.ranges, k) && MergesNext(s.ranges, k) ==>
              FreeRange(s, k) ==
              s.(ranges := Splice(s.ranges, k, k + 2, [Range(s.ranges[k].base, s.ranges[k + 1].end, true)]),
                 free := [s.ranges[k].base] + Without(s.free, s.ranges[k + 1].base))
    ensures !MergesPrev(s.ranges, k) && !MergesNext(s.ranges, k) ==>
              FreeRange(s, k) ==
              s.(ranges := Splice(s.ranges, k, k + 1, [Range(s.ranges[k].base, s.ranges[k].end, true)]),
                 free := [s.ranges[k].base] + s.free)
  {
  }

  lemma {:induction false} RemoveThenSet(rs: seq<Range>, p: nat, q: nat, r: Range)
    requires p < q <= |rs|
    ensures (rs[..p + 1] + rs[q..])[p := r] == Splice(rs, p, q, [r])
  {
  }

  /** One step of the first-fit search. */
  lemma {:induction false} FirstFitStep(rs: seq<Range>, fs: seq<Addr>, j: nat, need: nat, alignment: nat, headExtra: nat)
    requires j < |fs| && IndexOf(rs, fs[j]) < |rs|
    ensures FirstFit(rs, fs[j..], need, alignment, headExtra) ==
            if TryFit(rs[IndexOf(rs, fs[j])], need, alignment, headExtra).Fit? then 0
            else 1 + FirstFit(rs, fs[j + 1..], need, alignment, headExtra)
  {
    assert fs[j..][1..] == fs[j + 1..];
  }

  /** What the free list says about its j-th entry. */
  lemma {:induction false} FreeHeader(s: State, m: Memory, rl: BlList, fl: BlList, j: nat)
    requires Inv(s) && Rep(m, rl, fl, s.ranges, s.free) && j < |s.free|
    ensures var k := IndexOf(s.ranges, s.free[j]);
            && k < |s.ranges| && s.ranges[k].free && Load(m, s.free[j] + END) == s.ranges[k].end
            && s.ranges[k] == Range(s.free[j], s.ranges[k].end, true)
    ensures Load(m, s.free[j] + FREE_NODE + NEXT) == At(FreeNodes(s.free), j + 1)
  {
    FreeListExact(s);
    assert s.free[j] in s.free;
    var k := IndexOf(s.ranges, s.free[j]);
    assert Field(m, s.ranges[k]);
    assert Linked(m, FreeNodes(s.free), j);
  }

  lemma {:induction false} NewFreeReady(target: State, rs: seq<Range>, fs: seq<Addr>, h: Addr, end: Addr, k: nat)
    requires Sound(target.ranges, target.free) && k <= |rs|
    requires target.ranges == rs[..k] + [Range(h, end, true)] + rs[k..] && target.free == [h] + fs
    ensures HeadsIn(rs, fs, Heads(target.ranges)) && h in Heads(target.ranges)
    ensures forall i | 0 <= i < |rs| :: rs[i].base != h
    ensures forall j | 0 <= j < |fs| :: fs[j] != h
  {
    var r := target.ranges;
    assert r[k].base == h;
    OtherBases(r, k);
    forall i | 0 <= i < |rs| ensures rs[i].base != h && rs[i].base in Heads(r) {
      assert rs[i] == r[if i < k then i else i + 1];
    }
    forall j | 0 <= j < |fs| ensures fs[j] != h && fs[j] in Heads(r) {
      assert fs[j] == target.free[j + 1] && Differ(target.free[0], target.free[j + 1]);
    }
  }

  /** The outcomes of adding a piece that is not dropped. */
  ghost predicate Donates(rs: seq<Range>, fs: seq<Addr>, p: nat, base: Addr, end: Addr,
                          mergePrev: bool, mergeNext: bool, d: State)
    requires p <= |rs| && (mergePrev ==> p > 0) && (mergeNext ==> p < |rs|)
  {
    if mergePrev && mergeNext then
      && d.ranges == Splice(rs, p - 1, p + 1, [rs[p - 1].(end := rs[p].end)]) && d.free == Without(fs, rs[p].base)
    else if mergePrev then
      d.ranges == rs[p - 1 := rs[p - 1].(end := end)] && d.free == fs
    else if mergeNext then
      && d.ranges == rs[..p] + [Range(base, rs[p].end, true)] + rs[p + 1..]
      && d.free == [base] + Without(fs, rs[p].base)
    else
      d.ranges == rs[..p] + [Range(base, end, true)] + rs[p..] && d.free == [base] + fs
  }

  /** The clamped piece and the two merge tests of BlAddHeapRange. */
  ghost predicate Clamped(rs: seq<Range>, p: nat, base: Addr, end: Addr, base1: Addr, end1: Addr,
                          mergePrev: bool, mergeNext: bool)
    requires p <= |rs|
  {
    var hasNext := 0 < p < |rs|;
    && base1 == (if p > 0 && rs[p - 1].end > base then rs[p - 1].end else base)
    && end1 == (if hasNext && end > rs[p].base then rs[p].base else end)
    && mergePrev == (p > 0 && rs[p - 1].free && rs[p - 1].end == base1)
    && mergeNext == (hasNext && rs[p].free && end1 == rs[p].base)
  }

  lemma {:induction false} AddAtForms(s: State, p: nat, base: Addr, end: Addr, base1: Addr, end1: Addr, mergePrev: bool, mergeNext: bool)
    requires p <= |s.ranges| && Clamped(s.ranges, p, base, end, base1, end1, mergePrev, mergeNext)
    ensures base1 >= end1 || (!mergePrev && !mergeNext && end1 - base1 < HEADER) ==> AddAt(s, p, base, end) == s
    ensures base1 < end1 && (mergePrev || mergeNext || end1 - base1 >= HEADER) ==>
              && Donates(s.ranges, s.free, p, base1, end1, mergePrev, mergeNext, AddAt(s, p, base, end))
              && AddAt(s, p, base, end).carved == s.carved
  {
    if base1 < end1 && (mergePrev || mergeNext || end1 - base1 >= HEADER) {
      DonateForms(s, p, base1, end1, mergePrev, mergeNext);
    }
  }

  lemma {:induction false} DonateForms(s: State, p: nat, base: Addr, end: Addr, mergePrev: bool, mergeNext: bool)
    requires p <= |s.ranges| && (mergePrev ==> p > 0 && s.ranges[p - 1].free)
    requires base < end && (mergeNext ==> p < |s.ranges|)
    requires mergePrev || mergeNext || end - base >= HEADER
    ensures Donates(s.ranges, s.free, p, base, end, mergePrev, mergeNext,
                    Donate(s, p, base, end, mergePrev, mergeNext))
  {
  }

  /** The range list without the block: what lay in front of it and behind it. */
  function Carve(rs: seq<Range>, k: nat, f: Fit): seq<Range>
    requires k < |rs| && f.Fit?
  {
    rs[..k] + Front(rs[k], f) + Back(rs[k], f) + rs[k + 1..]
  }

  /** The free list without the range that is cut, but with what is left of it. */
  function CarveNodes(rs: seq<Range>, fs: seq<Addr>, k: nat, j: nat, f: Fit): seq<Addr>
    requires k < |rs| && j < |fs| && f.Fit?
  {
    fs[..j] + FreeBases(Front(rs[k], f)) + FreeBases(Back(rs[k], f)) + fs[j + 1..]
  }

  ghost predicate Cuts(rs: seq<Range>, fs: seq<Addr>, k: nat, j: nat, f: Fit, permanent: bool, target: State)
    requires k < |rs| && j < |fs| && f.Fit?
  {
    var i := k + |Front(rs[k], f)|;
    var block := Range(f.allocBase, BlockEnd(rs[k], f), false);
    && target.free == CarveNodes(rs, fs, k, j, f)
    && target.ranges == if permanent then Carve(rs, k, f) else Carve(rs, k, f)[..i] + [block] + Carve(rs, k, f)[i..]
  }

  lemma {:induction false} SplitAt(a: seq<Range>, front: seq<Range>, back: seq<Range>, rest: seq<Range>, i: nat)
    requires i == |a| + |front|
    ensures (a + front + back + rest)[..i] == a + front && (a + front + back + rest)[i..] == back + rest
  {
  }

  lemma {:induction false} CutForms(s: State, k: nat, j: nat, f: Fit, permanent: bool)
    requires k < |s.ranges| && j < |s.free| && f.Fit?
    ensures Cuts(s.ranges, s.free, k, j, f, permanent, Cut(s, k, j, f, permanent))
  {
    var rs, r := s.ranges, s.ranges[k];
    var front, back, block := Front(r, f), Back(r, f), Block(r, f, permanent);
    SplitAt(rs[..k], front, back, rs[k + 1..], k + |front|);
    PiecesBetween(rs[..k], front, block, back, rs[k + 1..]);
  }

  lemma {:induction false} PiecesBetween(a: seq<Range>, front: seq<Range>, block: seq<Range>, back: seq<Range>, rest: seq<Range>)
    ensures a + (front + block + back) + rest == (a + front) + block + (back + rest)
    ensures block == [] ==> a + (front + block + back) + rest == a + front + back + rest
  {
  }

  /** What a legal request does: the cut, what it leaves alone, and that it is clear of the old header. */
  lemma {:induction false} AllocatePlan(s: State, size: nat, alignment: nat, permanent: bool, need: nat, align: nat,
                      j: nat, k: nat, f: Fit)
    requires Inv(s) && Legal(s, AllocateHeap(size, alignment, permanent))
    requires size > 0 && need == WordUp(size) && align == EffectiveAlignment(alignment)
    requires j == FirstFit(s.ranges, s.free, need, align, HeadExtra(permanent)) && j <= |s.free|
    requires j < |s.free| ==> k == IndexOf(s.ranges, s.free[j]) && k < |s.ranges|
    requires j < |s.free| ==> f == TryFit(s.ranges[k], need, align, HeadExtra(permanent)) && f.Fit?
    ensures j == |s.free| ==> Allocate(s, size, alignment, permanent).Crash?
    ensures j < |s.free| ==>
              && Allocate(s, size, alignment, permanent) == Done(Cut(s, k, j, f, permanent), f.valueBase)
              && Leaves(s.ranges, Cut(s, k, j, f, permanent).ranges, 0) && (permanent ==> LinksClear(s.ranges[k], f))
    ensures AlignmentOk(align) && align >= ALIGNMENT
  {
    EffectiveOk(alignment, align);
    AllocateForms(s, size, alignment, permanent, need, align, j, k, f);
    if j < |s.free| {
      AllocateLeaves(s, size, alignment, permanent);
    }
  }

  lemma {:induction false} CarvedSeqs(rs: seq<Range>, fs: seq<Addr>, k: nat, j: nat, front: seq<Range>, back: seq<Range>,
                   front': seq<Addr>, back': seq<Addr>)
    requires k < |rs| && j < |fs|
    ensures var once := rs[..k + 1] + back + rs[k + 1..];
            once[..k] + front + once[k + 1..] == rs[..k] + front + back + rs[k + 1..]
    ensures var once := fs[..j + 1] + back' + fs[j + 1..];
            once[..j] + front' + once[j + 1..] == fs[..j] + front' + back' + fs[j + 1..]
  {
  }

  lemma {:induction false} CutHeads(s: State, k: nat, j: nat, f: Fit, permanent: bool)
    requires k < |s.ranges| && j < |s.free| && f.Fit?
    ensures Heads(Back(s.ranges[k], f)) <= Heads(Cut(s, k, j, f, permanent).ranges)
  {
    var r, rs := s.ranges[k], Cut(s, k, j, f, permanent).ranges;
    forall h | h in Heads(Back(r, f)) ensures h in Heads(rs) {
      var i := k + |Front(r, f) + Block(r, f, permanent)|;
      assert rs[i] == Back(r, f)[0];
    }
  }

  lemma {:induction false} SameHeads(rs: seq<Range>, rs': seq<Range>)
    requires |rs| == |rs'| && forall i | 0 <= i < |rs| :: rs[i].base == rs'[i].base
    ensures Heads(rs) == Heads(rs')
  {
  }

  /** Soundness of headers does not depend on where ranges end. */
  lemma {:induction false} SoundWithEnd(rs: seq<Range>, fs: seq<Addr>, k: nat, end: Addr)
    requires Sound(rs, fs) && k < |rs|
    ensures Sound(rs[k := rs[k].(end := end)], fs)
  {
    var rs' := rs[k := rs[k].(end := end)];
    SetDistinct(rs, k, rs'[k]);
    SameHeads(rs, rs');
    forall i | 0 <= i < |rs| ensures rs'[i].base in Heads(rs) {
      assert rs'[i].base == rs[i].base;
    }
    forall i | 0 <= i < |rs| ensures rs'[i].free <==> rs'[i].base in fs {
      assert rs[i].free <==> rs[i].base in fs;
    }
  }

  // ----- resizing -----

  ghost predicate Grows(rs: seq<Range>, fs: seq<Addr>, k: nat, newEnd: Addr, grown: State)
    requires k + 1 < |rs|
  {
    if rs[k + 1].end - newEnd >= HEADER then
      && grown.ranges == rs[..k] + [rs[k].(end := newEnd)] + [Range(newEnd, rs[k + 1].end, true)] + rs[k + 2..]
      && grown.free == [newEnd] + Without(fs, rs[k + 1].base)
    else
      && grown.ranges == rs[..k] + [rs[k].(end := rs[k + 1].end)] + rs[k + 2..]
      && grown.free == Without(fs, rs[k + 1].base)
  }

  /** The lists just before a grown block gets its new end: the rest is already split off. */
  lemma {:induction false} HalfGrown(rs: seq<Range>, fs: seq<Addr>, k: nat, newEnd: Addr, rest: Range, grown: State)
    requires k < |rs| && Sound(grown.ranges, grown.free)
    requires grown.ranges == rs[..k] + [rs[k].(end := newEnd)] + [rest] + rs[k + 1..]
    ensures var half := grown.ranges[k := rs[k]];
            && Sound(half, grown.free) && half == rs[..k + 1] + [rest] + rs[k + 1..]
            && half[k] == rs[k] && half[k := half[k].(end := newEnd)] == grown.ranges && Heads(half) == Heads(grown.ranges)
  {
    SoundWithEnd(grown.ranges, grown.free, k, rs[k].end);
    var half := grown.ranges[k := rs[k]];
    assert grown.ranges[k].(end := rs[k].end) == rs[k];
    SameHeads(half, grown.ranges);
  }

  /** What a resize does, for a request that can be met in place or has to move. */
  ghost predicate Resized(s: State, k: nat, need: nat, alignment: nat, crashed: bool, newPtr: Addr, s': State)
    requires k < |s.ranges|
  {
    if crashed then s' == s && ResizeBlock(s, k, need, alignment).Crash?
    else ResizeBlock(s, k, need, alignment) == Done(s', newPtr)
  }

  lemma {:induction false} ResizeStays(s: State, k: nat, need: nat, alignment: nat, ptr: Addr, newEnd: Addr)
    requires Inv(s) && k < |s.ranges| && !s.ranges[k].free && FitsInPlace(s, k, need) && StaysInPlace(s, k, need)
    requires ptr == s.ranges[k].base + HEADER && newEnd == ptr + need
    ensures newEnd <= s.ranges[k].end ==> Resized(s, k, need, alignment, false, ptr, s)
    ensures newEnd > s.ranges[k].end ==> Resized(s, k, need, alignment, false, ptr, Grow(s, k, newEnd))
  {
    if newEnd > s.ranges[k].end {
      assert RangeOk(s.ranges[k + 1]);
      assert W32(newEnd) == newEnd;
    }
  }

  lemma {:induction false} CanGrowHere(s: State, k: nat, need: nat, ptr: Addr, newEnd: Addr)
    requires Chain(s.ranges) && k < |s.ranges| && !s.ranges[k].free && NeedOk(need)
    requires FitsInPlace(s, k, need) && StaysInPlace(s, k, need)
    requires ptr == s.ranges[k].base + HEADER && newEnd == ptr + need
    ensures newEnd > s.ranges[k].end ==> MergesNext(s.ranges, k) && CanGrow(s.ranges[k], s.ranges[k + 1], newEnd)
  {
    assert RangeOk(s.ranges[k]);
    assert k + 1 < |s.ranges| ==> RangeOk(s.ranges[k + 1]);
  }

  lemma {:induction false} ResizeMoves(s: State, k: nat, need: nat, alignment: nat, ptr: Addr,
                    crashed: bool, newPtr: Addr, s1: State, s': State)
    requires k < |s.ranges| && !StaysInPlace(s, k, need) && ptr == s.ranges[k].base + HEADER
    requires if crashed then s' == s && Allocate(s, need, alignment, false).Crash?
             else Allocate(s, need, alignment, false) == Done(s1, newPtr) && s' == Free(s1, ptr)
    ensures Resized(s, k, need, alignment, crashed, newPtr, s')
  {
  }

  /** Everything freeing needs to know about the ranges before and after. */
  lemma {:induction false} FreePlan(s: State, ptr: Addr, k: nat)
    requires Inv(s) && Live(s, ptr) && k == IndexOf(s.ranges, ptr - HEADER)
    ensures k < |s.ranges| && !s.ranges[k].free && s.ranges[k].base == ptr - HEADER
    ensures Free(s, ptr) == FreeRange(s, k) && Inv(Free(s, ptr)) && Sound(s.ranges, s.free)
    ensures Leaves(s.ranges, Free(s, ptr).ranges, ptr) && LedgerGrows(s, Free(s, ptr))
  {
    FreeRangeInv(s, k);
    FreeLeaves(s, ptr);
    InvIsSound(s);
  }

  /** Everything growing in place needs to know about the ranges before and after. */
  lemma {:induction false} GrowPlan(s: State, k: nat, newEnd: Addr)
    requires Inv(s) && k + 1 < |s.ranges| && CanGrow(s.ranges[k], s.ranges[k + 1], newEnd)
    ensures var grown := Grow(s, k, newEnd);
            && Inv(grown) && Sound(grown.ranges, grown.free) && Sound(s.ranges, s.free)
            && Grows(s.ranges, s.free, k, newEnd, grown)
            && grown.carved == s.carved && grown.donated == s.donated
  {
    GrowInv(s, k, newEnd);
    InvIsSound(s);
    InvIsSound(Grow(s, k, newEnd));
    GrowForms(s, k, newEnd);
  }

  lemma {:induction false} GrowForms(s: State, k: nat, newEnd: Addr)
    requires k + 1 < |s.ranges| && CanGrow(s.ranges[k], s.ranges[k + 1], newEnd)
    ensures Grows(s.ranges, s.free, k, newEnd, Grow(s, k, newEnd))
  {
    var r, next := s.ranges[k], s.ranges[k + 1];
    OneFreeBase(Range(newEnd, next.end, true));
  }
}
