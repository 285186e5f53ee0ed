/** bootloader/memory.c on memory: the C functions, with their headers and both lists, do what HeapSpec
    says, and write nothing but headers. */
module HeapAllocator {
  import opened Basics
  import opened Lists
  import opened HeapSpec
  import opened HeapSafety
  import opened HeapMemory
  import opened HeapRuns
  import opened HeapTheorems
  import opened HeapHeaders
  import opened HeapPayloads
  import opened HeapServes
  import opened HeapCut

  class Heap {
    var mem: Memory
    var ranges: BlList
    var freeRanges: BlList
    ghost var rs: seq<Range>
    ghost var fs: seq<Addr>
    ghost var carved: seq<Carved>
    ghost var donated: set<Addr>

    ghost function Abs(): State
      reads this
    {
      State(rs, fs, carved, donated)
    }

    ghost predicate Threaded()
      reads this
    {
      Rep(mem, ranges, freeRanges, rs, fs)
    }

    ghost predicate Valid()
      reads this
    {
      Threaded() && Inv(Abs())
    }

    ghost function Lists(): Threads
      reads this
    {
      Threads(mem, ranges, freeRanges)
    }

    // ----- one list operation at a time -----

    /** Writes End and Free of a new header and links it into the range list. */
    method LinkRange(h: Addr, end: Addr, free: bool, anchor: Addr, ghost k: nat, ghost hs: set<Addr>)
      requires Threaded() && k <= |rs| && anchor == At(Bases(rs), k - 1)
      requires Spaced(hs) && HeadsIn(rs, fs, hs) && h in hs
      requires forall i | 0 <= i < |rs| :: rs[i].base != h
      modifies `mem, `ranges, `rs
      ensures Threaded() && OnlyHeaders(old(mem), mem, hs) && HeadsIn(rs, fs, hs)
      ensures rs == old(rs)[..k] + [Range(h, end, free)] + old(rs)[k..]
    {
      ghost var r := Range(h, end, free);
      mem := mem[h + END := end];
      mem := mem[h + FREE := if free then 1 else 0];
      ghost var m := mem;
      WrittenHeader(old(mem), m, ranges, freeRanges, rs, fs, r, hs);
      mem, ranges := InsertAfter(mem, ranges, anchor, h, Bases(rs), k);
      LinkedRange(m, mem, ranges, freeRanges, rs, fs, k, r, hs);
      rs := rs[..k] + [r] + rs[k..];
    }

    /** Takes a range off the range list. Its header stays readable. */
    method UnlinkRange(h: Addr, ghost k: nat, ghost hs: set<Addr>)
      requires Threaded() && k < |rs| && h == rs[k].base
      requires Spaced(hs) && HeadsIn(rs, fs, hs)
      modifies `mem, `ranges, `rs
      ensures Threaded() && OnlyHeaders(old(mem), mem, hs) && HeadsIn(rs, fs, hs)
      ensures rs == old(rs)[..k] + old(rs)[k + 1..] && Field(mem, old(rs)[k])
    {
      ghost var m := mem;
      mem, ranges := Remove(mem, ranges, h, Bases(rs), k);
      UnlinkedRange(m, mem, ranges, freeRanges, rs, fs, k, hs);
      rs := rs[..k] + rs[k + 1..];
    }

    method LinkFree(h: Addr, anchor: Addr, ghost j: nat, ghost hs: set<Addr>)
      requires Threaded() && j <= |fs| && anchor == At(FreeNodes(fs), j - 1)
      requires Spaced(hs) && HeadsIn(rs, fs, hs) && h in hs
      requires forall i | 0 <= i < |fs| :: fs[i] != h
      modifies `mem, `freeRanges, `fs
      ensures Threaded() && OnlyHeaders(old(mem), mem, hs) && HeadsIn(rs, fs, hs)
      ensures fs == old(fs)[..j] + [h] + old(fs)[j..]
    {
      ghost var m, ns := mem, FreeNodes(fs);
      var node := h + FREE_NODE;
      assert forall i | 0 <= i < |fs| :: HeaderApart(fs[i], h);
      mem, freeRanges := InsertAfter(mem, freeRanges, anchor, node, ns, j);
      fs := fs[..j] + [h] + fs[j..];
      assert FreeNodes(fs) == Inserted(ns, j, node);
      FreeLinksFrame(m, mem, ranges, rs, fs, hs);
    }

    method UnlinkFree(h: Addr, ghost j: nat, ghost hs: set<Addr>)
      requires Threaded() && j < |fs| && h == fs[j]
      requires Spaced(hs) && HeadsIn(rs, fs, hs)
      modifies `mem, `freeRanges, `fs
      ensures Threaded() && OnlyHeaders(old(mem), mem, hs) && HeadsIn(rs, fs, hs)
      ensures fs == old(fs)[..j] + old(fs)[j + 1..]
      ensures forall r: Range | r.base == h && Field(old(mem), r) :: Field(mem, r)
    {
      ghost var m, ns := mem, FreeNodes(fs);
      var node := h + FREE_NODE;
      assert node == ns[j];
      mem, freeRanges := Remove(mem, freeRanges, node, ns, j);
      fs := fs[..j] + fs[j + 1..];
      assert FreeNodes(fs) == Removed(ns, j);
      FreeLinksFrame(m, mem, ranges, rs, fs, hs);
      OutsideFreeNodes(fs, hs, h, END);
      OutsideFreeNodes(fs, hs, h, FREE);
    }

    method SetEnd(h: Addr, end: Addr, ghost k: nat, ghost hs: set<Addr>)
      requires Threaded() && k < |rs| && h == rs[k].base
      requires Spaced(hs) && HeadsIn(rs, fs, hs)
      requires DistinctBases(rs)
      modifies `mem, `rs
      ensures Threaded() && OnlyHeaders(old(mem), mem, hs) && HeadsIn(rs, fs, hs)
      ensures rs == old(rs)[k := old(rs)[k].(end := end)]
    {
      OtherBases(rs, k);
      assert Field(mem, rs[k]);
      mem := mem[h + END := end];
      FieldsFrame(old(mem), mem, ranges, freeRanges, rs, fs, h, hs);
      rs := rs[k := rs[k].(end := end)];
      assert Bases(rs) == Bases(old(rs));
      forall i | 0 <= i < |rs| ensures Field(mem, rs[i]) {
        assert Field(old(mem), old(rs)[i]);
      }
    }

    method SetFree(h: Addr, ghost k: nat, ghost hs: set<Addr>)
      requires Threaded() && k < |rs| && h == rs[k].base
      requires Spaced(hs) && HeadsIn(rs, fs, hs)
      requires DistinctBases(rs)
      modifies `mem, `rs
      ensures Threaded() && OnlyHeaders(old(mem), mem, hs) && HeadsIn(rs, fs, hs)
      ensures rs == old(rs)[k := old(rs)[k].(free := true)]
    {
      OtherBases(rs, k);
      assert Field(mem, rs[k]);
      mem := mem[h + FREE := 1];
      FieldsFrame(old(mem), mem, ranges, freeRanges, rs, fs, h, hs);
      rs := rs[k := rs[k].(free := true)];
      assert Bases(rs) == Bases(old(rs));
      forall i | 0 <= i < |rs| ensures Field(mem, rs[i]) {
        assert Field(old(mem), old(rs)[i]);
      }
    }
  
    // ----- steps the operations share -----

    /** Takes a free range off both lists. Its header stays readable. */
    method DropFree(h: Addr, ghost k: nat, ghost hs: set<Addr>)
      requires Threaded() && k < |rs| && h == rs[k].base && h in fs
      requires Spaced(hs) && HeadsIn(rs, fs, hs)
      modifies `mem, `ranges, `freeRanges, `rs, `fs
      ensures Threaded() && OnlyHeaders(old(mem), mem, hs) && HeadsIn(rs, fs, hs)
      ensures rs == old(rs)[..k] + old(rs)[k + 1..] && fs == Without(old(fs), h)
      ensures Field(mem, old(rs)[k])
    {
      UnlinkRange(h, k, hs);
      ghost var m := mem;
      WithoutAt(fs, Position(fs, h));
      UnlinkFree(h, Position(fs, h), hs);
      OnlyHeadersTrans(old(mem), m, mem, hs);
    }

    /** The neighbours of a range, as its links say. */
    method Neighbours(h: Addr, ghost k: nat) returns (prev: Addr, next: Addr)
      requires Threaded() && k < |rs| && h == rs[k].base
      ensures prev == (if k == 0 then 0 else rs[k - 1].base) && next == (if k + 1 == |rs| then 0 else rs[k + 1].base)
    {
      assert Linked(mem, Bases(rs), k);
      prev, next := Load(mem, h), Load(mem, h + NEXT);
    }

    /** The two merge tests of BlFreeHeap. */
    method Merges(h: Addr, ghost k: nat) returns (prev: Addr, next: Addr, mergePrev: bool, mergeNext: bool)
      requires Threaded() && k < |rs| && h == rs[k].base && 0 !in Heads(rs)
      ensures mergePrev == MergesPrev(rs, k) && (mergePrev ==> prev == rs[k - 1].base)
      ensures mergeNext == MergesNext(rs, k) && (mergeNext ==> next == rs[k + 1].base)
    {
      prev, next := Neighbours(h, k);
      assert Field(mem, rs[k]);
      assert k > 0 ==> Field(mem, rs[k - 1]) && rs[k - 1].base in Heads(rs);
      assert k + 1 < |rs| ==> Field(mem, rs[k + 1]) && rs[k + 1].base in Heads(rs);
      mergePrev := prev != 0 && Load(mem, prev + FREE) != 0 && Load(mem, prev + END) == h;
      mergeNext := next != 0 && Load(mem, next + FREE) != 0 && Load(mem, h + END) == next;
    }
  
    // ----- BlFreeHeap -----

    /** BlFreeHeap on null or on the payload of a block in use. Nothing else is touched. */
    method FreeHeap(ptr: Addr)
      requires Valid() && (ptr == 0 || Live(Abs(), ptr))
      modifies this
      ensures Valid() && Abs() == Free(old(Abs()), ptr)
      ensures Served(old(mem), old(Abs()), Request.FreeHeap(ptr), mem, Abs())
    {
      if ptr == 0 {
        NothingTouched(mem, Abs(), ptr);
        return;
      }
      FreeLive(ptr);
    }

    method FreeLive(ptr: Addr)
      requires Valid() && Live(Abs(), ptr)
      modifies this
      ensures Valid() && Abs() == Free(old(Abs()), ptr)
      ensures Untouched(old(mem), mem, old(Abs()), Abs(), ptr)
    {
      ghost var s, k := Abs(), IndexOf(rs, ptr - HEADER);
      FreePlan(s, ptr, k);
      FreeBlock(ptr - HEADER, k);
      OnlyHeadersMono(old(mem), mem, Heads(s.ranges), Heads(s.ranges) + Heads(rs));
      HeaderWritesUntouched(old(mem), mem, s, Abs(), ptr);
    }

    method FreeBlock(range: Addr, ghost k: nat)
      requires Threaded() && Sound(rs, fs) && k < |rs| && range == rs[k].base && !rs[k].free
      modifies this
      ensures Threaded() && Abs() == FreeRange(old(Abs()), k)
      ensures OnlyHeaders(old(mem), mem, Heads(old(rs)))
    {
      var prev, next, mergePrev, mergeNext := Merges(range, k);
      ghost var hs, s := Heads(rs), Abs();
      FreeRangeForms(s, k);
      if mergePrev {
        if mergeNext {
          FreeBetween(range, prev, next, k, hs);
        } else {
          FreeIntoPrev(range, prev, k, hs);
        }
      } else {
        FreeAlone(range, next, mergeNext, k, hs);
      }
    }

    /** The free range before the block grows over it. */
    method FreeIntoPrev(range: Addr, prev: Addr, ghost k: nat, ghost hs: set<Addr>)
      requires Threaded() && Spaced(hs) && HeadsIn(rs, fs, hs) && DistinctBases(rs)
      requires 0 < k < |rs| && range == rs[k].base && prev == rs[k - 1].base
      modifies `mem, `ranges, `rs
      ensures Threaded() && OnlyHeaders(old(mem), mem, hs)
      ensures rs == Splice(old(rs), k - 1, k + 1, [old(rs)[k - 1].(end := old(rs)[k].end)])
    {
      ghost var rs0, m0 := rs, mem;
      RemovedDistinct(rs, k);
      UnlinkRange(range, k, hs);
      ghost var m1 := mem;
      assert rs[k - 1] == rs0[k - 1];
      SetEnd(prev, Load(mem, range + END), k - 1, hs);
      OnlyHeadersTrans(m0, m1, mem, hs);
      RemoveThenSet(rs0, k - 1, k + 1, rs0[k - 1].(end := rs0[k].end));
    }

    /** The free range before the block grows over it and over the free range behind it. */
    method FreeBetween(range: Addr, prev: Addr, next: Addr, ghost k: nat, ghost hs: set<Addr>)
      requires Threaded() && Spaced(hs) && HeadsIn(rs, fs, hs) && DistinctBases(rs)
      requires 0 < k < |rs| - 1 && range == rs[k].base && prev == rs[k - 1].base
      requires next == rs[k + 1].base && next in fs
      modifies `mem, `ranges, `freeRanges, `rs, `fs
      ensures Threaded() && OnlyHeaders(old(mem), mem, hs)
      ensures rs == Splice(old(rs), k - 1, k + 2, [old(rs)[k - 1].(end := old(rs)[k + 1].end)])
      ensures fs == Without(old(fs), next)
    {
      ghost var rs0, m0 := rs, mem;
      RemovedDistinct(rs, k);
      UnlinkRange(range, k, hs);
      ghost var m1 := mem;
      assert rs[k - 1] == rs0[k - 1] && rs[k] == rs0[k + 1];
      GrowOverNext(prev, next, k - 1, hs);
      OnlyHeadersTrans(m0, m1, mem, hs);
      assert rs == Splice(rs0, k - 1, k + 2, [rs0[k - 1].(end := rs0[k + 1].end)]);
    }

    /** The block becomes a free range of its own, after growing over the free range behind it. */
    method FreeAlone(range: Addr, next: Addr, mergeNext: bool, ghost k: nat, ghost hs: set<Addr>)
      requires Threaded() && Spaced(hs) && HeadsIn(rs, fs, hs) && DistinctBases(rs)
      requires k < |rs| && range == rs[k].base && range !in fs
      requires mergeNext ==> k + 1 < |rs| && next == rs[k + 1].base && next in fs
      modifies this
      ensures Threaded() && OnlyHeaders(old(mem), mem, hs) && carved == old(carved) && donated == old(donated)
      ensures rs == Splice(old(rs), k, if mergeNext then k + 2 else k + 1,
                           [Range(range, old(rs)[if mergeNext then k + 1 else k].end, true)])
      ensures fs == [range] + (if mergeNext then Without(old(fs), next) else old(fs))
    {
      ghost var m0 := mem;
      if mergeNext {
        GrowOverNext(range, next, k, hs);
        StillWithout(old(fs), next, range);
      }
      ghost var m1 := mem;
      MarkFree(range, k, hs);
      OnlyHeadersTrans(m0, m1, mem, hs);
    }

    method MarkFree(range: Addr, ghost k: nat, ghost hs: set<Addr>)
      requires Threaded() && Spaced(hs) && HeadsIn(rs, fs, hs) && DistinctBases(rs)
      requires k < |rs| && range == rs[k].base && range !in fs
      modifies `mem, `freeRanges, `rs, `fs
      ensures Threaded() && OnlyHeaders(old(mem), mem, hs)
      ensures rs == old(rs)[k := old(rs)[k].(free := true)] && fs == [range] + old(fs)
    {
      SetFree(range, k, hs);
      ghost var m1 := mem;
      LinkFree(range, 0, 0, hs);
      OnlyHeadersTrans(old(mem), m1, mem, hs);
    }

    /** A range takes over the free range behind it. */
    method GrowOverNext(range: Addr, next: Addr, ghost k: nat, ghost hs: set<Addr>)
      requires Threaded() && Spaced(hs) && HeadsIn(rs, fs, hs) && DistinctBases(rs)
      requires k + 1 < |rs| && range == rs[k].base && next == rs[k + 1].base && next in fs
      modifies `mem, `ranges, `freeRanges, `rs, `fs
      ensures Threaded() && OnlyHeaders(old(mem), mem, hs) && HeadsIn(rs, fs, hs) && DistinctBases(rs)
      ensures rs == Splice(old(rs), k, k + 2, [old(rs)[k].(end := old(rs)[k + 1].end)])
      ensures fs == Without(old(fs), next)
    {
      ghost var rs0, m0 := rs, mem;
      RemovedDistinct(rs, k + 1);
      DropFree(next, k + 1, hs);
      ghost var m1 := mem;
      assert rs[k] == rs0[k];
      SetDistinct(rs, k, rs[k].(end := rs0[k + 1].end));
      SetEnd(range, Load(mem, next + END), k, hs);
      OnlyHeadersTrans(m0, m1, mem, hs);
      RemoveThenSet(rs0, k, k + 2, rs0[k].(end := rs0[k + 1].end));
    }
  
    // ----- BlAllocateHeap -----

    /** Cuts the range that was found. */
    method CutRange(range: Addr, rangeEnd: Addr, f: Fit, permanent: bool)
      requires f.Fit?
      modifies `mem, `ranges, `freeRanges
      ensures Lists() == CutWrites(old(Lists()), Range(range, rangeEnd, true), f, permanent)
    {
      var allocEnd := SplitBack(range, rangeEnd, f);
      var anchor := KeepFront(range, f);
      if !permanent {
        PlaceBlock(f.allocBase, allocEnd, anchor);
      }
    }

    /** Splits off what lies behind the block when it can hold a header. */
    method SplitBack(range: Addr, rangeEnd: Addr, f: Fit) returns (allocEnd: Addr)
      requires f.Fit?
      modifies `mem, `ranges, `freeRanges
      ensures Lists() == HeapCut.SplitBack(old(Lists()), Range(range, rangeEnd, true), f)
      ensures allocEnd == BlockEnd(Range(range, rangeEnd, true), f)
    {
      if rangeEnd - f.allocEnd >= HEADER {
        var newRange := f.allocEnd;
        mem := mem[newRange + END := rangeEnd];
        mem := mem[newRange + FREE := 1];
        mem, ranges := InsertAfter(mem, ranges, range, newRange);
        mem, freeRanges := InsertAfter(mem, freeRanges, range + FREE_NODE, newRange + FREE_NODE);
        allocEnd := newRange;
      } else {
        allocEnd := rangeEnd;
      }
    }

    /** Ends the range in front of the block, or drops it when it cannot hold its header any more. */
    method KeepFront(range: Addr, f: Fit) returns (anchor: Addr)
      requires f.Fit?
      modifies `mem, `ranges, `freeRanges
      ensures Lists() == HeapCut.KeepFront(old(Lists()), range, f)
      ensures anchor == AnchorOf(old(Lists()), range, f)
    {
      if f.allocBase - range >= HEADER {
        mem := mem[range + END := f.allocBase];
        anchor := range;
      } else {
        anchor := Load(mem, range);
        mem, ranges := Remove(mem, ranges, range);
        mem, freeRanges := Remove(mem, freeRanges, range + FREE_NODE);
      }
    }

    method PlaceBlock(allocBase: Addr, allocEnd: Addr, anchor: Addr)
      modifies `mem, `ranges, `freeRanges
      ensures Lists() == HeapCut.PlaceBlock(old(Lists()), anchor, allocBase, allocEnd)
    {
      mem := mem[allocBase + END := allocEnd];
      mem := mem[allocBase + FREE := 0];
      mem, ranges := InsertAfter(mem, ranges, anchor, allocBase);
    }

    /** First fit over the free list. Running out of memory crashes instead of returning. */
    method AllocateHeap(size: nat, alignment: nat, permanent: bool) returns (ptr: Addr, crashed: bool)
      requires Valid() && Legal(Abs(), Request.AllocateHeap(size, alignment, permanent))
      modifies this
      ensures crashed <==> size > 0 && !HeapHasRoom(old(rs), size, alignment, permanent)
      ensures crashed <==> Allocate(old(Abs()), size, alignment, permanent).Crash?
      ensures !crashed ==> Allocate(old(Abs()), size, alignment, permanent) == Done(Abs(), ptr)
      ensures crashed ==> Abs() == old(Abs()) && mem == old(mem)
      ensures Valid()
      ensures !crashed ==> Served(old(mem), old(Abs()), Request.AllocateHeap(size, alignment, permanent), mem, Abs())
    {
      if size == 0 {
        NothingTouched(mem, Abs(), 0);
        return 0, false;
      }
      AllocateExact(Abs(), size, alignment, permanent);
      ptr, crashed := AllocateSome(size, alignment, permanent);
    }

    method AllocateSome(size: nat, alignment: nat, permanent: bool) returns (ptr: Addr, crashed: bool)
      requires Valid() && Legal(Abs(), Request.AllocateHeap(size, alignment, permanent)) && size > 0
      modifies this
      ensures crashed <==> Allocate(old(Abs()), size, alignment, permanent).Crash?
      ensures !crashed ==> Allocate(old(Abs()), size, alignment, permanent) == Done(Abs(), ptr)
      ensures crashed ==> Abs() == old(Abs()) && mem == old(mem)
      ensures Valid() && (!crashed ==> Untouched(old(mem), mem, old(Abs()), Abs(), 0))
    {
      var align := if alignment < ALIGNMENT then ALIGNMENT else alignment;
      var need := WordUp(size);
      NeedIsSize(size);
      ghost var s := Abs();
      var range, rangeEnd, f, k, j := FindFit(need, align, permanent);
      AllocatePlan(s, size, alignment, permanent, need, align, j, k, f);
      if range == 0 {
        return 0, true;
      }
      assert Represents(Lists(), rs, fs) && rs[k] == Range(range, rangeEnd, true);
      TakeFound(range, rangeEnd, f, permanent, need, align, k, j, Cut(s, k, j, f, permanent));
      ptr, crashed := f.valueBase, false;
    }

    /** Takes the range that was found; both lists become those of the specification. */
    method TakeFound(range: Addr, rangeEnd: Addr, f: Fit, permanent: bool,
                     ghost need: nat, ghost align: nat, ghost k: nat, ghost j: nat, ghost cut: State)
      requires Found(Lists(), Abs(), k, j, Range(range, rangeEnd, true), f, need, align, permanent)
      requires cut == Cut(Abs(), k, j, f, permanent) && Leaves(rs, cut.ranges, 0)
      modifies this
      ensures Valid() && Abs() == cut
      ensures Untouched(old(mem), mem, old(Abs()), Abs(), 0)
    {
      ghost var t, s := Lists(), Abs();
      CutRange(range, rangeEnd, f, permanent);
      FitHolds(t, Lists(), s, cut, k, j, Range(range, rangeEnd, true), f, need, align, permanent);
      Enter(cut);
    }

    /** The lists in memory are those of `s`. */
    ghost method Enter(s: State)
      requires Represents(Lists(), s.ranges, s.free) && Inv(s)
      modifies `rs, `fs, `carved, `donated
      ensures Valid() && Abs() == s
    {
      rs, fs, carved, donated := s.ranges, s.free, s.carved, s.donated;
    }

    /** The loop of BlAllocateHeap up to the first range that fits. */
    method FindFit(need: nat, align: nat, permanent: bool)
      returns (range: Addr, rangeEnd: Addr, f: Fit, ghost k: nat, ghost j: nat)
      requires Valid()
      ensures j == FirstFit(rs, fs, need, align, HeadExtra(permanent))
      ensures range == 0 <==> j == |fs|
      ensures range != 0 ==> Probed(need, align, permanent, j, range, rangeEnd, f, k) && f.Fit?
    {
      var node := freeRanges.head;
      range, rangeEnd, f, j, k := 0, 0, NoFit, 0, 0;
      assert fs[0..] == fs;
      while node != 0
        invariant j <= |fs| && node == At(FreeNodes(fs), j)
        invariant FirstFit(rs, fs, need, align, HeadExtra(permanent)) ==
                  j + FirstFit(rs, fs[j..], need, align, HeadExtra(permanent))
        decreases |fs| - j
      {
        range, rangeEnd, f, node, k := Probe(node, need, align, permanent, j);
        if f.Fit? {
          return;
        }
        j := j + 1;
      }
      range := 0;
      NullAtEnd(FreeNodes(fs), j);
    }

    /** The range at position `j` of the free list, as an allocation reads it. */
    ghost predicate Probed(need: nat, align: nat, permanent: bool, j: nat,
                           range: Addr, rangeEnd: Addr, f: Fit, k: nat)
      reads this
    {
      && j < |fs| && range == fs[j] && k == IndexOf(rs, range) && k < |rs| && rs[k] == Range(range, rangeEnd, true)
      && f == TryFit(rs[k], need, align, HeadExtra(permanent))
    }

    method Probe(node: Addr, need: nat, align: nat, permanent: bool, ghost j: nat)
      returns (range: Addr, rangeEnd: Addr, f: Fit, next: Addr, ghost k: nat)
      requires Valid() && j < |fs| && node == FreeNodes(fs)[j]
      ensures Probed(need, align, permanent, j, range, rangeEnd, f, k) && range != 0
      ensures next == At(FreeNodes(fs), j + 1)
      ensures FirstFit(rs, fs[j..], need, align, HeadExtra(permanent)) ==
              if f.Fit? then 0 else 1 + FirstFit(rs, fs[j + 1..], need, align, HeadExtra(permanent))
    {
      range := node - FREE_NODE;
      k := IndexOf(rs, range);
      FreeHeader(Abs(), mem, ranges, freeRanges, j);
      assert NodeOk(Bases(rs), k);
      rangeEnd := Load(mem, range + END);
      f := TryFit(Range(range, rangeEnd, true), need, align, if permanent then 0 else HEADER);
      FirstFitStep(rs, fs, j, need, align, HeadExtra(permanent));
      next := Load(mem, node + NEXT);
    }

    /** A new free header, first on the free list, that completes the lists of a sound heap. */
    method NewFree(h: Addr, end: Addr, anchor: Addr, ghost k: nat, ghost target: State)
      requires Threaded() && k <= |rs| && anchor == At(Bases(rs), k - 1) && Sound(target.ranges, target.free)
      requires target.ranges == rs[..k] + [Range(h, end, true)] + rs[k..] && target.free == [h] + fs
      modifies `mem, `ranges, `freeRanges, `rs, `fs
      ensures Threaded() && OnlyHeaders(old(mem), mem, Heads(target.ranges))
      ensures rs == target.ranges && fs == target.free
    {
      ghost var hs := Heads(target.ranges);
      NewFreeReady(target, rs, fs, h, end, k);
      LinkRange(h, end, true, anchor, k, hs);
      ghost var m1 := mem;
      LinkFree(h, 0, 0, hs);
      OnlyHeadersTrans(old(mem), m1, mem, hs);
    }

    // ----- BlAddHeapRange -----

    /** BlAddHeapRange. No block is touched, and no memory outside of the heap. */
    method AddHeapRange(base: Addr, size: nat)
      requires Valid() && RegionOk(Abs(), base, size) && Ascending(Abs(), base, size)
      modifies this
      ensures Valid() && Abs() == AddRange(old(Abs()), base, size)
      ensures Served(old(mem), old(Abs()), Request.AddHeapRange(base, size), mem, Abs())
    {
      AddExact(Abs(), base, size);
      AddLeaves(Abs(), base, size);
      StepLedger(Abs(), Request.AddHeapRange(base, size));
      var end0 := WordDown(W32(base + size));
      var base0 := WordUp(base);
      if base0 >= end0 {
        NothingTouched(mem, Abs(), 0);
        return;
      }
      AddPart(base0, end0, Below(rs, base0), AddRange(Abs(), base, size));
    }

    /** The part of the region that lies on word boundaries. */
    method AddPart(base0: Addr, end0: Addr, ghost p: nat, ghost added: State)
      requires Valid() && p == Below(rs, base0) && added == AddAt(Abs(), p, base0, end0)
      requires Inv(added) && Leaves(rs, added.ranges, 0) && LedgerGrows(Abs(), added)
      modifies this
      ensures Valid() && Abs() == added
      ensures Untouched(old(mem), mem, old(Abs()), Abs(), 0)
    {
      ghost var s := Abs();
      var prev, next, place := FindPlace(base0);
      InvIsSound(s);
      InvIsSound(added);
      AddPiece(base0, end0, prev, next, p, added);
      HeaderWritesUntouched(old(mem), mem, s, Abs(), 0);
    }

    /** The loop of BlAddHeapRange: the last range below `base`, and the one behind it if there is one. */
    method FindPlace(base: Addr) returns (prev: Addr, next: Addr, ghost p: nat)
      requires Threaded()
      ensures p == Below(rs, base) && prev == At(Bases(rs), p - 1)
      ensures next == if p > 0 then At(Bases(rs), p) else 0
    {
      prev, p := 0, 0;
      var range := ranges.head;
      while range != 0
        invariant p <= |rs| && range == At(Bases(rs), p) && prev == At(Bases(rs), p - 1)
        invariant forall i | 0 <= i < p :: rs[i].base < base
        decreases |rs| - p
      {
        assert Linked(mem, Bases(rs), p);
        if range >= base {
          break;
        }
        prev := range;
        p := p + 1;
        range := Load(mem, range + NEXT);
      }
      assert p < |rs| ==> NodeOk(Bases(rs), p);
      assert p > 0 ==> Linked(mem, Bases(rs), p - 1) && NodeOk(Bases(rs), p - 1);
      next := if prev != 0 then Load(mem, prev + NEXT) else 0;
    }
  
    method AddPiece(base: Addr, end: Addr, prev: Addr, next: Addr, ghost p: nat, ghost added: State)
      requires Threaded() && Sound(rs, fs) && p <= |rs|
      requires prev == At(Bases(rs), p - 1) && next == if p > 0 then At(Bases(rs), p) else 0
      requires added == AddAt(Abs(), p, base, end) && Sound(added.ranges, added.free)
      modifies this
      ensures Threaded() && Abs() == added
      ensures OnlyHeaders(old(mem), mem, Heads(old(rs)) + Heads(rs))
    {
      var base1, end1, mergePrev, mergeNext := Clamp(base, end, prev, next, p);
      AddAtForms(Abs(), p, base, end, base1, end1, mergePrev, mergeNext);
      if base1 >= end1 || (!mergePrev && !mergeNext && end1 - base1 < HEADER) {
        return;
      }
      DonatePiece(base1, end1, prev, next, mergePrev, mergeNext, p, added);
      donated := added.donated;
    }

    method Clamp(base: Addr, end: Addr, prev: Addr, next: Addr, ghost p: nat)
      returns (base1: Addr, end1: Addr, mergePrev: bool, mergeNext: bool)
      requires Threaded() && p <= |rs|
      requires prev == At(Bases(rs), p - 1) && next == if p > 0 then At(Bases(rs), p) else 0
      ensures Clamped(rs, p, base, end, base1, end1, mergePrev, mergeNext)
    {
      assert p > 0 ==> NodeOk(Bases(rs), p - 1) && Field(mem, rs[p - 1]);
      assert p < |rs| ==> NodeOk(Bases(rs), p) && Field(mem, rs[p]);
      base1 := if prev != 0 && Load(mem, prev + END) > base then Load(mem, prev + END) else base;
      end1 := if next != 0 && end > next then next else end;
      mergePrev := prev != 0 && Load(mem, prev + FREE) != 0 && Load(mem, prev + END) == base1;
      mergeNext := next != 0 && Load(mem, next + FREE) != 0 && end1 == next;
    }

    method DonatePiece(base: Addr, end: Addr, prev: Addr, next: Addr, mergePrev: bool, mergeNext: bool,
                       ghost p: nat, ghost target: State)
      requires Threaded() && Sound(rs, fs) && p <= |rs| && base < end && prev == At(Bases(rs), p - 1)
      requires mergePrev ==> p > 0 && rs[p - 1].free
      requires mergeNext ==> p < |rs| && next == rs[p].base && rs[p].free
      requires Sound(target.ranges, target.free) && Donates(rs, fs, p, base, end, mergePrev, mergeNext, target)
      modifies `mem, `ranges, `freeRanges, `rs, `fs
      ensures Threaded() && rs == target.ranges && fs == target.free
      ensures OnlyHeaders(old(mem), mem, Heads(old(rs)) + Heads(rs))
    {
      ghost var hs, all := Heads(rs), Heads(rs) + Heads(target.ranges);
      if mergePrev {
        if mergeNext {
          GrowOverNext(prev, next, p - 1, hs);
        } else {
          SetEnd(prev, end, p - 1, hs);
        }
        OnlyHeadersMono(old(mem), mem, hs, all);
      } else if mergeNext {
        PullNext(base, prev, next, p, hs, target);
      } else {
        NewFree(base, end, prev, p, target);
        OnlyHeadersMono(old(mem), mem, Heads(target.ranges), all);
      }
    }

    /** The free range behind the new memory gets its header moved to the front of it. */
    method PullNext(base: Addr, prev: Addr, next: Addr, ghost p: nat, ghost hs: set<Addr>, ghost target: State)
      requires Threaded() && p < |rs| && next == rs[p].base && rs[p].free && next in fs && prev == At(Bases(rs), p - 1)
      requires Spaced(hs) && HeadsIn(rs, fs, hs) && Sound(target.ranges, target.free)
      requires target.ranges == rs[..p] + [Range(base, rs[p].end, true)] + rs[p + 1..]
      requires target.free == [base] + Without(fs, next)
      modifies `mem, `ranges, `freeRanges, `rs, `fs
      ensures Threaded() && OnlyHeaders(old(mem), mem, hs + Heads(target.ranges))
      ensures rs == target.ranges && fs == target.free
    {
      ghost var m0, rs0 := mem, rs;
      DropFree(next, p, hs);
      ghost var m1 := mem;
      assert rs[..p] == rs0[..p] && rs[p..] == rs0[p + 1..];
      NewFree(base, Load(mem, next + END), prev, p, target);
      OnlyHeadersJoin(m0, m1, mem, hs, Heads(target.ranges));
    }
  
    // ----- BlResizeHeap -----

    /** BlResizeHeap. Nothing but the resized block is touched, and that one keeps what it held. */
    method ResizeHeap(ptr: Addr, newSize: nat, alignment: nat) returns (newPtr: Addr, crashed: bool)
      requires Valid() && Legal(Abs(), Request.ResizeHeap(ptr, newSize, alignment))
      modifies this
      ensures crashed <==> && newSize > 0 && !HeapHasRoom(old(rs), newSize, alignment, false)
                           && (ptr == 0 || MustMove(old(rs), old(rs)[IndexOf(old(rs), ptr - 24)], newSize))
      ensures crashed <==> Resize(old(Abs()), ptr, newSize, alignment).Crash?
      ensures !crashed ==> Resize(old(Abs()), ptr, newSize, alignment) == Done(Abs(), newPtr)
      ensures crashed ==> Abs() == old(Abs()) && mem == old(mem)
      ensures Valid()
      ensures !crashed ==> Served(old(mem), old(Abs()), Request.ResizeHeap(ptr, newSize, alignment), mem, Abs())
      ensures !crashed && ptr != 0 && newSize != 0 ==>
                Moved(old(mem), mem, ptr, newPtr, PayloadSize(old(Abs()), ptr))
    {
      ResizeCrashes(Abs(), ptr, newSize, alignment);
      if ptr == 0 {
        newPtr, crashed := AllocateHeap(newSize, alignment, false);
        return;
      }
      if newSize == 0 {
        FreeHeap(ptr);
        return 0, false;
      }
      NeedIsSize(newSize);
      newPtr, crashed := ResizeLive(ptr, WordUp(newSize), alignment, IndexOf(rs, ptr - HEADER));
    }

    method ResizeLive(ptr: Addr, need: nat, alignment: nat, ghost k: nat) returns (newPtr: Addr, crashed: bool)
      requires Valid() && k < |rs| && rs[k].base + HEADER == ptr && !rs[k].free
      requires NeedOk(need) && AlignmentOk(alignment) && FitsInPlace(Abs(), k, need)
      modifies this
      ensures Resized(old(Abs()), k, need, alignment, crashed, newPtr, Abs())
      ensures Valid() && (crashed ==> mem == old(mem))
      ensures !crashed ==> Untouched(old(mem), mem, old(Abs()), Abs(), ptr)
      ensures !crashed ==> Moved(old(mem), mem, ptr, newPtr, old(rs)[k].end - ptr)
    {
      var end, next, mergeNext := ReadBlock(ptr - HEADER, k);
      var newEnd, oldSize := ptr + need, end - ptr;
      if newEnd <= end || mergeNext {
        StayInPlace(ptr, next, newEnd, end, oldSize, need, alignment, k);
        return ptr, false;
      }
      newPtr, crashed := MoveBlock(ptr, oldSize, need, alignment, k);
    }

    method StayInPlace(ptr: Addr, next: Addr, newEnd: Addr, end: Addr, ghost n: nat,
                       ghost need: nat, ghost alignment: nat, ghost k: nat)
      requires Valid() && k < |rs| && rs[k].base + HEADER == ptr && !rs[k].free && end == rs[k].end && ptr + n == end
      requires NeedOk(need) && FitsInPlace(Abs(), k, need) && StaysInPlace(Abs(), k, need) && newEnd == ptr + need
      requires MergesNext(rs, k) ==> next == rs[k + 1].base
      modifies this
      ensures Resized(old(Abs()), k, need, alignment, false, ptr, Abs())
      ensures Valid() && Untouched(old(mem), mem, old(Abs()), Abs(), ptr)
      ensures Moved(old(mem), mem, ptr, ptr, n)
    {
      ResizeStays(Abs(), k, need, alignment, ptr, newEnd);
      CanGrowHere(Abs(), k, need, ptr, newEnd);
      if newEnd > end {
        GrowInPlace(ptr, next, newEnd, n, k);
      } else {
        NothingTouched(mem, Abs(), ptr);
      }
    }

    method ReadBlock(range: Addr, ghost k: nat) returns (end: Addr, next: Addr, mergeNext: bool)
      requires Valid() && k < |rs| && rs[k].base == range && !rs[k].free
      ensures end == rs[k].end && range + HEADER <= end && Aligned(end - range - HEADER)
      ensures mergeNext == MergesNext(rs, k)
      ensures mergeNext ==> next == rs[k + 1].base
    {
      InvIsSound(Abs());
      assert Field(mem, rs[k]) && RangeOk(rs[k]);
      end := Load(mem, range + END);
      var prev, mergePrev;
      prev, next, mergePrev, mergeNext := Merges(range, k);
    }

    method GrowInPlace(ptr: Addr, next: Addr, newEnd: Addr, ghost n: nat, ghost k: nat)
      requires Valid() && k + 1 < |rs| && rs[k].base + HEADER == ptr && rs[k + 1].base == next
      requires CanGrow(rs[k], rs[k + 1], newEnd) && ptr + n == rs[k].end
      modifies this
      ensures Valid() && Abs() == Grow(old(Abs()), k, newEnd)
      ensures Untouched(old(mem), mem, old(Abs()), Abs(), ptr)
      ensures Moved(old(mem), mem, ptr, ptr, n)
    {
      ghost var s := Abs();
      ghost var grown := Grow(s, k, newEnd);
      GrowPlan(s, k, newEnd);
      GrowLeaves(s, k, newEnd, ptr);
      GrowLists(ptr - HEADER, next, newEnd, k, grown);
      HeaderWritesUntouched(old(mem), mem, s, Abs(), ptr);
      GrownKeeps(old(mem), mem, s.ranges, rs, k, ptr, n);
    }

    method GrowLists(range: Addr, next: Addr, newEnd: Addr, ghost k: nat, ghost grown: State)
      requires Threaded() && Sound(rs, fs) && k + 1 < |rs| && rs[k].base == range && rs[k + 1].base == next
      requires rs[k + 1].free && Sound(grown.ranges, grown.free) && Grows(rs, fs, k, newEnd, grown)
      modifies `mem, `ranges, `freeRanges, `rs, `fs
      ensures Threaded() && rs == grown.ranges && fs == grown.free
      ensures OnlyHeaders(old(mem), mem, Heads(old(rs)) + Heads(rs))
    {
      ghost var hs := Heads(rs);
      assert Field(mem, rs[k + 1]);
      var nextEnd := Load(mem, next + END);
      if nextEnd - newEnd >= HEADER {
        TakePart(range, next, newEnd, nextEnd, k, grown);
      } else {
        GrowOverNext(range, next, k, hs);
        OnlyHeadersMono(old(mem), mem, hs, hs + Heads(rs));
      }
    }

    method TakePart(range: Addr, next: Addr, newEnd: Addr, nextEnd: Addr, ghost k: nat, ghost grown: State)
      requires Threaded() && Sound(rs, fs) && k + 1 < |rs| && rs[k].base == range && rs[k + 1].base == next
      requires next in fs && nextEnd == rs[k + 1].end && Sound(grown.ranges, grown.free)
      requires grown.ranges == rs[..k] + [rs[k].(end := newEnd)] + [Range(newEnd, nextEnd, true)] + rs[k + 2..]
      requires grown.free == [newEnd] + Without(fs, next)
      modifies `mem, `ranges, `freeRanges, `rs, `fs
      ensures Threaded() && rs == grown.ranges && fs == grown.free
      ensures OnlyHeaders(old(mem), mem, Heads(old(rs)) + Heads(rs))
    {
      ghost var hs, rs0 := Heads(rs), rs;
      DropFree(next, k + 1, hs);
      ghost var m1 := mem;
      assert rs[k] == rs0[k] && rs[..k] == rs0[..k] && rs[k + 1..] == rs0[k + 2..];
      SplitGrown(range, newEnd, nextEnd, k, grown);
      OnlyHeadersJoin(old(mem), m1, mem, hs, Heads(rs));
    }

    /** The rest of the free range gets a new header behind the grown block. */
    method SplitGrown(range: Addr, newEnd: Addr, nextEnd: Addr, ghost k: nat, ghost grown: State)
      requires Threaded() && k < |rs| && rs[k].base == range && Sound(grown.ranges, grown.free)
      requires grown.ranges == rs[..k] + [rs[k].(end := newEnd)] + [Range(newEnd, nextEnd, true)] + rs[k + 1..]
      requires grown.free == [newEnd] + fs
      modifies `mem, `ranges, `freeRanges, `rs, `fs
      ensures Threaded() && rs == grown.ranges && fs == grown.free
      ensures OnlyHeaders(old(mem), mem, Heads(rs))
    {
      ghost var half := grown.(ranges := grown.ranges[k := rs[k]]);
      HalfGrown(rs, fs, k, newEnd, Range(newEnd, nextEnd, true), grown);
      NewFree(newEnd, nextEnd, range, k + 1, half);
      ghost var m1 := mem;
      SetEnd(range, newEnd, k, Heads(half.ranges));
      OnlyHeadersTrans(old(mem), m1, mem, Heads(half.ranges));
    }

    /** Allocates a new block, copies the payload and frees the old block. */
    method MoveBlock(ptr: Addr, oldSize: nat, need: nat, alignment: nat, ghost k: nat)
      returns (newPtr: Addr, crashed: bool)
      requires Valid() && k < |rs| && rs[k].base + HEADER == ptr && !rs[k].free && oldSize == rs[k].end - ptr
      requires NeedOk(need) && AlignmentOk(alignment) && oldSize < need && Aligned(oldSize) && !MergesNext(rs, k)
      modifies this
      ensures Resized(old(Abs()), k, need, alignment, crashed, newPtr, Abs())
      ensures Valid() && (crashed ==> mem == old(mem))
      ensures !crashed ==> Untouched(old(mem), mem, old(Abs()), Abs(), ptr)
      ensures !crashed ==> Moved(old(mem), mem, ptr, newPtr, oldSize)
    {
      ghost var s := Abs();
      newPtr, crashed := AllocateHeap(need, alignment, false);
      ghost var s1 := Abs();
      if !crashed {
        MoveTo(ptr, newPtr, oldSize, s, k, need, alignment, old(mem));
      }
      ResizeMoves(s, k, need, alignment, ptr, crashed, newPtr, s1, Abs());
    }

    method MoveTo(ptr: Addr, newPtr: Addr, oldSize: nat,
                  ghost s: State, ghost k: nat, ghost need: nat, ghost alignment: nat, ghost m0: Memory)
      requires Valid() && Inv(s) && Allocate(s, need, alignment, false) == Done(Abs(), newPtr)
      requires k < |s.ranges| && !s.ranges[k].free && s.ranges[k].base + HEADER == ptr
      requires ptr + oldSize == s.ranges[k].end && Aligned(oldSize) && oldSize < need
      requires NeedOk(need) && AlignmentOk(alignment) && Untouched(m0, mem, s, Abs(), 0)
      modifies this
      ensures Valid() && Abs() == Free(old(Abs()), ptr)
      ensures Untouched(m0, mem, s, Abs(), ptr) && Moved(m0, mem, ptr, newPtr, oldSize)
    {
      ghost var s1, m1 := Abs(), mem;
      StepLedger(s, Request.AllocateHeap(need, alignment, false));
      HasAt(s.ranges, k);
      ghost var b := MovePlan(s, Abs(), s.ranges[k], need, alignment, newPtr, oldSize);
      MoveInto(ptr, newPtr, oldSize, s.ranges[k], b);
      MoveUntouched(m0, m1, mem, s, s1, Abs(), k, b.base, ptr, newPtr, oldSize);
    }

    method MoveInto(ptr: Addr, newPtr: Addr, oldSize: nat, ghost r: Range, ghost b: Range)
      requires Valid() && TwoBlocks(rs, r, b, oldSize) && ptr == r.base + HEADER && newPtr == b.base + HEADER
      modifies this
      ensures Valid() && Abs() == Free(old(Abs()), ptr)
      ensures KeepsOthers(old(mem), mem, old(rs), rs, ptr, b.base) && KeepsRest(old(mem), mem, old(Abs()), Abs())
      ensures LedgerGrows(old(Abs()), Abs()) && Moved(old(mem), mem, ptr, newPtr, oldSize)
    {
      ghost var s, m1 := Abs(), mem;
      CopyWords(newPtr, ptr, oldSize, r, b);
      ghost var m2 := mem;
      FreeOther(ptr, oldSize, r, b);
      MovedThenFreed(m1, m2, mem, s, Abs(), ptr, newPtr, r, b, oldSize);
    }

    /** BlFreeHeap on the first of two blocks. */
    method FreeOther(ptr: Addr, ghost n: nat, ghost r: Range, ghost b: Range)
      requires Valid() && TwoBlocks(rs, r, b, n) && ptr == r.base + HEADER
      modifies this
      ensures Valid() && Abs() == Free(old(Abs()), ptr)
      ensures Untouched(old(mem), mem, old(Abs()), Abs(), ptr) && LedgerGrows(old(Abs()), Abs())
    {
      assert Live(Abs(), ptr);
      StepLedger(Abs(), Request.FreeHeap(ptr));
      FreeLive(ptr);
    }

    /** BlCopyMemory between two blocks in use, whole words at a time. */
    method CopyWords(dest: Addr, src: Addr, count: nat, ghost r: Range, ghost b: Range)
      requires Valid() && TwoBlocks(rs, r, b, count) && dest == b.base + HEADER && src == r.base + HEADER
      modifies `mem
      ensures Valid()
      ensures CopiedOnly(old(mem), mem, src, dest, count)
    {
      var done := 0;
      while done < count
        invariant done <= count && Aligned(done)
        invariant CopiedOnly(old(mem), mem, src, dest, done)
      {
        MovedStep(old(mem), mem, src, dest, done, count);
        mem := mem[dest + done := Load(mem, src + done)];
        done := done + 4;
      }
      CopyOutside(rs, b, dest, count);
      InvIsSound(Abs());
      RepFrame(old(mem), mem, ranges, freeRanges, rs, fs);
    }
  }
}
