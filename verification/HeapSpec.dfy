/** What bootloader/memory.c does, stated on the sequence of ranges instead of on headers in memory.

    A range starts with a 24-byte `struct HeapRange` header. The state also keeps a ledger the C
    program does not have: which bytes were donated, and which pieces left both lists for good. */
module HeapSpec {
  import opened Basics
  import opened Lists

  const HEADER := 24
  const ALIGNMENT := 4

  /** The two list nodes at the start of a header; End and Free follow. */
  const LINKS := 16

  datatype Range = Range(base: Addr, end: Addr, free: bool)

  /** Memory no header describes any more: a permanent block, or the gap in front of an aligned one. */
  datatype Carved = Carved(lo: Addr, hi: Addr, gap: bool)

  /** `ranges` is BlHeapRanges from head to tail, `free` the headers on BlFreeRanges in list order. */
  datatype State = State(ranges: seq<Range>, free: seq<Addr>, carved: seq<Carved>, donated: set<Addr>)

  const EMPTY_HEAP := State([], [], [], {})

  /** What a call returns: a pointer (0 for null), unless it crashed. */
  datatype Outcome = Crash | Done(s: State, ptr: Addr)

  // ----- arithmetic of the C macros -----

  predicate IsPow2(n: nat) {
    n == 1 || (n > 1 && n % 2 == 0 && IsPow2(n / 2))
  }

  /** BL_ALIGN_DOWN for a power of two `y`: as many low bits are cleared as `y` has zeros. */
  function AlignDown(x: nat, y: nat): nat {
    if y <= 1 then x else 2 * AlignDown(x / 2, y / 2)
  }

  /** The low bits that a power of two `y` has as zeros are clear: `x` is aligned to `y`. */
  predicate AlignedTo(x: nat, y: nat) {
    y <= 1 || (x % 2 == 0 && AlignedTo(x / 2, y / 2))
  }

  /** BL_ALIGN_UP in 32-bit arithmetic, so the addition wraps. */
  function AlignUp(x: nat, y: nat): nat {
    AlignDown(W32(x + y - 1), y)
  }

  /** A multiple of HEAP_ALIGNMENT. */
  predicate Aligned(x: nat) {
    x % 4 == 0
  }

  /** BL_ALIGN_DOWN(x, HEAP_ALIGNMENT) */
  function WordDown(x: nat): (r: nat)
    ensures Aligned(r) && r <= x < r + 4
  {
    x - x % 4
  }

  /** BL_ALIGN_UP(x, HEAP_ALIGNMENT) */
  function WordUp(x: nat): (r: nat)
    ensures Aligned(r) && (x + 3 < WORD32 ==> x <= r < x + 4)
  {
    WordDown(W32(x + 3))
  }

  // ----- the invariant -----

  predicate RangeOk(r: Range) {
    Aligned(r.base) && Aligned(r.end) && 0 < r.base && r.base + HEADER <= r.end < WORD32
  }

  /** `r` lies below `q`, and the two are not free neighbours that should have been merged. */
  predicate Before(r: Range, q: Range) {
    r.end <= q.base && !(r.free && q.free && r.end == q.base)
  }

  ghost predicate Chain(rs: seq<Range>) {
    && (forall i {:trigger RangeOk(rs[i])} | 0 <= i < |rs| :: RangeOk(rs[i]))
    && (forall i, j {:trigger Before(rs[i], rs[j])} | 0 <= i < j < |rs| :: Before(rs[i], rs[j]))
  }

  function FreeBases(rs: seq<Range>): seq<Addr> {
    if rs == [] then []
    else (if rs[0].free then [rs[0].base] else []) + FreeBases(rs[1..])
  }

  function Hit(lo: Addr, hi: Addr, a: Addr): nat {
    if lo <= a < hi then 1 else 0
  }

  /** The bytes from `lo` up to `hi`. */
  function Region(lo: Addr, hi: Addr): set<Addr> {
    set a: Addr | lo <= a < hi && Hit(lo, hi, a) == 1
  }

  /** How many ranges contain the byte `a`. */
  function Hits(rs: seq<Range>, a: Addr): nat {
    if rs == [] then 0 else Hit(rs[0].base, rs[0].end, a) + Hits(rs[1..], a)
  }

  /** How many carved pieces contain the byte `a`. */
  function CarvedHits(cs: seq<Carved>, a: Addr): nat {
    if cs == [] then 0 else Hit(cs[0].lo, cs[0].hi, a) + CarvedHits(cs[1..], a)
  }

  predicate CarvedOk(c: Carved) {
    c.lo < c.hi && (c.gap ==> c.hi - c.lo < HEADER)
  }

  /** Every donated byte is in exactly one range or carved piece, and no other byte is in any. */
  ghost predicate Conserved(s: State) {
    forall a: Addr {:trigger Hits(s.ranges, a)} :: Hits(s.ranges, a) + CarvedHits(s.carved, a) == (if a in s.donated then 1 else 0)
  }

  ghost predicate Inv(s: State) {
    && Chain(s.ranges)
    && multiset(s.free) == multiset(FreeBases(s.ranges))
    && (forall i {:trigger CarvedOk(s.carved[i])} | 0 <= i < |s.carved| :: CarvedOk(s.carved[i]))
    && Conserved(s)
  }

  // ----- finding ranges -----

  /** The index of the range whose header is at `a`, or |rs|. */
  function IndexOf(rs: seq<Range>, a: Addr): (k: nat)
    ensures k <= |rs|
    ensures k < |rs| ==> rs[k].base == a
    ensures forall i | 0 <= i < k :: rs[i].base != a
  {
    if rs == [] then 0 else if rs[0].base == a then 0 else 1 + IndexOf(rs[1..], a)
  }

  /** The number of leading ranges whose header is below `b`. */
  function Below(rs: seq<Range>, b: Addr): (p: nat)
    ensures p <= |rs|
    ensures forall i | 0 <= i < p :: rs[i].base < b
    ensures p < |rs| ==> rs[p].base >= b
  {
    if rs == [] || rs[0].base >= b then 0 else 1 + Below(rs[1..], b)
  }

  /** `ptr` is the payload of a block that was allocated and not freed. */
  predicate Live(s: State, ptr: Addr) {
    ptr >= HEADER &&
    var k := IndexOf(s.ranges, ptr - HEADER);
    k < |s.ranges| && !s.ranges[k].free
  }

  /** The sequence without its first occurrence of `a`. */
  function Without(fl: seq<Addr>, a: Addr): seq<Addr> {
    if fl == [] then []
    else if fl[0] == a then fl[1..]
    else [fl[0]] + Without(fl[1..], a)
  }

  lemma {:induction false} WithoutCount(fl: seq<Addr>, a: Addr)
    ensures multiset(Without(fl, a)) == multiset(fl) - multiset{a}
  {
    if fl != [] {
      assert fl == [fl[0]] + fl[1..];
      if fl[0] != a {
        WithoutCount(fl[1..], a);
      }
    }
  }

  /** The ranges with those from index p up to q replaced by `mid`. */
  function Splice(rs: seq<Range>, p: nat, q: nat, mid: seq<Range>): seq<Range>
    requires p <= q <= |rs|
  {
    rs[..p] + mid + rs[q..]
  }

  lemma {:induction false} WithoutAt(fl: seq<Addr>, j: nat)
    requires j < |fl| && forall i | 0 <= i < j :: fl[i] != fl[j]
    ensures Without(fl, fl[j]) == fl[..j] + fl[j + 1..]
  {
    if j > 0 {
      WithoutAt(fl[1..], j - 1);
    }
  }

  /** The first position of `a` in the free list. */
  function Position(fl: seq<Addr>, a: Addr): (j: nat)
    requires a in fl
    ensures j < |fl| && fl[j] == a && forall i | 0 <= i < j :: fl[i] != a
  {
    if fl[0] == a then 0 else 1 + Position(fl[1..], a)
  }

  // ----- the four operations -----

  /** BlAddHeapRange. Without a previous range the code takes no next one either. */
  function AddRange(s: State, base: Addr, size: nat): State {
    var end0 := WordDown(W32(base + size));
    var base0 := WordUp(base);
    if base0 >= end0 then s else AddAt(s, Below(s.ranges, base0), base0, end0)
  }

  /** The part of the region between the range before index `p` and the one at it. */
  function AddAt(s: State, p: nat, base: Addr, end: Addr): State
    requires p <= |s.ranges|
  {
    var rs := s.ranges;
    var hasNext := 0 < p < |rs|;
    var base1 := if p > 0 && rs[p - 1].end > base then rs[p - 1].end else base;
    var end1 := if hasNext && end > rs[p].base then rs[p].base else end;
    if base1 >= end1 then s else
    Donate(s, p, base1, end1,
           p > 0 && rs[p - 1].free && rs[p - 1].end == base1,
           hasNext && rs[p].free && end1 == rs[p].base)
  }

  function DonateStart(p: nat, mergePrev: bool): nat
    requires mergePrev ==> p > 0
  {
    if mergePrev then p - 1 else p
  }

  function DonateEnd(p: nat, mergeNext: bool): nat {
    if mergeNext then p + 1 else p
  }

  function DonatedRange(rs: seq<Range>, p: nat, base: Addr, end: Addr, mergePrev: bool, mergeNext: bool): Range
    requires p <= |rs| && (mergePrev ==> p > 0) && (mergeNext ==> p < |rs|)
  {
    Range(if mergePrev then rs[p - 1].base else base, if mergeNext then rs[p].end else end, true)
  }

  /** The piece from `base` to `end` becomes part of one free range, or is dropped as too small. */
  function Donate(s: State, p: nat, base: Addr, end: Addr, mergePrev: bool, mergeNext: bool): State
    requires p <= |s.ranges| && (mergePrev ==> p > 0) && (mergeNext ==> p < |s.ranges|)
    requires base < end
  {
    if !mergePrev && !mergeNext && end - base < HEADER then s else
    var fl := if mergeNext then Without(s.free, s.ranges[p].base) else s.free;
    State(Splice(s.ranges, DonateStart(p, mergePrev), DonateEnd(p, mergeNext),
                 [DonatedRange(s.ranges, p, base, end, mergePrev, mergeNext)]),
          if mergePrev then fl else [base] + fl,
          s.carved,
          s.donated + Region(base, end))
  }

  datatype Fit = NoFit | Fit(allocBase: Addr, valueBase: Addr, allocEnd: Addr)

  /** Whether a block whose payload starts at `valueBase` lies in the range, in 32-bit arithmetic. */
  function FitAt(r: Range, valueBase: Addr, size: nat, headExtra: nat): Fit {
    var allocBase := W32(valueBase - headExtra);
    var allocEnd := W32(valueBase + size);
    if allocEnd < allocBase || allocBase < r.base || allocEnd >= r.end then NoFit
    else Fit(allocBase, valueBase, allocEnd)
  }

  /** Where a request lands in a free range. */
  function TryFit(r: Range, size: nat, alignment: nat, headExtra: nat): Fit {
    FitAt(r, AlignUp(W32(r.base + headExtra), alignment), size, headExtra)
  }

  /** The position in the free list of the first range that fits, or |fl|. */
  function FirstFit(rs: seq<Range>, fl: seq<Addr>, size: nat, alignment: nat, headExtra: nat): (j: nat)
    ensures j <= |fl|
  {
    if fl == [] then 0
    else
      var k := IndexOf(rs, fl[0]);
      if k < |rs| && TryFit(rs[k], size, alignment, headExtra).Fit? then 0
      else 1 + FirstFit(rs, fl[1..], size, alignment, headExtra)
  }

  /** A remainder that cannot hold a header stays part of the block. */
  function BlockEnd(r: Range, f: Fit): Addr
    requires f.Fit?
  {
    if r.end - f.allocEnd >= HEADER then f.allocEnd else r.end
  }

  function Front(r: Range, f: Fit): seq<Range>
    requires f.Fit?
  {
    if f.allocBase - r.base >= HEADER then [Range(r.base, f.allocBase, true)] else []
  }

  function Back(r: Range, f: Fit): seq<Range>
    requires f.Fit?
  {
    if r.end - f.allocEnd >= HEADER then [Range(f.allocEnd, r.end, true)] else []
  }

  /** The header split off behind the block does not reach into the links of the range that is being cut. */
  predicate LinksClear(r: Range, f: Fit)
    requires f.Fit?
  {
    r.end - f.allocEnd >= HEADER ==> r.base + LINKS <= f.allocEnd
  }

  function Block(r: Range, f: Fit, permanent: bool): seq<Range>
    requires f.Fit?
  {
    if permanent then [] else [Range(f.allocBase, BlockEnd(r, f), false)]
  }

  function NewCarved(r: Range, f: Fit, permanent: bool): seq<Carved>
    requires f.Fit?
  {
    (if 0 < f.allocBase - r.base < HEADER then [Carved(r.base, f.allocBase, true)] else []) +
    (if permanent then [Carved(f.allocBase, BlockEnd(r, f), false)] else [])
  }

  function Pieces(r: Range, f: Fit, permanent: bool): seq<Range>
    requires f.Fit?
  {
    Front(r, f) + Block(r, f, permanent) + Back(r, f)
  }

  /** The free range `k`, at position `j` of the free list, is cut into front, block and back. */
  function Cut(s: State, k: nat, j: nat, f: Fit, permanent: bool): State
    requires k < |s.ranges| && j < |s.free| && f.Fit?
  {
    var r := s.ranges[k];
    State(Splice(s.ranges, k, k + 1, Pieces(r, f, permanent)),
          s.free[..j] + FreeBases(Front(r, f)) + FreeBases(Back(r, f)) + s.free[j + 1..],
          s.carved + NewCarved(r, f, permanent),
          s.donated)
  }

  function EffectiveAlignment(alignment: nat): (r: nat)
    ensures r >= ALIGNMENT
  {
    if alignment < ALIGNMENT then ALIGNMENT else alignment
  }

  /** The space for a header in front of a block that can be freed again. */
  function HeadExtra(permanent: bool): nat {
    if permanent then 0 else HEADER
  }

  /** BlAllocateHeap: first fit in free-list order. */
  function Allocate(s: State, size: nat, alignment: nat, permanent: bool): Outcome {
    if size == 0 then Done(s, 0) else
    var align := EffectiveAlignment(alignment);
    var need := WordUp(size);
    var extra := HeadExtra(permanent);
    var j := FirstFit(s.ranges, s.free, need, align, extra);
    if j == |s.free| then Crash else
    var k := IndexOf(s.ranges, s.free[j]);
    if k == |s.ranges| then Crash else
    var f := TryFit(s.ranges[k], need, align, extra);
    if f.NoFit? then Crash else
    Done(Cut(s, k, j, f, permanent), f.valueBase)
  }

  predicate MergesPrev(rs: seq<Range>, k: nat)
    requires k < |rs|
  {
    k > 0 && rs[k - 1].free && rs[k - 1].end == rs[k].base
  }

  predicate MergesNext(rs: seq<Range>, k: nat)
    requires k < |rs|
  {
    k + 1 < |rs| && rs[k + 1].free && rs[k].end == rs[k + 1].base
  }

  function MergeStart(rs: seq<Range>, k: nat): nat
    requires k < |rs|
  {
    if MergesPrev(rs, k) then k - 1 else k
  }

  function MergeEnd(rs: seq<Range>, k: nat): nat
    requires k < |rs|
  {
    if MergesNext(rs, k) then k + 2 else k + 1
  }

  function Merged(rs: seq<Range>, k: nat): Range
    requires k < |rs|
  {
    Range(rs[MergeStart(rs, k)].base, rs[MergeEnd(rs, k) - 1].end, true)
  }

  /** BlFreeHeap on the block with index `k`: one free range from the first to the last merged one. */
  function FreeRange(s: State, k: nat): State
    requires k < |s.ranges|
  {
    var rs := s.ranges;
    var fl := if MergesNext(rs, k) then Without(s.free, rs[k + 1].base) else s.free;
    State(Splice(rs, MergeStart(rs, k), MergeEnd(rs, k), [Merged(rs, k)]),
          if MergesPrev(rs, k) then fl else [rs[k].base] + fl,
          s.carved, s.donated)
  }

  function Free(s: State, ptr: Addr): State {
    if Live(s, ptr) then FreeRange(s, IndexOf(s.ranges, ptr - HEADER)) else s
  }

  /** The shrink branch of BlResizeHeap: the new header goes to the old end of the block. */
  function Shrink(s: State, k: nat, extra: nat): State
    requires k < |s.ranges| && extra <= s.ranges[k].end
  {
    var r := s.ranges[k];
    if extra < HEADER then s else
    s.(ranges := Splice(s.ranges, k, k + 1, [r.(end := r.end - extra), Range(r.end, r.end, true)]),
       free := [r.end] + s.free)
  }

  /** What is left of the free range behind a grown block. The remaining size is an unsigned difference
      that the code does not check for wrapping. */
  function Rest(next: Range, newEnd: Addr): seq<Range> {
    if W32(next.end - newEnd) >= HEADER then [Range(newEnd, next.end, true)] else []
  }

  function Grown(r: Range, next: Range, newEnd: Addr): Range {
    r.(end := if Rest(next, newEnd) != [] then newEnd else next.end)
  }

  /** The in-place growth of BlResizeHeap into the free range behind the block. */
  function Grow(s: State, k: nat, newEnd: Addr): State
    requires k + 1 < |s.ranges|
  {
    var next := s.ranges[k + 1];
    s.(ranges := Splice(s.ranges, k, k + 2, [Grown(s.ranges[k], next, newEnd)] + Rest(next, newEnd)),
       free := FreeBases(Rest(next, newEnd)) + Without(s.free, next.base))
  }

  /** BlResizeHeap. Only an allocation can crash. */
  function Resize(s: State, ptr: Addr, newSize: nat, alignment: nat): Outcome {
    if ptr == 0 then Allocate(s, newSize, alignment, false)
    else if newSize == 0 then Done(Free(s, ptr), 0)
    else if !Live(s, ptr) then Crash
    else ResizeBlock(s, IndexOf(s.ranges, ptr - HEADER), WordUp(newSize), alignment)
  }

  /** The block with index `k` is shrunk or grown in place when possible, and moved otherwise. */
  function ResizeBlock(s: State, k: nat, need: nat, alignment: nat): Outcome
    requires k < |s.ranges|
  {
    var ptr := s.ranges[k].base + HEADER;
    var end := s.ranges[k].end;
    if ptr + need <= end then Done(Shrink(s, k, end - ptr - need), ptr)
    else if MergesNext(s.ranges, k) then Done(Grow(s, k, W32(ptr + need)), ptr)
    else
      var moved := Allocate(s, need, alignment, false);
      if moved.Crash? then Crash else Done(Free(moved.s, ptr), moved.ptr)
  }

  // ----- requests a caller may make -----

  datatype Request =
    | AddHeapRange(base: Addr, size: nat)
    | AllocateHeap(size: nat, alignment: nat, permanent: bool)
    | ResizeHeap(ptr: Addr, size: nat, alignment: nat)
    | FreeHeap(ptr: Addr)

  /** No 32-bit sum of a request of this size wraps unnoticed. */
  predicate SizeOk(size: nat) {
    size <= WORD32 - 28
  }

  predicate AlignmentOk(alignment: nat) {
    IsPow2(alignment) && alignment < WORD32
  }

  /** The donated region does not wrap and holds no memory that was carved out before. */
  ghost predicate RegionOk(s: State, base: Addr, size: nat) {
    && 0 < base <= WORD32 - ALIGNMENT && base + size < WORD32
    && (forall a | base <= a < base + size :: CarvedHits(s.carved, a) == 0)
  }

  /** The region comes after some range, or ends before all of them without touching a free one, or is
      too small to be taken. */
  predicate Ascending(s: State, base: Addr, size: nat) {
    var end0 := WordDown(base + size);
    var base0 := WordUp(base);
    || s.ranges == []
    || s.ranges[0].base < base0
    || end0 < s.ranges[0].base
    || (end0 == s.ranges[0].base && !s.ranges[0].free)
    || end0 - base0 < HEADER
  }

  /** A resized block can keep its place when it shrinks by less than a header, or grows by no more
      than the free range behind it. */
  predicate FitsInPlace(s: State, k: nat, need: nat)
    requires k < |s.ranges|
  {
    var ptr := s.ranges[k].base + HEADER;
    if ptr + need <= s.ranges[k].end then s.ranges[k].end - ptr - need < HEADER
    else MergesNext(s.ranges, k) ==> ptr + need <= s.ranges[k + 1].end
  }

  /** The range that the request takes can be cut behind the block without writing over its links. */
  predicate SplitClear(s: State, size: nat, alignment: nat, permanent: bool) {
    var align, need, extra := EffectiveAlignment(alignment), WordUp(size), HeadExtra(permanent);
    var j := FirstFit(s.ranges, s.free, need, align, extra);
    j < |s.free| ==>
      var k := IndexOf(s.ranges, s.free[j]);
      k < |s.ranges| && TryFit(s.ranges[k], need, align, extra).Fit? ==>
        LinksClear(s.ranges[k], TryFit(s.ranges[k], need, align, extra))
  }

  ghost predicate Legal(s: State, req: Request) {
    match req
    case AddHeapRange(base, size) => RegionOk(s, base, size) && Ascending(s, base, size)
    case AllocateHeap(size, alignment, permanent) =>
      SizeOk(size) && AlignmentOk(alignment) && (permanent && size > 0 ==> SplitClear(s, size, alignment, permanent))
    case ResizeHeap(ptr, size, alignment) =>
      && SizeOk(size) && AlignmentOk(alignment)
      && (ptr != 0 ==> Live(s, ptr))
      && (ptr != 0 && size != 0 ==>
            FitsInPlace(s, IndexOf(s.ranges, ptr - HEADER), WordUp(size)))
    case FreeHeap(ptr) => ptr != 0 ==> Live(s, ptr)
  }

  /** The block that a request is about. */
  function Named(req: Request): Addr {
    match req
    case AddHeapRange(_, _) => 0
    case AllocateHeap(_, _, _) => 0
    case ResizeHeap(ptr, _, _) => ptr
    case FreeHeap(ptr) => ptr
  }

  function Step(s: State, req: Request): Outcome {
    match req
    case AddHeapRange(base, size) => Done(AddRange(s, base, size), 0)
    case AllocateHeap(size, alignment, permanent) => Allocate(s, size, alignment, permanent)
    case ResizeHeap(ptr, size, alignment) => Resize(s, ptr, size, alignment)
    case FreeHeap(ptr) => Done(Free(s, ptr), 0)
  }

  /** `s'` is reached from `s` by a run of legal requests, none of which crashed. */
  ghost predicate Run(s: State, reqs: seq<Request>, s': State)
    decreases |reqs|
  {
    if reqs == [] then s' == s
    else Legal(s, reqs[0]) && Step(s, reqs[0]).Done? && Run(Step(s, reqs[0]).s, reqs[1..], s')
  }
}
