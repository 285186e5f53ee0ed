/** What operations of the heap leave alone: blocks in use, permanent blocks and all memory that is not the heap's. */
module HeapPayloads {
  import opened Basics
  import opened Lists
  import opened HeapSpec
  import opened HeapSafety
  import opened HeapMemory
  import opened HeapRuns
  import opened HeapTheorems
  import opened HeapHeaders

  // ----- payloads -----

  /** The payload of `r` is the same in both memories. */
  ghost predicate Keeps(m: Memory, m': Memory, r: Range) {
    forall a {:trigger Load(m', a)} | r.base + HEADER <= a < r.end :: Load(m', a) == Load(m, a)
  }

  /** Every block in use, except the one at `ptr`, stays where it is and keeps its payload. */
  ghost predicate KeepsBlocks(m: Memory, m': Memory, rs: seq<Range>, rs': seq<Range>, ptr: Addr) {
    forall i {:trigger Keeps(m, m', rs[i])} | 0 <= i < |rs| && !rs[i].free && rs[i].base + HEADER != ptr ::
      Has(rs', rs[i]) && Keeps(m, m', rs[i])
  }

  /** `a` belongs to a permanent block, or to the gap in front of an aligned one, or is no memory of the heap. */
  ghost predicate NotRange(s: State, s': State, a: Addr) {
    CarvedHits(s.carved, a) > 0 || a !in s'.donated
  }

  ghost predicate KeepsRest(m: Memory, m': Memory, s: State, s': State) {
    forall a: Addr {:trigger Load(m', a)} | NotRange(s, s', a) :: Load(m', a) == Load(m, a)
  }

  /** All blocks in use but the one at `ptr` stay and keep their payload; permanent blocks and memory outside of
      the heap are not written. */
  ghost predicate Untouched(m: Memory, m': Memory, s: State, s': State, ptr: Addr) {
    KeepsBlocks(m, m', s.ranges, s'.ranges, ptr) && KeepsRest(m, m', s, s')
  }

  lemma {:induction false} PayloadOutside(rs: seq<Range>, k: nat, a: Addr)
    requires Chain(rs) && k < |rs| && rs[k].base + HEADER <= a < rs[k].end
    ensures OutsideHeaders(a, Heads(rs))
  {
    forall h | h in Heads(rs) ensures !(h <= a < h + HEADER) {
      var i :| 0 <= i < |rs| && rs[i].base == h;
      assert RangeOk(rs[i]);
      assert i < k ==> Before(rs[i], rs[k]);
      assert k < i ==> Before(rs[k], rs[i]);
    }
  }

  lemma {:induction false} OutsideBoth(a: Addr, hs: set<Addr>, hs': set<Addr>)
    requires OutsideHeaders(a, hs) && OutsideHeaders(a, hs')
    ensures OutsideHeaders(a, hs + hs')
  {
  }

  /** An operation that writes only headers, between two sound heaps, keeps every block that stays. */
  lemma {:induction false} HeaderWritesKeepBlocks(m: Memory, m': Memory, rs: seq<Range>, rs': seq<Range>, ptr: Addr)
    requires Chain(rs) && Chain(rs') && OnlyHeaders(m, m', Heads(rs) + Heads(rs')) && Leaves(rs, rs', ptr)
    ensures KeepsBlocks(m, m', rs, rs', ptr)
  {
    forall i | 0 <= i < |rs| && !rs[i].free && rs[i].base + HEADER != ptr ensures Has(rs', rs[i]) && Keeps(m, m', rs[i]) {
      assert StillThere(rs[i], rs', ptr);
      var j := IndexOf(rs', rs[i].base);
      forall a | rs[i].base + HEADER <= a < rs[i].end ensures Load(m', a) == Load(m, a) {
        PayloadOutside(rs, i, a);
        PayloadOutside(rs', j, a);
        OutsideBoth(a, Heads(rs), Heads(rs'));
      }
    }
  }

  // ----- what is in no range -----

  lemma {:induction false} RangeHits(rs: seq<Range>, k: nat, a: Addr)
    requires k < |rs| && rs[k].base <= a < rs[k].end
    ensures Hits(rs, a) > 0
  {
    if k > 0 {
      RangeHits(rs[1..], k - 1, a);
    }
  }

  /** Bytes of no range are in no header. */
  lemma {:induction false} NoHitsOutside(rs: seq<Range>, a: Addr)
    requires Chain(rs) && Hits(rs, a) == 0
    ensures OutsideHeaders(a, Heads(rs))
  {
    forall h | h in Heads(rs) ensures !(h <= a < h + HEADER) {
      var i :| 0 <= i < |rs| && rs[i].base == h;
      assert RangeOk(rs[i]);
      if h <= a < h + HEADER {
        RangeHits(rs, i, a);
      }
    }
  }

  lemma {:induction false} CarvedPrefix(cs: seq<Carved>, cs': seq<Carved>, a: Addr)
    requires cs <= cs'
    ensures CarvedHits(cs, a) <= CarvedHits(cs', a)
  {
    CarvedHitsConcat(cs, cs'[|cs|..], a);
    assert cs' == cs + cs'[|cs|..];
  }

  /** Permanent blocks stay permanent, and memory that is not donated later was not before. */
  lemma {:induction false} NotRangeStays(s: State, s': State, a: Addr)
    requires Inv(s) && Inv(s') && LedgerGrows(s, s') && NotRange(s, s', a)
    ensures Hits(s.ranges, a) == 0 && Hits(s'.ranges, a) == 0 && NotRange(s', s', a)
  {
    CarvedPrefix(s.carved, s'.carved, a);
    assert Hits(s.ranges, a) + CarvedHits(s.carved, a) == Owned(s.donated, a);
    assert Hits(s'.ranges, a) + CarvedHits(s'.carved, a) == Owned(s'.donated, a);
  }

  lemma {:induction false} HeaderWritesKeepRest(m: Memory, m': Memory, s: State, s': State)
    requires Inv(s) && Inv(s') && LedgerGrows(s, s') && OnlyHeaders(m, m', Heads(s.ranges) + Heads(s'.ranges))
    ensures KeepsRest(m, m', s, s')
  {
    forall a: Addr | NotRange(s, s', a) ensures Load(m', a) == Load(m, a) {
      NotRangeStays(s, s', a);
      NoHitsOutside(s.ranges, a);
      NoHitsOutside(s'.ranges, a);
      OutsideBoth(a, Heads(s.ranges), Heads(s'.ranges));
    }
  }

  /** A request that writes only headers touches nothing but the block it names. */
  lemma {:induction false} HeaderWritesUntouched(m: Memory, m': Memory, s: State, s': State, ptr: Addr)
    requires Inv(s) && Inv(s') && OnlyHeaders(m, m', Heads(s.ranges) + Heads(s'.ranges))
    requires Leaves(s.ranges, s'.ranges, ptr) && LedgerGrows(s, s')
    ensures Untouched(m, m', s, s', ptr)
  {
    HeaderWritesKeepBlocks(m, m', s.ranges, s'.ranges, ptr);
    HeaderWritesKeepRest(m, m', s, s');
  }

  lemma {:induction false} NothingTouched(m: Memory, s: State, ptr: Addr)
    requires Chain(s.ranges)
    ensures Untouched(m, m, s, s, ptr)
  {
    forall i | 0 <= i < |s.ranges| ensures Has(s.ranges, s.ranges[i]) {
      HasAt(s.ranges, i);
    }
  }

  lemma {:induction false} RestTrans(m1: Memory, m2: Memory, m3: Memory, s1: State, s2: State, s3: State)
    requires Inv(s1) && Inv(s2) && LedgerGrows(s1, s2) && LedgerGrows(s2, s3)
    requires KeepsRest(m1, m2, s1, s2) && KeepsRest(m2, m3, s2, s3)
    ensures KeepsRest(m1, m3, s1, s3)
  {
    forall a: Addr | NotRange(s1, s3, a) ensures Load(m3, a) == Load(m1, a) {
      CarvedPrefix(s1.carved, s2.carved, a);
      assert NotRange(s2, s3, a) && NotRange(s1, s2, a);
    }
  }

  /** Copying into a block does not touch what is in no range. */
  lemma {:induction false} CopyKeepsRest(m: Memory, m': Memory, s: State, b: Range, src: Addr, dest: Addr, n: nat)
    requires Inv(s) && Has(s.ranges, b) && dest == b.base + HEADER && dest + n <= b.end
    requires CopiedOnly(m, m', src, dest, n)
    ensures KeepsRest(m, m', s, s)
  {
    var k := IndexOf(s.ranges, b.base);
    forall a: Addr | NotRange(s, s, a) ensures Load(m', a) == Load(m, a) {
      NotRangeStays(s, s, a);
      if dest <= a < dest + n {
        RangeHits(s.ranges, k, a);
        assert false;
      }
    }
  }

  /** Writes outside headers do not disturb the lists. */
  lemma {:induction false} RepFrame(m: Memory, m': Memory, rl: BlList, fl: BlList, rs: seq<Range>, fs: seq<Addr>)
    requires Rep(m, rl, fl, rs, fs) && HeadsIn(rs, fs, Heads(rs))
    requires forall a {:trigger OutsideHeaders(a, Heads(rs))} | !OutsideHeaders(a, Heads(rs)) :: Load(m', a) == Load(m, a)
    ensures Rep(m', rl, fl, rs, fs)
  {
    var bs, ns := Bases(rs), FreeNodes(fs);
    forall i | 0 <= i < |rs|
      ensures Load(m', bs[i]) == Load(m, bs[i]) && Load(m', bs[i] + NEXT) == Load(m, bs[i] + NEXT)
      ensures Field(m', rs[i])
    {
      InsideHeader(rs[i].base, Heads(rs));
      assert Field(m, rs[i]);
    }
    forall j | 0 <= j < |fs|
      ensures Load(m', ns[j]) == Load(m, ns[j]) && Load(m', ns[j] + NEXT) == Load(m, ns[j] + NEXT)
    {
      InsideHeader(fs[j], Heads(rs));
    }
    ListFrame(m, m', rl, bs);
    ListFrame(m, m', fl, ns);
  }

  lemma {:induction false} InsideHeader(h: Addr, hs: set<Addr>)
    requires h in hs
    ensures !OutsideHeaders(h, hs) && !OutsideHeaders(h + NEXT, hs) && !OutsideHeaders(h + FREE_NODE, hs)
    ensures !OutsideHeaders(h + FREE_NODE + NEXT, hs) && !OutsideHeaders(h + END, hs) && !OutsideHeaders(h + FREE, hs)
  {
    assert h <= h + NEXT < h + HEADER;
  }

  /** The first `n` bytes at `ptr` before are those at `ptr'` after, word by word. */
  ghost predicate Moved(m: Memory, m': Memory, ptr: Addr, ptr': Addr, n: int) {
    forall o: nat {:trigger WordAt(m', ptr', o)} | o < n && Aligned(o) :: WordAt(m', ptr', o) == WordAt(m, ptr, o)
  }

  /** The payload bytes of a block in use. */
  function PayloadSize(s: State, ptr: Addr): int {
    if Live(s, ptr) then s.ranges[IndexOf(s.ranges, ptr - HEADER)].end - ptr else 0
  }

  function WordAt(m: Memory, base: Addr, offset: nat): Addr {
    Load(m, base + offset)
  }

  /** `n` bytes were copied from `src` to `dest`, and nothing else was written. */
  ghost predicate CopiedOnly(m: Memory, m': Memory, src: Addr, dest: Addr, n: int) {
    && Moved(m, m', src, dest, n)
    && forall a: Addr | !(dest <= a < dest + n) :: Load(m', a) == Load(m, a)
  }

  lemma {:induction false} GrownKeeps(m: Memory, m': Memory, rs: seq<Range>, rs': seq<Range>, k: nat, ptr: Addr, n: nat)
    requires Chain(rs) && Chain(rs') && OnlyHeaders(m, m', Heads(rs) + Heads(rs'))
    requires k < |rs| && k < |rs'| && rs'[k].base == rs[k].base && rs'[k].end >= rs[k].end
    requires ptr == rs[k].base + HEADER && ptr + n == rs[k].end
    ensures Moved(m, m', ptr, ptr, n)
  {
    forall o: nat | o < n && Aligned(o) ensures WordAt(m', ptr, o) == WordAt(m, ptr, o) {
      PayloadOutside(rs, k, ptr + o);
      PayloadOutside(rs', k, ptr + o);
      OutsideBoth(ptr + o, Heads(rs), Heads(rs'));
    }
  }

  lemma {:induction false} CopyOutside(rs: seq<Range>, b: Range, dest: Addr, count: nat)
    requires Chain(rs) && Has(rs, b) && b.base + HEADER == dest && dest + count <= b.end
    ensures forall a | dest <= a < dest + count :: OutsideHeaders(a, Heads(rs))
  {
    var i := IndexOf(rs, b.base);
    forall a | dest <= a < dest + count ensures OutsideHeaders(a, Heads(rs)) {
      PayloadOutside(rs, i, a);
    }
  }

  /** `r` is still among the ranges, and is not the block at `base`. */
  ghost predicate StaysBlock(r: Range, rs: seq<Range>, base: Addr) {
    Has(rs, r) && r.base != base
  }

  /** Blocks in use stay in use, and none of them is at `base`. */
  ghost predicate AllBlocksKept(rs: seq<Range>, rs': seq<Range>, base: Addr) {
    forall i {:trigger StaysBlock(rs[i], rs', base)} | 0 <= i < |rs| && !rs[i].free :: StaysBlock(rs[i], rs', base)
  }

  /** The block an allocation returned is in use and new; blocks in use before still are. */
  lemma {:induction false} NewBlock(s: State, s1: State, need: nat, alignment: nat, base: Addr) returns (b: Range)
    requires Inv(s) && NeedOk(need) && AlignmentOk(alignment)
    requires Allocate(s, need, alignment, false) == Done(s1, base + HEADER)
    ensures Has(s1.ranges, b) && !b.free && b.base == base && base + HEADER + need <= b.end
    ensures AllBlocksKept(s.ranges, s1.ranges, base)
  {
    AllocatedIsLive(s, need, alignment);
    var i := IndexOf(s1.ranges, base);
    b := s1.ranges[i];
    NewBlockIsNew(s, s1, need, alignment, base);
  }

  lemma {:induction false} NewBlockIsNew(s: State, s1: State, need: nat, alignment: nat, base: Addr)
    requires Inv(s) && NeedOk(need) && AlignmentOk(alignment)
    requires Allocate(s, need, alignment, false) == Done(s1, base + HEADER)
    ensures AllBlocksKept(s.ranges, s1.ranges, base)
  {
    AllocationIsFresh(s, need, alignment, false);
    var j :| 0 <= j < |s.ranges| && s.ranges[j].free && s.ranges[j].base <= base < s.ranges[j].end;
    forall i | 0 <= i < |s.ranges| && !s.ranges[i].free ensures StaysBlock(s.ranges[i], s1.ranges, base) {
      assert i < j ==> Before(s.ranges[i], s.ranges[j]) && RangeOk(s.ranges[i]);
      assert j < i ==> Before(s.ranges[j], s.ranges[i]);
    }
  }

  /** The two blocks of a move, both in use and apart. */
  ghost predicate TwoBlocks(rs: seq<Range>, r: Range, b: Range, n: nat) {
    && Has(rs, r) && Has(rs, b) && !r.free && !b.free && r.base != b.base
    && n == r.end - r.base - HEADER && Aligned(n) && b.base + HEADER + n <= b.end
    && (r.end <= b.base || b.end <= r.base)
  }

  /** After the allocation of a move, the old and the new block are both in use and apart. */
  lemma {:induction false} MovePlan(s: State, s1: State, r: Range, need: nat, alignment: nat, ptr: Addr, n: nat) returns (b: Range)
    requires Inv(s) && Inv(s1) && Has(s.ranges, r) && !r.free && NeedOk(need) && AlignmentOk(alignment)
    requires Allocate(s, need, alignment, false) == Done(s1, ptr)
    requires n == r.end - r.base - HEADER && n <= need && Aligned(n)
    ensures b.base + HEADER == ptr && AllBlocksKept(s.ranges, s1.ranges, b.base) && TwoBlocks(s1.ranges, r, b, n)
  {
    AllocatedIsLive(s, need, alignment);
    b := NewBlock(s, s1, need, alignment, ptr - HEADER);
    var j := IndexOf(s.ranges, r.base);
    assert StaysBlock(s.ranges[j], s1.ranges, b.base);
    RangesApart(s1.ranges, r, b);
  }

  lemma {:induction false} RangesApart(rs: seq<Range>, r: Range, q: Range)
    requires Chain(rs) && Has(rs, r) && Has(rs, q) && r.base != q.base
    ensures r.end <= q.base || q.end <= r.base
    ensures IndexOf(rs, r.base) < |rs| && rs[IndexOf(rs, r.base)] == r
  {
    var i := IndexOf(rs, r.base);
    var j := IndexOf(rs, q.base);
    assert i < j ==> Before(rs[i], rs[j]);
    assert j < i ==> Before(rs[j], rs[i]);
    IndexOfChain(rs, i);
  }

  /** Every block in use stays and keeps its payload, except the one at `ptr` and the one with its header at `base`. */
  ghost predicate KeepsOthers(m: Memory, m': Memory, rs: seq<Range>, rs': seq<Range>, ptr: Addr, base: Addr) {
    forall i {:trigger Keeps(m, m', rs[i])} |
      0 <= i < |rs| && !rs[i].free && rs[i].base + HEADER != ptr && rs[i].base != base ::
      Has(rs', rs[i]) && Keeps(m, m', rs[i])
  }

  /** The second half of a move: the copy writes only the new block, the free only headers. */
  lemma {:induction false} CopyThenFree(m1: Memory, m2: Memory, m3: Memory, rs: seq<Range>, rs': seq<Range>,
                     src: Addr, ptr: Addr, block: Range, n: nat)
    requires Chain(rs) && Has(rs, block) && !block.free && block.base + HEADER != ptr && n <= block.end - block.base - HEADER
    requires KeepsBlocks(m2, m3, rs, rs', ptr)
    requires forall a: Addr | !(block.base + HEADER <= a < block.base + HEADER + n) :: Load(m2, a) == Load(m1, a)
    requires Moved(m1, m2, src, block.base + HEADER, n)
    ensures KeepsOthers(m1, m3, rs, rs', ptr, block.base)
    ensures Moved(m1, m3, src, block.base + HEADER, n)
  {
    forall i | 0 <= i < |rs| && !rs[i].free && rs[i].base + HEADER != ptr && rs[i].base != block.base
      ensures Has(rs', rs[i]) && Keeps(m1, m3, rs[i])
    {
      HasAt(rs, i);
      RangesApart(rs, rs[i], block);
      assert Keeps(m2, m3, rs[i]);
    }
    var b := IndexOf(rs, block.base);
    assert Keeps(m2, m3, rs[b]);
    var dest := block.base + HEADER;
    forall o: nat | o < n && Aligned(o) ensures WordAt(m3, dest, o) == WordAt(m1, src, o) {
      assert WordAt(m2, dest, o) == WordAt(m1, src, o);
    }
  }

  lemma {:induction false} MovedThenFreed(m1: Memory, m2: Memory, m3: Memory, s: State, s': State, src: Addr, dest: Addr,
                       r: Range, b: Range, n: nat)
    requires Inv(s) && TwoBlocks(s.ranges, r, b, n) && src == r.base + HEADER && dest == b.base + HEADER
    requires CopiedOnly(m1, m2, src, dest, n)
    requires Untouched(m2, m3, s, s', src) && LedgerGrows(s, s')
    ensures KeepsOthers(m1, m3, s.ranges, s'.ranges, src, b.base) && KeepsRest(m1, m3, s, s')
    ensures Moved(m1, m3, src, dest, n)
  {
    CopyThenFree(m1, m2, m3, s.ranges, s'.ranges, src, src, b, n);
    CopyKeepsRest(m1, m2, s, b, src, dest, n);
    RestTrans(m1, m2, m3, s, s, s');
  }

  lemma {:induction false} AllocateThenMove(m0: Memory, m1: Memory, m3: Memory, rs: seq<Range>, rs1: seq<Range>, rs3: seq<Range>,
                         k: nat, base: Addr, src: Addr, dest: Addr, n: nat)
    requires k < |rs| && !rs[k].free && AllBlocksKept(rs, rs1, base)
    requires KeepsBlocks(m0, m1, rs, rs1, 0) && KeepsOthers(m1, m3, rs1, rs3, src, base)
    requires Moved(m1, m3, src, dest, n) && src == rs[k].base + HEADER && src + n == rs[k].end
    ensures KeepsBlocks(m0, m3, rs, rs3, src)
    ensures Moved(m0, m3, src, dest, n)
  {
    forall i | 0 <= i < |rs| && !rs[i].free && rs[i].base + HEADER != src ensures Has(rs3, rs[i]) && Keeps(m0, m3, rs[i]) {
      assert StaysBlock(rs[i], rs1, base) && Keeps(m0, m1, rs[i]);
      var j := IndexOf(rs1, rs[i].base);
      assert Keeps(m1, m3, rs1[j]);
    }
    assert StaysBlock(rs[k], rs1, base) && Keeps(m0, m1, rs[k]);
    forall o: nat | o < n && Aligned(o) ensures WordAt(m3, dest, o) == WordAt(m0, src, o) {
      assert WordAt(m3, dest, o) == WordAt(m1, src, o);
    }
  }

  /** An allocation, a copy into the new block and freeing the old one touch no third block and nothing outside. */
  lemma {:induction false} MoveUntouched(m0: Memory, m1: Memory, m3: Memory, s: State, s1: State, s3: State, k: nat, base: Addr,
                                         src: Addr, dest: Addr, n: nat)
    requires Inv(s) && Inv(s1) && LedgerGrows(s, s1) && LedgerGrows(s1, s3)
    requires k < |s.ranges| && !s.ranges[k].free && AllBlocksKept(s.ranges, s1.ranges, base)
    requires Untouched(m0, m1, s, s1, 0)
    requires KeepsOthers(m1, m3, s1.ranges, s3.ranges, src, base) && KeepsRest(m1, m3, s1, s3)
    requires Moved(m1, m3, src, dest, n) && src == s.ranges[k].base + HEADER && src + n == s.ranges[k].end
    ensures Untouched(m0, m3, s, s3, src) && Moved(m0, m3, src, dest, n)
  {
    AllocateThenMove(m0, m1, m3, s.ranges, s1.ranges, s3.ranges, k, base, src, dest, n);
    RestTrans(m0, m1, m3, s, s1, s3);
  }

  lemma {:induction false} MovedStep(m0: Memory, m: Memory, src: Addr, dest: Addr, done: nat, count: nat)
    requires CopiedOnly(m0, m, src, dest, done) && Aligned(done) && done + 4 <= count
    requires src + count <= dest || dest + count <= src
    ensures CopiedOnly(m0, m[dest + done := Load(m, src + done)], src, dest, done + 4)
  {
    var m' := m[dest + done := Load(m, src + done)];
    forall o: nat | o < done + 4 && Aligned(o) ensures WordAt(m', dest, o) == WordAt(m0, src, o) {
      assert o < done || o == done;
      assert o < done ==> WordAt(m, dest, o) == WordAt(m0, src, o);
    }
  }

  // ----- runs with memory -----

  /** What happens to memory: a request to the heap, or a word that the program stores. */
  datatype Event = Call(req: Request) | Store(at: Addr, value: Addr)

  /** A legal request that does not crash does what it should to the lists, and touches nothing else. */
  ghost predicate Served(m: Memory, s: State, req: Request, m': Memory, s': State) {
    && Legal(s, req) && Step(s, req).Done? && Step(s, req).s == s'
    && Untouched(m, m', s, s', Named(req))
  }

  /** The program may store wherever there is no header. */
  ghost predicate Happens(m: Memory, s: State, e: Event, m': Memory, s': State) {
    match e
    case Call(req) => Served(m, s, req, m', s')
    case Store(at, value) => s' == s && m' == m[at := value] && OutsideHeaders(at, Heads(s.ranges))
  }

  ghost predicate Happened(ms: seq<Memory>, ss: seq<State>, es: seq<Event>, i: nat)
    requires i < |es| && |ms| == |ss| == |es| + 1
  {
    Happens(ms[i], ss[i], es[i], ms[i + 1], ss[i + 1])
  }

  /** Memories and heap states between the events of a run. */
  ghost predicate Trace(ms: seq<Memory>, ss: seq<State>, es: seq<Event>) {
    |ms| == |ss| == |es| + 1 && forall i | 0 <= i < |es| :: Happened(ms, ss, es, i)
  }

  /** The event neither names the block `r` nor stores into it. */
  predicate Spares(e: Event, r: Range) {
    match e
    case Call(req) => Named(req) != r.base + HEADER
    case Store(at, _) => !(r.base + HEADER <= at < r.end)
  }

  lemma {:induction false} TracePrefix(ms: seq<Memory>, ss: seq<State>, es: seq<Event>, n: nat)
    requires Trace(ms, ss, es) && n + 1 == |es|
    ensures Trace(ms[..n + 1], ss[..n + 1], es[..n]) && Happens(ms[n], ss[n], es[n], ms[n + 1], ss[n + 1])
  {
    var ms', ss', es' := ms[..n + 1], ss[..n + 1], es[..n];
    forall i | 0 <= i < n ensures Happened(ms', ss', es', i) {
      assert Happened(ms, ss, es, i);
    }
    assert Happened(ms, ss, es, n);
  }

  lemma {:induction false} EventKeeps(m: Memory, s: State, e: Event, m': Memory, s': State, r: Range)
    requires Happens(m, s, e, m', s') && Has(s.ranges, r) && !r.free && Spares(e, r)
    ensures Has(s'.ranges, r) && Keeps(m, m', r)
  {
    if e.Call? {
      assert Keeps(m, m', s.ranges[IndexOf(s.ranges, r.base)]);
    }
  }

  lemma {:induction false} KeepsTrans(m1: Memory, m2: Memory, m3: Memory, r: Range)
    requires Keeps(m1, m2, r) && Keeps(m2, m3, r)
    ensures Keeps(m1, m3, r)
  {
  }

  /** A block in use that no request names and no store writes is in use at the end of every run, with the contents
      it had. */
  lemma {:induction false} PayloadsKept(ms: seq<Memory>, ss: seq<State>, es: seq<Event>, r: Range)
    requires Trace(ms, ss, es) && Has(ss[0].ranges, r) && !r.free
    requires forall i | 0 <= i < |es| :: Spares(es[i], r)
    ensures Has(ss[|es|].ranges, r) && Keeps(ms[0], ms[|es|], r)
    decreases |es|
  {
    if es != [] {
      var n := |es| - 1;
      TracePrefix(ms, ss, es, n);
      PayloadsKept(ms[..n + 1], ss[..n + 1], es[..n], r);
      EventKeeps(ms[n], ss[n], es[n], ms[n + 1], ss[n + 1], r);
      KeepsTrans(ms[0], ms[n], ms[n + 1], r);
    }
  }

  lemma {:induction false} EventKeepsCarved(m: Memory, s: State, e: Event, m': Memory, s': State, a: Addr)
    requires Happens(m, s, e, m', s') && CarvedHits(s.carved, a) > 0 && (e.Store? ==> e.at != a)
    ensures CarvedHits(s'.carved, a) > 0 && Load(m', a) == Load(m, a)
  {
    if e.Call? {
      StepLedger(s, e.req);
      CarvedPrefix(s.carved, s'.carved, a);
      assert NotRange(s, s', a);
    }
  }

  /** A byte of a permanent block that the program does not store to itself is the same at the end of every run. */
  lemma {:induction false} PermanentKept(ms: seq<Memory>, ss: seq<State>, es: seq<Event>, a: Addr)
    requires Trace(ms, ss, es) && CarvedHits(ss[0].carved, a) > 0
    requires forall i | 0 <= i < |es| && es[i].Store? :: es[i].at != a
    ensures CarvedHits(ss[|es|].carved, a) > 0 && Load(ms[|es|], a) == Load(ms[0], a)
    decreases |es|
  {
    if es != [] {
      var n := |es| - 1;
      TracePrefix(ms, ss, es, n);
      PermanentKept(ms[..n + 1], ss[..n + 1], es[..n], a);
      EventKeepsCarved(ms[n], ss[n], es[n], ms[n + 1], ss[n + 1], a);
    }
  }
}
