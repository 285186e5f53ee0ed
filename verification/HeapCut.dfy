/** The writes of BlAllocateHeap, one after another, and when they leave the lists that they should. */
module HeapCut {
  import opened Basics
  import opened Lists
  import opened HeapSpec
  import opened HeapSafety
  import opened HeapMemory
  import opened HeapRuns
  import opened HeapTheorems
  import opened HeapHeaders
  import opened HeapPayloads

  /** Memory, BlHeapRanges and BlFreeRanges. */
  datatype Threads = Threads(m: Memory, rl: BlList, fl: BlList)

  /** The headers in memory are those of `rs`, with `fs` on the free list. */
  ghost predicate Represents(t: Threads, rs: seq<Range>, fs: seq<Addr>) {
    Rep(t.m, t.rl, t.fl, rs, fs)
  }

  // ----- the writes, whatever is in memory -----

  function WithHeader(t: Threads, h: Addr, end: Addr, free: bool): Threads {
    t.(m := t.m[h + END := end][h + FREE := if free then 1 else 0])
  }

  function LinkRanges(t: Threads, anchor: Addr, h: Addr): Threads {
    var (m, l) := LinkBehind(t.m, t.rl, anchor, h);
    Threads(m, l, t.fl)
  }

  function LinkNodes(t: Threads, anchor: Addr, node: Addr): Threads {
    var (m, l) := LinkBehind(t.m, t.fl, anchor, node);
    Threads(m, t.rl, l)
  }

  function UnlinkRanges(t: Threads, h: Addr): Threads {
    var (m, l) := Unlink(t.m, t.rl, h);
    Threads(m, l, t.fl)
  }

  function UnlinkNodes(t: Threads, node: Addr): Threads {
    var (m, l) := Unlink(t.m, t.fl, node);
    Threads(m, t.rl, l)
  }

  /** A new free header at `h`, behind the range at `a` on both lists. */
  function SplitOff(t: Threads, a: Addr, h: Addr, end: Addr): Threads {
    LinkNodes(LinkRanges(WithHeader(t, h, end, true), a, h), a + FREE_NODE, h + FREE_NODE)
  }

  function DropHeader(t: Threads, a: Addr): Threads {
    UnlinkNodes(UnlinkRanges(t, a), a + FREE_NODE)
  }

  function SplitBack(t: Threads, r: Range, f: Fit): Threads
    requires f.Fit?
  {
    if r.end - f.allocEnd >= HEADER then SplitOff(t, r.base, f.allocEnd, r.end) else t
  }

  function KeepFront(t: Threads, a: Addr, f: Fit): Threads
    requires f.Fit?
  {
    if f.allocBase - a >= HEADER then t.(m := t.m[a + END := f.allocBase]) else DropHeader(t, a)
  }

  /** The range behind which a new block is linked: what is left in front, or what was before that. */
  function AnchorOf(t: Threads, a: Addr, f: Fit): Addr
    requires f.Fit?
  {
    if f.allocBase - a >= HEADER then a else Load(t.m, a)
  }

  function PlaceBlock(t: Threads, anchor: Addr, b: Addr, end: Addr): Threads {
    LinkRanges(WithHeader(t, b, end, false), anchor, b)
  }

  /** Everything that BlAllocateHeap writes when it takes the range `r` as `f` says. */
  function CutWrites(t: Threads, r: Range, f: Fit, permanent: bool): Threads
    requires f.Fit?
  {
    var t1 := SplitBack(t, r, f);
    var t2 := KeepFront(t1, r.base, f);
    if permanent then t2 else PlaceBlock(t2, AnchorOf(t1, r.base, f), f.allocBase, BlockEnd(r, f))
  }

  // ----- headers that may overlap in what is not used any more -----

  predicate LinksApart(x: Addr, y: Addr) {
    x == y || x + LINKS <= y || y + LINKS <= x
  }

  /** No link word of one header is a link word of another. */
  ghost predicate LinkSpaced(hs: set<Addr>) {
    0 !in hs && forall x, y {:trigger LinksApart(x, y)} | x in hs && y in hs :: LinksApart(x, y)
  }

  /** End and Free of the header at `b` are no link words of the one at `x`. */
  predicate FieldApart(b: Addr, x: Addr) {
    x <= b || b + HEADER <= x
  }

  ghost predicate FieldSafe(b: Addr, hs: set<Addr>) {
    forall x {:trigger FieldApart(b, x)} | x in hs :: FieldApart(b, x)
  }

  lemma {:induction false} OutsideRanges(touched: seq<Range>, hs: set<Addr>, y: Addr)
    requires LinkSpaced(hs) && y in hs && forall i | 0 <= i < |touched| :: touched[i].base in hs
    ensures Outside(y + FREE_NODE, Bases(touched)) && Outside(y + FREE_NODE + NEXT, Bases(touched))
  {
    forall i | 0 <= i < |touched|
      ensures y + FREE_NODE != touched[i].base && y + FREE_NODE != touched[i].base + NEXT
      ensures y + FREE_NODE + NEXT != touched[i].base && y + FREE_NODE + NEXT != touched[i].base + NEXT
    {
      assert LinksApart(y, touched[i].base);
    }
  }

  lemma {:induction false} OutsideNodes(touched: seq<Addr>, hs: set<Addr>, y: Addr)
    requires LinkSpaced(hs) && y in hs && forall i | 0 <= i < |touched| :: touched[i] in hs
    ensures Outside(y, FreeNodes(touched)) && Outside(y + NEXT, FreeNodes(touched))
  {
    forall i | 0 <= i < |touched|
      ensures y != touched[i] + FREE_NODE && y != touched[i] + FREE_NODE + NEXT
      ensures y + NEXT != touched[i] + FREE_NODE && y + NEXT != touched[i] + FREE_NODE + NEXT
    {
      assert LinksApart(y, touched[i]);
    }
  }

  lemma {:induction false} RangesKeepNodes(m: Memory, m': Memory, fl: BlList, fs: seq<Addr>, touched: seq<Range>, hs: set<Addr>)
    requires OnlyLinks(m, m', Bases(touched)) && LinkSpaced(hs) && HeadsIn(touched, fs, hs) && IsList(m, fl, FreeNodes(fs))
    ensures IsList(m', fl, FreeNodes(fs))
  {
    var ns := FreeNodes(fs);
    forall j | 0 <= j < |ns| ensures Load(m', ns[j]) == Load(m, ns[j]) && Load(m', ns[j] + NEXT) == Load(m, ns[j] + NEXT) {
      OutsideRanges(touched, hs, fs[j]);
    }
    ListFrame(m, m', fl, ns);
  }

  lemma {:induction false} NodesKeepRanges(m: Memory, m': Memory, rl: BlList, rs: seq<Range>, touched: seq<Addr>, hs: set<Addr>)
    requires OnlyLinks(m, m', FreeNodes(touched)) && LinkSpaced(hs) && HeadsIn(rs, touched, hs) && IsList(m, rl, Bases(rs))
    ensures IsList(m', rl, Bases(rs))
  {
    var bs := Bases(rs);
    forall j | 0 <= j < |bs| ensures Load(m', bs[j]) == Load(m, bs[j]) && Load(m', bs[j] + NEXT) == Load(m, bs[j] + NEXT) {
      OutsideNodes(touched, hs, rs[j].base);
    }
    ListFrame(m, m', rl, bs);
  }

  lemma {:induction false} RangesKeepField(m: Memory, m': Memory, r: Range, touched: seq<Range>, hs: set<Addr>)
    requires OnlyLinks(m, m', Bases(touched)) && HeadsIn(touched, [], hs) && FieldSafe(r.base, hs)
    ensures Field(m', r) == Field(m, r)
  {
    forall i | 0 <= i < |touched| ensures FieldApart(r.base, touched[i].base) {
      assert touched[i].base in hs;
    }
    assert Outside(r.base + END, Bases(touched)) && Outside(r.base + FREE, Bases(touched));
  }

  lemma {:induction false} NodesKeepField(m: Memory, m': Memory, r: Range, touched: seq<Addr>, hs: set<Addr>)
    requires OnlyLinks(m, m', FreeNodes(touched)) && HeadsIn([], touched, hs) && FieldSafe(r.base, hs)
    ensures Field(m', r) == Field(m, r)
  {
    forall i | 0 <= i < |touched| ensures FieldApart(r.base, touched[i]) {
      assert touched[i] in hs;
    }
    assert Outside(r.base + END, FreeNodes(touched)) && Outside(r.base + FREE, FreeNodes(touched));
  }

  /** Writing End and Free of a header changes no link word. */
  lemma {:induction false} FieldsKeepLists(m: Memory, m': Memory, rl: BlList, fl: BlList, rs: seq<Range>, fs: seq<Addr>,
                                           h: Addr, hs: set<Addr>)
    requires forall a: Addr | a != h + END && a != h + FREE :: Load(m', a) == Load(m, a)
    requires FieldSafe(h, hs) && HeadsIn(rs, fs, hs) && IsList(m, rl, Bases(rs)) && IsList(m, fl, FreeNodes(fs))
    ensures IsList(m', rl, Bases(rs)) && IsList(m', fl, FreeNodes(fs))
  {
    var bs, ns := Bases(rs), FreeNodes(fs);
    forall j | 0 <= j < |bs| ensures Load(m', bs[j]) == Load(m, bs[j]) && Load(m', bs[j] + NEXT) == Load(m, bs[j] + NEXT) {
      assert FieldApart(h, rs[j].base);
    }
    forall j | 0 <= j < |ns| ensures Load(m', ns[j]) == Load(m, ns[j]) && Load(m', ns[j] + NEXT) == Load(m, ns[j] + NEXT) {
      assert FieldApart(h, fs[j]);
    }
    ListFrame(m, m', rl, bs);
    ListFrame(m, m', fl, ns);
  }

  lemma {:induction false} FieldsKeepField(m: Memory, m': Memory, h: Addr, r: Range)
    requires forall a: Addr | a != h + END && a != h + FREE :: Load(m', a) == Load(m, a)
    requires LinksApart(r.base, h) && r.base != h
    ensures Field(m', r) == Field(m, r)
  {
  }

  lemma {:induction false} RangesInHeaders(m: Memory, m': Memory, touched: seq<Range>, hs: set<Addr>)
    requires OnlyLinks(m, m', Bases(touched)) && HeadsIn(touched, [], hs)
    ensures OnlyHeaders(m, m', hs)
  {
    forall a | OutsideHeaders(a, hs) ensures Outside(a, Bases(touched)) {
    }
  }

  lemma {:induction false} NodesInHeaders(m: Memory, m': Memory, touched: seq<Addr>, hs: set<Addr>)
    requires OnlyLinks(m, m', FreeNodes(touched)) && HeadsIn([], touched, hs)
    ensures OnlyHeaders(m, m', hs)
  {
    forall a | OutsideHeaders(a, hs) ensures Outside(a, FreeNodes(touched)) {
    }
  }

  lemma {:induction false} FieldsInHeaders(m: Memory, m': Memory, h: Addr, hs: set<Addr>)
    requires forall a: Addr | a != h + END && a != h + FREE :: Load(m', a) == Load(m, a)
    requires h in hs
    ensures OnlyHeaders(m, m', hs)
  {
    forall a | OutsideHeaders(a, hs) ensures a != h + END && a != h + FREE {
    }
  }

  // ----- one step at a time -----

  /** Both lists are in order, and so are End and Free of all ranges except possibly the one with index `k`. */
  ghost predicate Held(t: Threads, rs: seq<Range>, fs: seq<Addr>, k: int) {
    && IsList(t.m, t.rl, Bases(rs)) && IsList(t.m, t.fl, FreeNodes(fs))
    && forall i {:trigger Field(t.m, rs[i])} | 0 <= i < |rs| && i != k :: Field(t.m, rs[i])
  }

  /** The headers at `hs` leave each other's links alone, and the fields of all ranges but the one with index `k`. */
  ghost predicate Workable(rs: seq<Range>, fs: seq<Addr>, k: int, hs: set<Addr>) {
    && LinkSpaced(hs) && HeadsIn(rs, fs, hs)
    && forall i {:trigger rs[i].base} | 0 <= i < |rs| && i != k :: FieldSafe(rs[i].base, hs)
  }

  /** Linking a range, whose End and Free are written, into the list of ranges. */
  lemma {:induction false} RangeLinked(t: Threads, t': Threads, rs: seq<Range>, fs: seq<Addr>, k: nat, r: Range, p: nat, anchor: Addr,
                                       hs: set<Addr>)
    requires Held(t, rs, fs, k) && p == k + 1 <= |rs| && anchor == rs[k].base && Field(t.m, r)
    requires Workable(rs, fs, k, hs) && r.base in hs && FieldSafe(r.base, hs)
    requires forall i | 0 <= i < |rs| :: rs[i].base != r.base
    requires t' == LinkRanges(t, anchor, r.base)
    ensures Held(t', rs[..p] + [r] + rs[p..], fs, k) && OnlyHeaders(t.m, t'.m, hs)
    ensures FieldSafe(rs[k].base, hs) ==> Field(t'.m, rs[k]) == Field(t.m, rs[k])
  {
    var rs' := rs[..p] + [r] + rs[p..];
    RangeCanBeLinked(rs, r, hs);
    assert Bases(rs') == Inserted(Bases(rs), p, r.base);
    LinkedBehind(t.m, t.rl, anchor, r.base, Bases(rs), p);
    RangesKeepNodes(t.m, t'.m, t.fl, fs, rs', hs);
    RangesInHeaders(t.m, t'.m, rs', hs);
    forall i | 0 <= i < |rs'| && i != k ensures Field(t'.m, rs'[i]) {
      var q := if i < p then i else i - 1;
      assert i != p ==> rs'[i] == rs[q] && Field(t.m, rs[q]) && FieldSafe(rs[q].base, hs);
      RangesKeepField(t.m, t'.m, rs'[i], rs', hs);
    }
    if FieldSafe(rs[k].base, hs) {
      RangesKeepField(t.m, t'.m, rs[k], rs', hs);
    }
  }

  lemma {:induction false} RangeCanBeLinked(rs: seq<Range>, r: Range, hs: set<Addr>)
    requires LinkSpaced(hs) && r.base in hs && (forall i | 0 <= i < |rs| :: rs[i].base in hs && rs[i].base != r.base)
    ensures CanInsert(Bases(rs), r.base)
  {
    forall i | 0 <= i < |rs| ensures Apart(Bases(rs)[i], r.base) {
      assert LinksApart(rs[i].base, r.base);
    }
  }

  /** Linking its free node behind that of the range it was split off from. */
  lemma {:induction false} NodeLinked(t: Threads, t': Threads, rs: seq<Range>, fs: seq<Addr>, k: nat, h: Addr, j: nat, p: nat,
                                      anchor: Addr, node: Addr, hs: set<Addr>)
    requires Held(t, rs, fs, k) && p == j + 1 <= |fs| && anchor == fs[j] + FREE_NODE && node == h + FREE_NODE
    requires Workable(rs, fs, k, hs) && h in hs && (forall i | 0 <= i < |fs| :: fs[i] != h)
    requires t' == LinkNodes(t, anchor, node)
    ensures Held(t', rs, fs[..p] + [h] + fs[p..], k) && OnlyHeaders(t.m, t'.m, hs)
    ensures k < |rs| && FieldSafe(rs[k].base, hs) ==> Field(t'.m, rs[k]) == Field(t.m, rs[k])
  {
    var fs' := fs[..p] + [h] + fs[p..];
    NodeCanBeLinked(fs, h, node, hs);
    assert FreeNodes(fs') == Inserted(FreeNodes(fs), p, node);
    LinkedBehind(t.m, t.fl, anchor, node, FreeNodes(fs), p);
    NodesKeepRanges(t.m, t'.m, t.rl, rs, fs', hs);
    NodesInHeaders(t.m, t'.m, fs', hs);
    forall i | 0 <= i < |rs| && i != k ensures Field(t'.m, rs[i]) {
      assert Field(t.m, rs[i]) && FieldSafe(rs[i].base, hs);
      NodesKeepField(t.m, t'.m, rs[i], fs', hs);
    }
    if k < |rs| && FieldSafe(rs[k].base, hs) {
      NodesKeepField(t.m, t'.m, rs[k], fs', hs);
    }
  }

  lemma {:induction false} NodeCanBeLinked(fs: seq<Addr>, h: Addr, node: Addr, hs: set<Addr>)
    requires LinkSpaced(hs) && h in hs && node == h + FREE_NODE && (forall i | 0 <= i < |fs| :: fs[i] in hs && fs[i] != h)
    ensures CanInsert(FreeNodes(fs), node)
  {
    forall i | 0 <= i < |fs| ensures Apart(FreeNodes(fs)[i], node) {
      assert LinksApart(fs[i], h);
    }
  }

  lemma {:induction false} HeaderWritten(t: Threads, t': Threads, rs: seq<Range>, fs: seq<Addr>, n: Range, hs: set<Addr>)
    requires Represents(t, rs, fs) && LinkSpaced(hs) && HeadsIn(rs, fs, hs) && n.base in hs && FieldSafe(n.base, hs)
    requires (forall i | 0 <= i < |rs| :: rs[i].base != n.base) && t' == WithHeader(t, n.base, n.end, n.free)
    ensures Represents(t', rs, fs) && Field(t'.m, n) && OnlyHeaders(t.m, t'.m, hs)
  {
    FieldsKeepLists(t.m, t'.m, t.rl, t.fl, rs, fs, n.base, hs);
    FieldsInHeaders(t.m, t'.m, n.base, hs);
    forall i | 0 <= i < |rs| ensures Field(t'.m, rs[i]) {
      assert Field(t.m, rs[i]) && LinksApart(rs[i].base, n.base);
      FieldsKeepField(t.m, t'.m, n.base, rs[i]);
    }
  }

  /** Splitting a new free header off behind the range with index `k`. The fields of that range may be lost. */
  lemma {:induction false} SplitHolds(t: Threads, t': Threads, rs: seq<Range>, fs: seq<Addr>, k: nat, j: nat, a: Addr, n: Range,
                                      hs: set<Addr>)
    requires Represents(t, rs, fs) && k < |rs| && j < |fs| && a == rs[k].base && a == fs[j] && n.free
    requires Workable(rs, fs, k, hs) && n.base in hs && FieldSafe(n.base, hs)
    requires (forall i | 0 <= i < |rs| :: rs[i].base != n.base) && (forall i | 0 <= i < |fs| :: fs[i] != n.base)
    requires t' == SplitOff(t, a, n.base, n.end)
    ensures Held(t', rs[..k + 1] + [n] + rs[k + 1..], fs[..j + 1] + [n.base] + fs[j + 1..], k)
    ensures FieldSafe(a, hs) ==> Field(t'.m, rs[k])
    ensures OnlyHeaders(t.m, t'.m, hs)
  {
    var p, q := k + 1, j + 1;
    var t1 := WithHeader(t, n.base, n.end, true);
    var t2 := LinkRanges(t1, a, n.base);
    HeaderWritten(t, t1, rs, fs, n, hs);
    RangeLinked(t1, t2, rs, fs, k, n, p, a, hs);
    var rs' := rs[..p] + [n] + rs[p..];
    StillWorkable(rs, fs, k, n, p, hs);
    NodeLinked(t2, t', rs', fs, k, n.base, j, q, a + FREE_NODE, n.base + FREE_NODE, hs);
    assert rs'[k] == rs[k];
    OnlyHeadersTrans(t.m, t1.m, t2.m, hs);
    OnlyHeadersTrans(t.m, t2.m, t'.m, hs);
  }

  lemma {:induction false} StillWorkable(rs: seq<Range>, fs: seq<Addr>, k: nat, n: Range, p: nat, hs: set<Addr>)
    requires Workable(rs, fs, k, hs) && k < p <= |rs| && n.base in hs && FieldSafe(n.base, hs)
    ensures Workable(rs[..p] + [n] + rs[p..], fs, k, hs)
  {
    var rs' := rs[..p] + [n] + rs[p..];
    forall i | 0 <= i < |rs'| ensures rs'[i].base in hs && (i != k ==> FieldSafe(rs'[i].base, hs)) {
      var q := if i < p then i else i - 1;
      assert i != p ==> rs'[i] == rs[q] && rs[q].base in hs;
    }
  }

  /** Taking the range with index `k` off both lists: its own fields do not matter. */
  lemma {:induction false} DropHolds(t: Threads, t': Threads, rs: seq<Range>, fs: seq<Addr>, k: nat, j: nat, a: Addr, hs: set<Addr>)
    requires Held(t, rs, fs, k) && k < |rs| && j < |fs| && a == rs[k].base && a == fs[j]
    requires Workable(rs, fs, k, hs) && t' == DropHeader(t, a)
    ensures Represents(t', rs[..k] + rs[k + 1..], fs[..j] + fs[j + 1..]) && OnlyHeaders(t.m, t'.m, hs)
  {
    var t1 := UnlinkRanges(t, a);
    var rs', fs' := rs[..k] + rs[k + 1..], fs[..j] + fs[j + 1..];
    var bs, ns := Bases(rs), FreeNodes(fs);
    assert Bases(rs') == Removed(bs, k) && FreeNodes(fs') == Removed(ns, j);
    assert HeadsIn(rs', fs', hs);
    Unlinked(t.m, t.rl, a, bs, k);
    RangesKeepNodes(t.m, t1.m, t.fl, fs, rs', hs);
    Unlinked(t1.m, t1.fl, a + FREE_NODE, ns, j);
    NodesKeepRanges(t1.m, t'.m, t1.rl, rs', fs', hs);
    forall i | 0 <= i < |rs'| ensures Field(t'.m, rs'[i]) {
      var q := if i < k then i else i + 1;
      assert rs'[i] == rs[q] && Field(t.m, rs[q]) && FieldSafe(rs[q].base, hs);
      RangesKeepField(t.m, t1.m, rs'[i], rs', hs);
      NodesKeepField(t1.m, t'.m, rs'[i], fs', hs);
    }
    RangesInHeaders(t.m, t1.m, rs', hs);
    NodesInHeaders(t1.m, t'.m, fs', hs);
    OnlyHeadersTrans(t.m, t1.m, t'.m, hs);
  }

  /** Moving the end of the range with index `k`, whose fields are in order. */
  lemma {:induction false} EndHolds(t: Threads, t': Threads, rs: seq<Range>, fs: seq<Addr>, k: nat, a: Addr, end: Addr, hs: set<Addr>)
    requires Held(t, rs, fs, k) && k < |rs| && a == rs[k].base && Field(t.m, rs[k]) && Workable(rs, fs, k, hs) && FieldSafe(a, hs)
    requires (forall i | 0 <= i < |rs| && i != k :: rs[i].base != a) && t' == t.(m := t.m[a + END := end])
    ensures Represents(t', rs[k := rs[k].(end := end)], fs) && OnlyHeaders(t.m, t'.m, hs)
  {
    var rs' := rs[k := rs[k].(end := end)];
    FieldsKeepLists(t.m, t'.m, t.rl, t.fl, rs, fs, a, hs);
    FieldsInHeaders(t.m, t'.m, a, hs);
    assert Bases(rs') == Bases(rs);
    forall i | 0 <= i < |rs'| ensures Field(t'.m, rs'[i]) {
      if i != k {
        assert rs'[i] == rs[i] && Field(t.m, rs[i]) && LinksApart(rs[i].base, a);
        FieldsKeepField(t.m, t'.m, a, rs[i]);
      }
    }
  }

  /** A block that is placed completes sound lists. */
  lemma {:induction false} PlaceHolds(t: Threads, t': Threads, rs: seq<Range>, fs: seq<Addr>, i: nat, b: Range, anchor: Addr,
                                      cut: State, hs: set<Addr>)
    requires Represents(t, rs, fs) && Sound(cut.ranges, cut.free) && cut.free == fs && hs == Heads(cut.ranges)
    requires i <= |rs| && cut.ranges == rs[..i] + [b] + rs[i..] && !b.free && anchor == At(Bases(rs), i - 1)
    requires t' == PlaceBlock(t, anchor, b.base, b.end)
    ensures Represents(t', cut.ranges, cut.free) && OnlyHeaders(t.m, t'.m, hs)
  {
    assert cut.ranges[i] == b;
    OtherBases(cut.ranges, i);
    forall l | 0 <= l < |rs| ensures rs[l].base in hs && rs[l].base != b.base {
      assert rs[l] == cut.ranges[if l < i then l else l + 1];
    }
    var t1 := WithHeader(t, b.base, b.end, b.free);
    WrittenHeader(t.m, t1.m, t.rl, t.fl, rs, fs, b, hs);
    LinkedBehind(t1.m, t1.rl, anchor, b.base, Bases(rs), i);
    LinkedRange(t1.m, t'.m, t'.rl, t.fl, rs, fs, i, b, hs);
    OnlyHeadersTrans(t.m, t1.m, t'.m, hs);
  }

  // ----- the whole cut -----

  lemma {:induction false} BackApart(rs: seq<Range>, k: nat, f: Fit, i: nat)
    requires Chain(rs) && k < |rs| && i < |rs| && Placed(rs[k], f)
    ensures i < k ==> rs[i].base + HEADER <= f.allocEnd
    ensures i > k ==> rs[k].end <= rs[i].base
    ensures rs[i].base != f.allocEnd && rs[i].base != 0
  {
    assert RangeOk(rs[i]);
    assert i < k ==> Before(rs[i], rs[k]);
    assert k < i ==> Before(rs[k], rs[i]);
  }

  /** The headers of an allocation leave each other's links alone. */
  lemma {:induction false} HeadsWork(rs: seq<Range>, fs: seq<Addr>, k: nat, f: Fit, hs: set<Addr>)
    requires Chain(rs) && HeadsIn(rs, fs, Heads(rs)) && k < |rs| && Placed(rs[k], f) && LinksClear(rs[k], f)
    requires hs == Heads(rs) + Heads(Back(rs[k], f))
    ensures Workable(rs, fs, k, hs) && forall i | 0 <= i < |rs| :: rs[i].base != f.allocEnd
    ensures rs[k].end - f.allocEnd >= HEADER ==> f.allocEnd in hs && FieldSafe(f.allocEnd, hs)
    ensures rs[k].end - f.allocEnd >= HEADER ==> rs[k].base + HEADER <= f.allocEnd ==> FieldSafe(rs[k].base, hs)
    ensures rs[k].end - f.allocEnd < HEADER ==> FieldSafe(rs[k].base, hs)
  {
    ChainSpaced(rs);
    var back := rs[k].end - f.allocEnd >= HEADER;
    assert back ==> Back(rs[k], f)[0].base == f.allocEnd;
    forall i | 0 <= i < |rs|
      ensures rs[i].base != f.allocEnd
      ensures back ==> LinksApart(rs[i].base, f.allocEnd) && FieldApart(f.allocEnd, rs[i].base)
      ensures back && (i != k || rs[k].base + HEADER <= f.allocEnd) ==> FieldApart(rs[i].base, f.allocEnd)
    {
      BackApart(rs, k, f, i);
    }
    forall x, y | x in hs && y in hs ensures LinksApart(x, y) {
      assert x in Heads(rs) && y in Heads(rs) ==> HeaderApart(x, y);
    }
    forall i, x | 0 <= i < |rs| && x in Heads(rs) ensures FieldApart(rs[i].base, x) {
      assert HeaderApart(rs[i].base, x);
    }
  }

  /** The first part: what lies behind the block. */
  lemma {:induction false} BackHolds(t: Threads, t': Threads, rs: seq<Range>, fs: seq<Addr>, k: nat, j: nat, f: Fit,
                                     rs': seq<Range>, fs': seq<Addr>, hs: set<Addr>)
    requires Represents(t, rs, fs) && Chain(rs) && HeadsIn(rs, fs, Heads(rs)) && k < |rs| && j < |fs| && fs[j] == rs[k].base
    requires Placed(rs[k], f) && LinksClear(rs[k], f) && hs == Heads(rs) + Heads(Back(rs[k], f))
    requires rs' == rs[..k + 1] + Back(rs[k], f) + rs[k + 1..] && fs' == fs[..j + 1] + FreeBases(Back(rs[k], f)) + fs[j + 1..]
    requires t' == SplitBack(t, rs[k], f)
    ensures Held(t', rs', fs', k) && Workable(rs', fs', k, hs) && rs'[k] == rs[k] && fs'[j] == fs[j] && OnlyHeaders(t.m, t'.m, hs)
    ensures FieldSafe(rs[k].base, hs) ==> Field(t'.m, rs[k])
    ensures f.allocBase - rs[k].base >= HEADER ==> FieldSafe(rs[k].base, hs)
  {
    HeadsWork(rs, fs, k, f, hs);
    assert Field(t.m, rs[k]);
    if rs[k].end - f.allocEnd >= HEADER {
      var n := Range(f.allocEnd, rs[k].end, true);
      assert Back(rs[k], f) == [n];
      OneFreeBase(n);
      SplitHolds(t, t', rs, fs, k, j, rs[k].base, n, hs);
      StillWorkable(rs, fs, k, n, k + 1, hs);
    } else {
      assert rs' == rs && fs' == fs;
    }
  }

  /** The second part: what lies in front of it. */
  lemma {:induction false} FrontHolds(t: Threads, t': Threads, r: Range, rs: seq<Range>, fs: seq<Addr>, k: nat, j: nat, f: Fit, hs: set<Addr>)
    requires Held(t, rs, fs, k) && Workable(rs, fs, k, hs) && k < |rs| && j < |fs| && rs[k] == r && r.free && fs[j] == r.base
    requires f.Fit? && t' == KeepFront(t, r.base, f) && forall i | 0 <= i < |rs| && i != k :: rs[i].base != r.base
    requires f.allocBase - r.base >= HEADER ==> FieldSafe(r.base, hs) && Field(t.m, r)
    ensures Represents(t', rs[..k] + Front(r, f) + rs[k + 1..], fs[..j] + FreeBases(Front(r, f)) + fs[j + 1..])
    ensures OnlyHeaders(t.m, t'.m, hs)
    ensures AnchorOf(t, r.base, f) == At(Bases(rs[..k] + Front(r, f) + rs[k + 1..]), k + |Front(r, f)| - 1)
  {
    if f.allocBase - r.base >= HEADER {
      EndHolds(t, t', rs, fs, k, r.base, f.allocBase, hs);
      assert Front(r, f) == [r.(end := f.allocBase)];
      OneFreeBase(r.(end := f.allocBase));
      assert rs[k := r.(end := f.allocBase)] == rs[..k] + Front(r, f) + rs[k + 1..];
      assert fs == fs[..j] + [r.base] + fs[j + 1..];
    } else {
      DropHolds(t, t', rs, fs, k, j, r.base, hs);
      assert Linked(t.m, Bases(rs), k);
      assert rs[..k] + Front(r, f) + rs[k + 1..] == rs[..k] + rs[k + 1..];
      assert fs[..j] + FreeBases(Front(r, f)) + fs[j + 1..] == fs[..j] + fs[j + 1..];
    }
  }

  /** Before the block itself is placed. */
  lemma {:induction false} CarveHolds(t: Threads, t1: Threads, t2: Threads, rs: seq<Range>, fs: seq<Addr>, k: nat, j: nat, f: Fit,
                                      hs: set<Addr>)
    requires Represents(t, rs, fs) && Chain(rs) && Sound(rs, fs) && k < |rs| && j < |fs| && fs[j] == rs[k].base
    requires rs[k].free && Placed(rs[k], f) && LinksClear(rs[k], f) && hs == Heads(rs) + Heads(Back(rs[k], f))
    requires t1 == SplitBack(t, rs[k], f) && t2 == KeepFront(t1, rs[k].base, f)
    ensures Represents(t2, Carve(rs, k, f), CarveNodes(rs, fs, k, j, f)) && OnlyHeaders(t.m, t2.m, hs)
    ensures AnchorOf(t1, rs[k].base, f) == At(Bases(Carve(rs, k, f)), k + |Front(rs[k], f)| - 1)
  {
    var r := rs[k];
    var rs1, fs1 := rs[..k + 1] + Back(r, f) + rs[k + 1..], fs[..j + 1] + FreeBases(Back(r, f)) + fs[j + 1..];
    BackHolds(t, t1, rs, fs, k, j, f, rs1, fs1, hs);
    OthersDiffer(rs, k, f, rs1);
    FrontHolds(t1, t2, r, rs1, fs1, k, j, f, hs);
    CarvedSeqs(rs, fs, k, j, Front(r, f), Back(r, f), FreeBases(Front(r, f)), FreeBases(Back(r, f)));
    OnlyHeadersTrans(t.m, t1.m, t2.m, hs);
  }

  lemma {:induction false} OthersDiffer(rs: seq<Range>, k: nat, f: Fit, rs': seq<Range>)
    requires DistinctBases(rs) && k < |rs| && Placed(rs[k], f) && rs' == rs[..k + 1] + Back(rs[k], f) + rs[k + 1..]
    ensures forall i | 0 <= i < |rs'| && i != k :: rs'[i].base != rs[k].base
  {
    OtherBases(rs, k);
    var n := |Back(rs[k], f)|;
    forall i | 0 <= i < |rs'| && i != k ensures rs'[i].base != rs[k].base {
      var q := if i <= k then i else i - n;
      assert i < k || i > k + n ==> rs'[i] == rs[q];
    }
  }

  lemma {:induction false} SetsGrow(a: set<Addr>, b: set<Addr>, c: set<Addr>, ab: set<Addr>, ac: set<Addr>)
    requires b <= c && ab == a + b && ac == a + c
    ensures ab <= ac && c <= ac
  {
  }

  /** Carving and, unless the block is permanent, placing it. */
  lemma {:induction false} PartsHold(t: Threads, t1: Threads, t2: Threads, t': Threads, rs: seq<Range>, fs: seq<Addr>, r: Range,
                                     k: nat, j: nat, f: Fit, permanent: bool, cut: State, hs: set<Addr>, all: set<Addr>)
    requires Represents(t, rs, fs) && Chain(rs) && Sound(rs, fs) && k < |rs| && j < |fs| && r == rs[k] && fs[j] == r.base
    requires r.free && Placed(r, f) && LinksClear(r, f) && hs == Heads(rs) + Heads(Back(r, f))
    requires Cuts(rs, fs, k, j, f, permanent, cut) && Sound(cut.ranges, cut.free)
    requires hs <= all && Heads(cut.ranges) <= all
    requires t1 == SplitBack(t, r, f) && t2 == KeepFront(t1, r.base, f)
    requires t' == if permanent then t2 else PlaceBlock(t2, AnchorOf(t1, r.base, f), f.allocBase, BlockEnd(r, f))
    ensures Represents(t', cut.ranges, cut.free) && OnlyHeaders(t.m, t'.m, all)
  {
    CarveHolds(t, t1, t2, rs, fs, k, j, f, hs);
    OnlyHeadersMono(t.m, t2.m, hs, all);
    if !permanent {
      var carve, nodes := Carve(rs, k, f), CarveNodes(rs, fs, k, j, f);
      var anchor, i, b := AnchorOf(t1, r.base, f), k + |Front(r, f)|, Range(f.allocBase, BlockEnd(r, f), false);
      PlaceHolds(t2, t', carve, nodes, i, b, anchor, cut, Heads(cut.ranges));
      OnlyHeadersMono(t2.m, t'.m, Heads(cut.ranges), all);
      OnlyHeadersTrans(t.m, t2.m, t'.m, all);
    }
  }

  /** What is known about the state after the cut. */
  lemma {:induction false} CutKnown(s: State, k: nat, j: nat, f: Fit, permanent: bool, cut: State, hs: set<Addr>, all: set<Addr>)
    requires Inv(s) && k < |s.ranges| && j < |s.free| && s.free[j] == s.ranges[k].base && s.ranges[k].free && Placed(s.ranges[k], f)
    requires !permanent ==> f.allocBase + HEADER <= f.allocEnd
    requires cut == Cut(s, k, j, f, permanent)
    requires hs == Heads(s.ranges) + Heads(Back(s.ranges[k], f)) && all == Heads(s.ranges) + Heads(cut.ranges)
    ensures Inv(cut) && Sound(s.ranges, s.free) && Sound(cut.ranges, cut.free) && Cuts(s.ranges, s.free, k, j, f, permanent, cut)
    ensures hs <= all && Heads(cut.ranges) <= all
  {
    CutInv(s, k, j, f, permanent);
    InvIsSound(s);
    InvIsSound(cut);
    CutHeads(s, k, j, f, permanent);
    CutForms(s, k, j, f, permanent);
    SetsGrow(Heads(s.ranges), Heads(Back(s.ranges[k], f)), Heads(cut.ranges), hs, all);
  }

  /** The writes of an allocation leave exactly the lists of the specification. */
  lemma {:induction false} CutHolds(t: Threads, t': Threads, s: State, cut: State, k: nat, j: nat, r: Range, f: Fit, permanent: bool)
    requires Inv(s) && Represents(t, s.ranges, s.free) && k < |s.ranges| && j < |s.free| && r == s.ranges[k] && s.free[j] == r.base
    requires r.free && Placed(r, f) && LinksClear(r, f) && (!permanent ==> f.allocBase + HEADER <= f.allocEnd)
    requires t' == CutWrites(t, r, f, permanent) && cut == Cut(s, k, j, f, permanent)
    ensures Represents(t', cut.ranges, cut.free) && Inv(cut) && OnlyHeaders(t.m, t'.m, Heads(s.ranges) + Heads(cut.ranges))
  {
    var hs, all := Heads(s.ranges) + Heads(Back(r, f)), Heads(s.ranges) + Heads(cut.ranges);
    var t1 := SplitBack(t, r, f);
    var t2 := KeepFront(t1, r.base, f);
    CutKnown(s, k, j, f, permanent, cut, hs, all);
    PartsHold(t, t1, t2, t', s.ranges, s.free, r, k, j, f, permanent, cut, hs, all);
  }

  /** The range `r`, with index `k` and at position `j` of the free list, is where `f` was found. */
  ghost predicate Found(t: Threads, s: State, k: nat, j: nat, r: Range, f: Fit, need: nat, align: nat, permanent: bool) {
    && Inv(s) && Represents(t, s.ranges, s.free) && k < |s.ranges| && j < |s.free| && r == s.ranges[k] && s.free[j] == r.base
    && r.free && NeedOk(need) && AlignmentOk(align) && align >= ALIGNMENT
    && f == TryFit(r, need, align, HeadExtra(permanent)) && f.Fit? && (permanent ==> LinksClear(r, f))
  }

  /** The range that was found can be cut. */
  lemma {:induction false} FitHolds(t: Threads, t': Threads, s: State, cut: State, k: nat, j: nat, r: Range, f: Fit,
                                    need: nat, align: nat, permanent: bool)
    requires Found(t, s, k, j, r, f, need, align, permanent) && Leaves(s.ranges, cut.ranges, 0)
    requires t' == CutWrites(t, r, f, permanent) && cut == Cut(s, k, j, f, permanent)
    ensures Represents(t', cut.ranges, cut.free) && Inv(cut) && Untouched(t.m, t'.m, s, cut, 0)
  {
    TryFitSound(r, need, align, permanent);
    CutHolds(t, t', s, cut, k, j, r, f, permanent);
    HeaderWritesUntouched(t.m, t'.m, s, cut, 0);
  }

  // ----- when a link is lost -----

  /** The new header starts in the second word of the old one. */
  lemma {:induction false} FirstLinkLost(t: Threads, a: Addr, h: Addr, end: Addr)
    requires a != 0 && h == a + 4
    ensures Load(DropHeader(SplitOff(t, a, h, end), a).m, h) == h
  {
    var t1 := WithHeader(t, h, end, true);
    var t2 := LinkRanges(t1, a, h);
    assert Load(t2.m, a) == h && Load(t2.m, h) == h && Load(t2.m, h + NEXT) == a;
    var t3 := LinkNodes(t2, a + FREE_NODE, h + FREE_NODE);
    assert Load(t3.m, a) == h && Load(t3.m, h) == h && Load(t3.m, a + 8) == a + 12 && Load(t3.m, a + 12) == a + 12;
    var t4 := UnlinkRanges(t3, a);
    assert Load(t4.m, h) == h && Load(t4.m, a + 8) == h && Load(t4.m, a + 12) == a + 12;
  }

  /** An address of another header, or null. */
  predicate Elsewhere(x: Addr, a: Addr, h: Addr) {
    x == 0 || x + HEADER <= a || h + HEADER <= x
  }

  /** After the new header is in the list of ranges, if it starts in the third word or behind. */
  lemma {:induction false} BehindLinked(t: Threads, a: Addr, h: Addr, end: Addr, p: Addr, n: Addr)
    requires a != 0 && a + 8 <= h < a + LINKS && Load(t.m, a) == p && Load(t.m, a + NEXT) == n
    requires Elsewhere(p, a, h) && Elsewhere(n, a, h)
    ensures var m := LinkRanges(WithHeader(t, h, end, true), a, h).m;
            && Load(m, a) == p && Load(m, a + NEXT) == h && Load(m, h) == a && Load(m, h + NEXT) == n
            && (h == a + 12 ==> Load(m, a + 8) == Load(t.m, a + 8))
  {
    var t1 := WithHeader(t, h, end, true);
    var t2 := LinkRanges(t1, a, h);
    assert Load(t1.m, a) == p && Load(t1.m, a + NEXT) == n;
  }

  /** It starts in the third word. */
  lemma {:induction false} SecondLinkLost(t: Threads, a: Addr, h: Addr, end: Addr, p: Addr, n: Addr)
    requires a != 0 && h == a + 8 && Load(t.m, a) == p && Load(t.m, a + NEXT) == n && Elsewhere(p, a, h) && Elsewhere(n, a, h)
    ensures Load(DropHeader(SplitOff(t, a, h, end), a).m, h + NEXT) == h + FREE_NODE
  {
    var t2 := LinkRanges(WithHeader(t, h, end, true), a, h);
    BehindLinked(t, a, h, end, p, n);
    var t3 := LinkNodes(t2, a + FREE_NODE, h + FREE_NODE);
    assert Load(t3.m, a) == p && Load(t3.m, a + 4) == h && Load(t3.m, a + 8) == a && Load(t3.m, a + 12) == a + 16;
    ThirdDropped(t3, a, p);
  }

  lemma {:induction false} ThirdDropped(t: Threads, a: Addr, p: Addr)
    requires a != 0 && Elsewhere(p, a, a + 8) && Load(t.m, a) == p && Load(t.m, a + 4) == a + 8 && Load(t.m, a + 8) == a
    requires Load(t.m, a + 12) == a + 16
    ensures Load(DropHeader(t, a).m, a + 12) == a + 16
  {
    var t' := UnlinkRanges(t, a);
    assert Load(t'.m, a + 8) == p && Load(t'.m, a + 12) == a + 16;
  }

  /** It starts in the fourth word. */
  lemma {:induction false} ThirdLinkLost(t: Threads, a: Addr, h: Addr, end: Addr, p: Addr, n: Addr, fp: Addr)
    requires a != 0 && h == a + 12 && Load(t.m, a) == p && Load(t.m, a + NEXT) == n && Load(t.m, a + FREE_NODE) == fp
    requires Elsewhere(p, a, h) && Elsewhere(n, a, h) && (fp == 0 || (fp >= 8 && Elsewhere(fp - 8, a, h)))
    ensures Load(DropHeader(SplitOff(t, a, h, end), a).m, h) == h + FREE_NODE
  {
    var t2 := LinkRanges(WithHeader(t, h, end, true), a, h);
    BehindLinked(t, a, h, end, p, n);
    var t3 := LinkNodes(t2, a + FREE_NODE, h + FREE_NODE);
    assert Load(t3.m, a) == a + 20 && Load(t3.m, a + 4) == h && Load(t3.m, a + 8) == fp && Load(t3.m, a + 12) == a + 20;
    FourthDropped(t3, a, fp);
  }

  lemma {:induction false} FourthDropped(t: Threads, a: Addr, fp: Addr)
    requires a != 0 && (fp == 0 || (fp >= 8 && Elsewhere(fp - 8, a, a + 12)))
    requires Load(t.m, a) == a + 20 && Load(t.m, a + 4) == a + 12 && Load(t.m, a + 8) == fp && Load(t.m, a + 12) == a + 20
    ensures Load(DropHeader(t, a).m, a + 12) == a + 20
  {
    var t' := UnlinkRanges(t, a);
    assert Load(t'.m, a + 8) == fp && Load(t'.m, a + 12) == a + 20;
  }

  /** What the header that is split off should be linked to. */
  lemma {:induction false} LinkedAt(t: Threads, rs: seq<Range>, fs: seq<Addr>, k: nat, h: Addr)
    requires Represents(t, rs, fs) && k < |rs| && rs[k].base == h
    ensures Load(t.m, h) == (if k > 0 then rs[k - 1].base else 0)
    ensures Load(t.m, h + NEXT) == (if k + 1 < |rs| then rs[k + 1].base else 0)
  {
    assert Linked(t.m, Bases(rs), k);
  }

  /** The neighbours on both lists of the range that is cut. */
  lemma {:induction false} NeighboursElsewhere(t: Threads, s: State, k: nat, j: nat, a: Addr, h: Addr)
    requires Inv(s) && Represents(t, s.ranges, s.free) && k < |s.ranges| && j < |s.free| && s.free[j] == s.ranges[k].base == a
    requires a < h && h + HEADER <= s.ranges[k].end
    ensures a != 0 && Elsewhere(Load(t.m, a), a, h) && Elsewhere(Load(t.m, a + NEXT), a, h)
    ensures var fp := Load(t.m, a + FREE_NODE); fp == 0 || (fp >= 8 && Elsewhere(fp - 8, a, h))
  {
    var rs := s.ranges;
    LinkedAt(t, rs, s.free, k, a);
    assert RangeOk(rs[k]);
    assert k > 0 ==> Before(rs[k - 1], rs[k]) && RangeOk(rs[k - 1]);
    assert k + 1 < |rs| ==> Before(rs[k], rs[k + 1]);
    assert Linked(t.m, FreeNodes(s.free), j);
    if j > 0 {
      FreeElsewhere(s, k, j - 1, j, a, h);
    }
  }

  lemma {:induction false} FreeElsewhere(s: State, k: nat, i: nat, j: nat, a: Addr, h: Addr)
    requires Inv(s) && k < |s.ranges| && i < j < |s.free| && s.free[j] == s.ranges[k].base == a
    requires a < h && h + HEADER <= s.ranges[k].end
    ensures Elsewhere(s.free[i], a, h)
  {
    FreeListExact(s);
    var rs, l := s.ranges, IndexOf(s.ranges, s.free[i]);
    assert s.free[i] in s.free && RangeOk(rs[l]);
    assert l < k ==> Before(rs[l], rs[k]);
    assert k < l ==> Before(rs[k], rs[l]);
  }

  lemma {:induction false} LostWrites(t: Threads, s: State, k: nat, j: nat, f: Fit, permanent: bool, h: Addr)
    requires k < |s.ranges| && j < |s.free| && f.Fit? && h == f.allocEnd && permanent
    requires f.allocBase - s.ranges[k].base < HEADER && s.ranges[k].end - h >= HEADER
    ensures CutWrites(t, s.ranges[k], f, permanent) ==
            DropHeader(SplitOff(t, s.ranges[k].base, h, s.ranges[k].end), s.ranges[k].base)
    ensures var cut := Cut(s, k, j, f, permanent).ranges;
            && k < |cut| && cut[k].base == h && (k > 0 ==> cut[k - 1] == s.ranges[k - 1])
            && (k + 1 < |cut| ==> k + 1 < |s.ranges| && cut[k + 1] == s.ranges[k + 1])
  {
    var r := s.ranges[k];
    assert Pieces(r, f, permanent) == [Range(h, r.end, true)];
  }

  /** A header that reaches into the links of the old one: some link of it is lost. */
  lemma {:induction false} CutFails(t: Threads, s: State, k: nat, j: nat, f: Fit, permanent: bool)
    requires Inv(s) && Represents(t, s.ranges, s.free) && k < |s.ranges| && j < |s.free| && s.free[j] == s.ranges[k].base
    requires Placed(s.ranges[k], f) && !LinksClear(s.ranges[k], f)
    requires !permanent ==> f.allocBase + HEADER <= f.allocEnd
    ensures var cut := Cut(s, k, j, f, permanent);
            !Represents(CutWrites(t, s.ranges[k], f, permanent), cut.ranges, cut.free)
  {
    var rs, r, a, h := s.ranges, s.ranges[k], s.ranges[k].base, f.allocEnd;
    var cut, t' := Cut(s, k, j, f, permanent), CutWrites(t, r, f, permanent);
    assert RangeOk(r);
    LostWrites(t, s, k, j, f, permanent, h);
    NeighboursElsewhere(t, s, k, j, a, h);
    LinkIsLost(t, a, h, r.end);
    assert k > 0 ==> Before(rs[k - 1], rs[k]) && RangeOk(rs[k - 1]);
    assert k + 1 < |rs| ==> Before(rs[k], rs[k + 1]);
    if Represents(t', cut.ranges, cut.free) {
      LinkedAt(t', cut.ranges, cut.free, k, h);
    }
  }

  lemma {:induction false} LinkIsLost(t: Threads, a: Addr, h: Addr, end: Addr)
    requires a != 0 && a < h < a + LINKS && Aligned(a) && Aligned(h)
    requires Elsewhere(Load(t.m, a), a, h) && Elsewhere(Load(t.m, a + NEXT), a, h)
    requires var fp := Load(t.m, a + FREE_NODE); fp == 0 || (fp >= 8 && Elsewhere(fp - 8, a, h))
    ensures var m := DropHeader(SplitOff(t, a, h, end), a).m;
            h <= Load(m, h) <= h + FREE_NODE || Load(m, h + NEXT) == h + FREE_NODE
  {
    var p, n, fp := Load(t.m, a), Load(t.m, a + NEXT), Load(t.m, a + FREE_NODE);
    if h == a + 4 {
      FirstLinkLost(t, a, h, end);
    } else if h == a + 8 {
      SecondLinkLost(t, a, h, end, p, n);
    } else {
      ThirdLinkLost(t, a, h, end, p, n, fp);
    }
  }

  /** The writes of an allocation leave the lists that they should if and only if the header split off behind the block
      does not reach into the links of the old one. */
  lemma {:induction false} CutExact(t: Threads, t': Threads, s: State, cut: State, k: nat, j: nat, r: Range, f: Fit, permanent: bool)
    requires Inv(s) && Represents(t, s.ranges, s.free) && k < |s.ranges| && j < |s.free| && r == s.ranges[k] && s.free[j] == r.base
    requires r.free && Placed(r, f) && (!permanent ==> f.allocBase + HEADER <= f.allocEnd)
    requires t' == CutWrites(t, r, f, permanent) && cut == Cut(s, k, j, f, permanent)
    ensures Represents(t', cut.ranges, cut.free) <==> LinksClear(r, f)
  {
    if LinksClear(r, f) {
      CutHolds(t, t', s, cut, k, j, r, f, permanent);
    } else {
      CutFails(t, s, k, j, f, permanent);
    }
  }
}
