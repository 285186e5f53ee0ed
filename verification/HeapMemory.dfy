/** The headers of the heap in memory: both lists, threaded through one structure. */
module HeapMemory {
  import opened Lists
  import opened HeapSpec

  // struct HeapRange { Node; FreeNode; End; Free; }
  const FREE_NODE := 8
  const END := 16
  const FREE := 20

  function Bases(rs: seq<Range>): (bs: seq<Addr>)
    ensures |bs| == |rs|
  {
    seq(|rs|, i requires 0 <= i < |rs| => rs[i].base)
  }

  function FreeNodes(fs: seq<Addr>): (ns: seq<Addr>)
    ensures |ns| == |fs|
  {
    seq(|fs|, i requires 0 <= i < |fs| => fs[i] + FREE_NODE)
  }

  predicate Field(m: Memory, r: Range) {
    Load(m, r.base + END) == r.end && Load(m, r.base + FREE) == (if r.free then 1 else 0)
  }

  ghost predicate Fields(m: Memory, rs: seq<Range>) {
    forall i {:trigger Field(m, rs[i])} | 0 <= i < |rs| :: Field(m, rs[i])
  }

  /** The headers in memory are those of `rs`, in order, with `fs` on the free list. */
  ghost predicate Rep(m: Memory, rl: BlList, fl: BlList, rs: seq<Range>, fs: seq<Addr>) {
    IsList(m, rl, Bases(rs)) && IsList(m, fl, FreeNodes(fs)) && Fields(m, rs)
  }

  // ----- headers that do not overlap -----

  predicate HeaderApart(x: Addr, y: Addr) {
    x == y || x + HEADER <= y || y + HEADER <= x
  }

  /** No two headers at these addresses overlap, and none is at the null address. */
  ghost predicate Spaced(hs: set<Addr>) {
    0 !in hs && forall x, y {:trigger HeaderApart(x, y)} | x in hs && y in hs :: HeaderApart(x, y)
  }

  ghost predicate HeadsIn(rs: seq<Range>, fs: seq<Addr>, hs: set<Addr>) {
    && (forall i | 0 <= i < |rs| :: rs[i].base in hs)
    && (forall j | 0 <= j < |fs| :: fs[j] in hs)
  }

  /** `a` is in none of the headers. */
  ghost predicate OutsideHeaders(a: Addr, hs: set<Addr>) {
    forall h | h in hs :: !(h <= a < h + HEADER)
  }

  ghost predicate OnlyHeaders(m: Memory, m': Memory, hs: set<Addr>) {
    forall a {:trigger OutsideHeaders(a, hs)} | OutsideHeaders(a, hs) :: Load(m', a) == Load(m, a)
  }

  lemma {:induction false} OnlyHeadersTrans(m1: Memory, m2: Memory, m3: Memory, hs: set<Addr>)
    requires OnlyHeaders(m1, m2, hs) && OnlyHeaders(m2, m3, hs)
    ensures OnlyHeaders(m1, m3, hs)
  {
  }

  lemma {:induction false} OnlyHeadersMono(m: Memory, m': Memory, hs: set<Addr>, hs': set<Addr>)
    requires OnlyHeaders(m, m', hs) && hs <= hs'
    ensures OnlyHeaders(m, m', hs')
  {
    forall a | OutsideHeaders(a, hs') ensures Load(m', a) == Load(m, a) {
      assert OutsideHeaders(a, hs);
    }
  }

  lemma {:induction false} OnlyHeadersJoin(m1: Memory, m2: Memory, m3: Memory, hs: set<Addr>, hs': set<Addr>)
    requires OnlyHeaders(m1, m2, hs) && OnlyHeaders(m2, m3, hs')
    ensures OnlyHeaders(m1, m3, hs + hs')
  {
    OnlyHeadersMono(m1, m2, hs, hs + hs');
    OnlyHeadersMono(m2, m3, hs', hs + hs');
  }

  // ----- one list does not disturb the other -----

  lemma {:induction false} OutsideBases(rs: seq<Range>, hs: set<Addr>, h: Addr, offset: nat)
    requires Spaced(hs) && h in hs && (forall i | 0 <= i < |rs| :: rs[i].base in hs)
    requires NODE_SIZE <= offset < HEADER
    ensures Outside(h + offset, Bases(rs))
  {
    forall i | 0 <= i < |rs| ensures h + offset != rs[i].base && h + offset != rs[i].base + NEXT {
      assert HeaderApart(h, rs[i].base);
    }
  }

  lemma {:induction false} OutsideFreeNodes(fs: seq<Addr>, hs: set<Addr>, h: Addr, offset: nat)
    requires Spaced(hs) && h in hs && (forall j | 0 <= j < |fs| :: fs[j] in hs)
    requires offset < FREE_NODE || END <= offset < HEADER
    ensures Outside(h + offset, FreeNodes(fs))
  {
    forall j | 0 <= j < |fs| ensures h + offset != fs[j] + FREE_NODE && h + offset != fs[j] + FREE_NODE + NEXT {
      assert HeaderApart(h, fs[j]);
    }
  }

  lemma {:induction false} RangeLinksFrame(m: Memory, m': Memory, fl: BlList, rs: seq<Range>, fs: seq<Addr>,
                        touched: seq<Range>, hs: set<Addr>)
    requires OnlyLinks(m, m', Bases(touched)) && Spaced(hs)
    requires HeadsIn(rs, fs, hs) && HeadsIn(touched, [], hs)
    ensures IsList(m, fl, FreeNodes(fs)) ==> IsList(m', fl, FreeNodes(fs))
    ensures Fields(m, rs) ==> Fields(m', rs)
    ensures OnlyHeaders(m, m', hs)
  {
    if IsList(m, fl, FreeNodes(fs)) {
      forall j | 0 <= j < |fs|
        ensures Load(m', FreeNodes(fs)[j]) == Load(m, FreeNodes(fs)[j])
        ensures Load(m', FreeNodes(fs)[j] + NEXT) == Load(m, FreeNodes(fs)[j] + NEXT)
      {
        OutsideBases(touched, hs, fs[j], FREE_NODE);
        OutsideBases(touched, hs, fs[j], FREE_NODE + NEXT);
      }
      ListFrame(m, m', fl, FreeNodes(fs));
    }
    if Fields(m, rs) {
      forall i | 0 <= i < |rs| ensures Field(m', rs[i]) {
        assert Field(m, rs[i]);
        OutsideBases(touched, hs, rs[i].base, END);
        OutsideBases(touched, hs, rs[i].base, FREE);
      }
    }
    forall a | OutsideHeaders(a, hs) ensures Outside(a, Bases(touched)) {
    }
  }

  lemma {:induction false} FreeLinksFrame(m: Memory, m': Memory, rl: BlList, rs: seq<Range>, touched: seq<Addr>, hs: set<Addr>)
    requires OnlyLinks(m, m', FreeNodes(touched)) && Spaced(hs)
    requires HeadsIn(rs, touched, hs)
    ensures IsList(m, rl, Bases(rs)) ==> IsList(m', rl, Bases(rs))
    ensures Fields(m, rs) ==> Fields(m', rs)
    ensures OnlyHeaders(m, m', hs)
  {
    if IsList(m, rl, Bases(rs)) {
      forall i | 0 <= i < |rs|
        ensures Load(m', Bases(rs)[i]) == Load(m, Bases(rs)[i])
        ensures Load(m', Bases(rs)[i] + NEXT) == Load(m, Bases(rs)[i] + NEXT)
      {
        OutsideFreeNodes(touched, hs, rs[i].base, 0);
        OutsideFreeNodes(touched, hs, rs[i].base, NEXT);
      }
      ListFrame(m, m', rl, Bases(rs));
    }
    if Fields(m, rs) {
      forall i | 0 <= i < |rs| ensures Field(m', rs[i]) {
        assert Field(m, rs[i]);
        OutsideFreeNodes(touched, hs, rs[i].base, END);
        OutsideFreeNodes(touched, hs, rs[i].base, FREE);
      }
    }
    forall a | OutsideHeaders(a, hs) ensures Outside(a, FreeNodes(touched)) {
    }
  }

  /** Writing the two data fields of a header changes no link word and no other header. */
  lemma {:induction false} FieldsFrame(m: Memory, m': Memory, rl: BlList, fl: BlList, rs: seq<Range>, fs: seq<Addr>,
                    h: Addr, hs: set<Addr>)
    requires forall a: Addr | a != h + END && a != h + FREE :: Load(m', a) == Load(m, a)
    requires Spaced(hs) && HeadsIn(rs, fs, hs) && h in hs
    ensures IsList(m, rl, Bases(rs)) ==> IsList(m', rl, Bases(rs))
    ensures IsList(m, fl, FreeNodes(fs)) ==> IsList(m', fl, FreeNodes(fs))
    ensures forall i | 0 <= i < |rs| && rs[i].base != h && Field(m, rs[i]) :: Field(m', rs[i])
    ensures OnlyHeaders(m, m', hs)
  {
    forall i | 0 <= i < |rs|
      ensures Load(m', rs[i].base) == Load(m, rs[i].base)
      ensures Load(m', rs[i].base + NEXT) == Load(m, rs[i].base + NEXT)
      ensures rs[i].base != h && Field(m, rs[i]) ==> Field(m', rs[i])
    {
      assert HeaderApart(rs[i].base, h);
    }
    if IsList(m, rl, Bases(rs)) {
      ListFrame(m, m', rl, Bases(rs));
    }
    forall j | 0 <= j < |fs|
      ensures Load(m', FreeNodes(fs)[j]) == Load(m, FreeNodes(fs)[j])
      ensures Load(m', FreeNodes(fs)[j] + NEXT) == Load(m, FreeNodes(fs)[j] + NEXT)
    {
      assert HeaderApart(fs[j], h);
    }
    if IsList(m, fl, FreeNodes(fs)) {
      ListFrame(m, m', fl, FreeNodes(fs));
    }
  }

  // ----- list operations on headers -----

  lemma {:induction false} LinkedRange(m: Memory, m': Memory, rl: BlList, fl: BlList, rs: seq<Range>, fs: seq<Addr>,
                    k: nat, r: Range, hs: set<Addr>)
    requires k <= |rs| && Spaced(hs) && HeadsIn(rs, fs, hs) && r.base in hs
    requires IsList(m', rl, Inserted(Bases(rs), k, r.base)) && OnlyLinks(m, m', Inserted(Bases(rs), k, r.base))
    requires IsList(m, fl, FreeNodes(fs)) && Fields(m, rs) && Field(m, r)
    ensures Rep(m', rl, fl, rs[..k] + [r] + rs[k..], fs) && OnlyHeaders(m, m', hs)
    ensures HeadsIn(rs[..k] + [r] + rs[k..], fs, hs)
  {
    var rs' := rs[..k] + [r] + rs[k..];
    assert Bases(rs') == Inserted(Bases(rs), k, r.base);
    RangeLinksFrame(m, m', fl, rs', fs, rs', hs);
  }

  lemma {:induction false} UnlinkedRange(m: Memory, m': Memory, rl: BlList, fl: BlList, rs: seq<Range>, fs: seq<Addr>,
                      k: nat, hs: set<Addr>)
    requires k < |rs| && Spaced(hs) && HeadsIn(rs, fs, hs)
    requires IsList(m', rl, Removed(Bases(rs), k)) && OnlyLinks(m, m', Removed(Bases(rs), k))
    requires IsList(m, fl, FreeNodes(fs)) && Fields(m, rs)
    ensures Rep(m', rl, fl, rs[..k] + rs[k + 1..], fs) && OnlyHeaders(m, m', hs)
    ensures HeadsIn(rs[..k] + rs[k + 1..], fs, hs) && Field(m', rs[k])
  {
    var rs' := rs[..k] + rs[k + 1..];
    assert Bases(rs') == Removed(Bases(rs), k);
    RangeLinksFrame(m, m', fl, rs', fs, rs', hs);
    OutsideBases(rs', hs, rs[k].base, END);
    OutsideBases(rs', hs, rs[k].base, FREE);
    assert Field(m, rs[k]);
  }

  lemma {:induction false} WrittenHeader(m: Memory, m': Memory, rl: BlList, fl: BlList, rs: seq<Range>, fs: seq<Addr>,
                      r: Range, hs: set<Addr>)
    requires Rep(m, rl, fl, rs, fs) && Spaced(hs) && HeadsIn(rs, fs, hs) && r.base in hs
    requires forall i | 0 <= i < |rs| :: rs[i].base != r.base
    requires m' == m[r.base + END := r.end][r.base + FREE := if r.free then 1 else 0]
    ensures Rep(m', rl, fl, rs, fs) && Field(m', r) && OnlyHeaders(m, m', hs)
    ensures CanInsert(Bases(rs), r.base)
  {
    FieldsFrame(m, m', rl, fl, rs, fs, r.base, hs);
    forall i | 0 <= i < |rs| ensures Apart(Bases(rs)[i], r.base) {
      assert HeaderApart(rs[i].base, r.base);
    }
  }
}
