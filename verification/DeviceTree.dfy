/** bootloader/dt.c as a class: the tree of structures, and the blob it writes. */
module DeviceTree {
  import opened Basics
  import opened Lists
  import opened Buffers
  import opened DtSpec
  import opened DtTree
  import opened DtParse
  import opened DtStrings
  import opened DtTable
  import opened DtWriter
  import opened DtWalk
  import opened DtBlob

  /** `struct BlDtProperty`: `name` points to an entry of the string table. */
  datatype PropStruct = PropStruct(name: Addr, data: Bytes)

  /** `struct BlDtNode`, without its own list node, which is kept at the address of the structure. */
  datatype NodeStruct = NodeStruct(parent: Addr, name: Bytes, children: BlList, properties: seq<PropStruct>)

  function AddrsOf(at: seq<Addr>, ks: seq<nat>): (r: seq<Addr>)
    ensures |r| == |ks|
  {
    seq(|ks|, j requires 0 <= j < |ks| => At(at, ks[j]))
  }

  ghost predicate PropRep(p: PropStruct, q: Prop, order: seq<Entry>) {
    p.data == q.data && HasEntry(order, Entry(p.name, q.name))
  }

  ghost predicate PropsRep(ps: seq<PropStruct>, qs: seq<Prop>, order: seq<Entry>) {
    |ps| == |qs| && forall i {:trigger PropRep(ps[i], qs[i], order)} | 0 <= i < |ps| :: PropRep(ps[i], qs[i], order)
  }

  function ParentAddr(ns: seq<DtNode>, at: seq<Addr>, i: nat): Addr
    requires i < |ns|
  {
    if i == 0 then 0 else At(at, ns[i].parent)
  }

  /** The structure at `at[i]` is node number `i`. */
  ghost predicate NodeRep(s: NodeStruct, links: Memory, ns: seq<DtNode>, at: seq<Addr>, order: seq<Entry>, i: nat)
    requires i < |ns|
  {
    && s.parent == ParentAddr(ns, at, i) && s.name == ns[i].name && PropsRep(s.properties, ns[i].props, order)
    && IsList(links, s.children, AddrsOf(at, ns[i].kids))
  }

  ghost predicate InPlace(nodes: map<Addr, NodeStruct>, links: Memory, ns: seq<DtNode>, at: seq<Addr>,
                          order: seq<Entry>, i: nat)
    requires i < |ns| == |at|
  {
    at[i] in nodes && NodeRep(nodes[at[i]], links, ns, at, order, i)
  }

  ghost predicate AllInPlace(nodes: map<Addr, NodeStruct>, links: Memory, ns: seq<DtNode>, at: seq<Addr>,
                             order: seq<Entry>) {
    |ns| == |at| &&
    forall i {:trigger InPlace(nodes, links, ns, at, order, i)} | 0 <= i < |ns| ::
      InPlace(nodes, links, ns, at, order, i)
  }

  // ----- creating a node -----

  lemma {:induction false} KidAddrsApart(ns: seq<DtNode>, at: seq<Addr>, i: nat, j: nat, k: nat, l: nat)
    requires Inv(ns) && |ns| == |at| && AllApart(at) && i < |ns| && k < |ns|
    requires j < |ns[i].kids| && l < |ns[k].kids| && i != k
    ensures Apart(AddrsOf(at, ns[i].kids)[j], AddrsOf(at, ns[k].kids)[l])
  {
    assert KidOk(ns, i, j) && KidOk(ns, k, l);
    var x, y := ns[i].kids[j], ns[k].kids[l];
    assert x < y ==> Apart(at[x], at[y]);
    assert y < x ==> Apart(at[y], at[x]);
  }

  /** Linking a new child into one list leaves the lists of all other nodes. */
  lemma {:induction false} OtherKids(ns: seq<DtNode>, at: seq<Addr>, m: Memory, m': Memory, p: nat, room: Addr,
                                     i: nat, l: BlList)
    requires Inv(ns) && |ns| == |at| && AllApart(at) && CanInsert(at, room) && p < |ns| && i < |ns| && i != p
    requires OnlyLinks(m, m', Inserted(AddrsOf(at, ns[p].kids), |ns[p].kids|, room))
    requires IsList(m, l, AddrsOf(at, ns[i].kids))
    ensures IsList(m', l, AddrsOf(at, ns[i].kids))
  {
    var mine, touched := AddrsOf(at, ns[i].kids), Inserted(AddrsOf(at, ns[p].kids), |ns[p].kids|, room);
    forall j | 0 <= j < |mine| ensures Outside(mine[j], touched) && Outside(mine[j] + NEXT, touched) {
      assert KidOk(ns, i, j) && Apart(at[ns[i].kids[j]], room);
      forall x | 0 <= x < |touched| ensures Apart(mine[j], touched[x]) {
        if x < |ns[p].kids| {
          KidAddrsApart(ns, at, i, j, p, x);
        }
      }
    }
    ListFrame(m, m', l, mine);
  }

  lemma {:induction false} AddrsKept(at: seq<Addr>, room: Addr, ks: seq<nat>)
    requires forall j | 0 <= j < |ks| :: ks[j] < |at|
    ensures AddrsOf(at + [room], ks) == AddrsOf(at, ks)
  {
  }

  lemma {:induction false} KidsBelow(ns: seq<DtNode>, i: nat)
    requires Inv(ns) && i < |ns|
    ensures forall j | 0 <= j < |ns[i].kids| :: ns[i].kids[j] < |ns|
    ensures i > 0 ==> ns[i].parent < i
  {
    forall j | 0 <= j < |ns[i].kids| ensures ns[i].kids[j] < |ns| {
      assert KidOk(ns, i, j);
    }
    if i > 0 {
      assert HasPlace(ns, i);
      var j: nat :| KidAt(ns, i, j);
      assert KidOk(ns, ns[i].parent, j);
    }
  }

  lemma {:induction false} KidAddrsFresh(ns: seq<DtNode>, at: seq<Addr>, p: nat, room: Addr)
    requires Inv(ns) && |ns| == |at| && CanInsert(at, room) && p < |ns|
    ensures CanInsert(AddrsOf(at, ns[p].kids), room)
  {
    KidsBelow(ns, p);
  }

  /** The structures after BlDtCreateNode. */
  lemma {:induction false} CreatedInPlace(nodes: map<Addr, NodeStruct>, m: Memory, ns: seq<DtNode>, at: seq<Addr>,
                                          order: seq<Entry>, p: nat, name: Bytes, room: Addr, m': Memory, l': BlList)
    requires Inv(ns) && AllInPlace(nodes, m, ns, at, order) && AllApart(at) && CanInsert(at, room) && p < |ns|
    requires IsList(m', l', Inserted(AddrsOf(at, ns[p].kids), |ns[p].kids|, room))
    requires OnlyLinks(m, m', Inserted(AddrsOf(at, ns[p].kids), |ns[p].kids|, room))
    ensures InPlace(nodes, m, ns, at, order, p)
    ensures AllInPlace(nodes[room := NodeStruct(at[p], name, EMPTY, [])]
                            [at[p] := nodes[at[p]].(children := l')],
                       m', WithNode(ns, p, name), at + [room], order)
  {
    assert InPlace(nodes, m, ns, at, order, p) && Apart(at[p], room);
    var nodes' := nodes[room := NodeStruct(at[p], name, EMPTY, [])][at[p] := nodes[at[p]].(children := l')];
    var ns', at' := WithNode(ns, p, name), at + [room];
    KidsBelow(ns, p);
    forall i | 0 <= i < |ns'| ensures InPlace(nodes', m', ns', at', order, i) {
      if i == |ns| {
        assert AddrsOf(at', ns'[i].kids) == [];
      } else if i == p {
        assert AddrsOf(at', ns'[p].kids) == Inserted(AddrsOf(at, ns[p].kids), |ns[p].kids|, room);
        KeptNode(nodes, m, ns, at, order, p, name, room, p);
      } else {
        KeptNode(nodes, m, ns, at, order, p, name, room, i);
        OtherKids(ns, at, m, m', p, room, i, nodes[at[i]].children);
      }
    }
  }

  lemma {:induction false} KeptNode(nodes: map<Addr, NodeStruct>, m: Memory, ns: seq<DtNode>, at: seq<Addr>,
                                    order: seq<Entry>, p: nat, name: Bytes, room: Addr, i: nat)
    requires Inv(ns) && AllInPlace(nodes, m, ns, at, order) && AllApart(at) && CanInsert(at, room)
    requires p < |ns| && i < |ns|
    ensures at[i] in nodes && at[i] != room && (i != p ==> at[i] != at[p])
    ensures NodeRep(nodes[at[i]], m, ns, at, order, i)
    ensures AddrsOf(at + [room], ns[i].kids) == AddrsOf(at, ns[i].kids)
    ensures ParentAddr(WithNode(ns, p, name), at + [room], i) == ParentAddr(ns, at, i)
  {
    assert InPlace(nodes, m, ns, at, order, i) && Apart(at[i], room);
    KidsBelow(ns, i);
    AddrsKept(at, room, ns[i].kids);
    assert i < p ==> Apart(at[i], at[p]);
    assert p < i ==> Apart(at[p], at[i]);
  }

  // ----- adding a property -----

  ghost predicate EntriesKept(order: seq<Entry>, order': seq<Entry>) {
    forall e {:trigger HasEntry(order, e)} | HasEntry(order, e) :: HasEntry(order', e)
  }

  lemma {:induction false} MoreEntries(order: seq<Entry>, order': seq<Entry>, added: multiset<Entry>)
    requires multiset(order') == multiset(order) + added
    ensures EntriesKept(order, order')
  {
    forall e | HasEntry(order, e) ensures HasEntry(order', e) {
      var i :| 0 <= i < |order| && order[i] == e;
      assert e in multiset(order');
      var j :| 0 <= j < |order'| && order'[j] == e;
    }
  }

  lemma {:induction false} PropsKept(ps: seq<PropStruct>, qs: seq<Prop>, order: seq<Entry>, order': seq<Entry>)
    requires PropsRep(ps, qs, order) && EntriesKept(order, order')
    ensures PropsRep(ps, qs, order')
  {
    forall i | 0 <= i < |ps| ensures PropRep(ps[i], qs[i], order') {
      assert PropRep(ps[i], qs[i], order);
    }
  }

  /** The structures after BlDtDoAddProperty. */
  lemma {:induction false} AddedInPlace(nodes: map<Addr, NodeStruct>, m: Memory, ns: seq<DtNode>, at: seq<Addr>,
                                        order: seq<Entry>, order': seq<Entry>, n: nat, prop: Prop, entry: Addr)
    requires AllInPlace(nodes, m, ns, at, order) && AllApart(at) && n < |ns|
    requires EntriesKept(order, order') && HasEntry(order', Entry(entry, prop.name))
    ensures InPlace(nodes, m, ns, at, order, n)
    ensures AllInPlace(nodes[at[n] := nodes[at[n]].(properties :=
                                        nodes[at[n]].properties + [PropStruct(entry, prop.data)])],
                       m, WithProp(ns, n, prop), at, order')
  {
    assert InPlace(nodes, m, ns, at, order, n);
    var nodes' := nodes[at[n] := nodes[at[n]].(properties :=
                          nodes[at[n]].properties + [PropStruct(entry, prop.data)])];
    var ns' := WithProp(ns, n, prop);
    forall i | 0 <= i < |ns| ensures InPlace(nodes', m, ns', at, order', i) {
      assert InPlace(nodes, m, ns, at, order, i);
      PropsKept(nodes[at[i]].properties, ns[i].props, order, order');
      assert i < n ==> Apart(at[i], at[n]);
      assert n < i ==> Apart(at[n], at[i]);
      if i == n {
        PropsAppended(nodes[at[n]].properties, ns[n].props, order', PropStruct(entry, prop.data), prop);
      }
    }
  }

  lemma {:induction false} PropsAppended(ps: seq<PropStruct>, qs: seq<Prop>, order: seq<Entry>, p: PropStruct, q: Prop)
    requires PropsRep(ps, qs, order) && PropRep(p, q, order)
    ensures PropsRep(ps + [p], qs + [q], order)
  {
    forall i | 0 <= i < |ps| + 1 ensures PropRep((ps + [p])[i], (qs + [q])[i], order) {
      assert i < |ps| ==> PropRep(ps[i], qs[i], order);
    }
  }

  // ----- values of properties -----

  /** Big-endian words, as BlDtAddPropertyU32s stores them. */
  function WordsOf(xs: seq<nat>): (r: Bytes)
    ensures |r| == 4 * |xs|
  {
    if xs == [] then [] else WordsOf(xs[..|xs| - 1]) + BE32(xs[|xs| - 1])
  }

  /** NUL-terminated strings one after another, as BlDtAddPropertyStrings stores them. */
  function StringsOf(ss: seq<Bytes>): Bytes {
    if ss == [] then [] else StringsOf(ss[..|ss| - 1]) + (ss[|ss| - 1] + [0])
  }

  /** The full path of a node. */
  function PathOf(ns: seq<DtNode>, i: nat): Bytes
    requires i < |ns|
    decreases i
  {
    if i == 0 || ns[i].parent >= i then [] else PathOf(ns, ns[i].parent) + [47] + ns[i].name
  }

  // ----- offsets of names -----

  /** The offsets that the layout of the strings block gives the names. */
  function OffsetsOf(es: seq<Entry>): Offsets {
    if es == [] then map[] else OffsetsOf(es[..|es| - 1])[es[|es| - 1].text := TextSize(es[..|es| - 1])]
  }

  lemma {:induction false} OffsetsAt(es: seq<Entry>, i: nat)
    requires NoTwins(es) && i < |es|
    ensures OffsetOf(OffsetsOf(es), es[i].text) == OffsetIn(es, i)
  {
    var n := |es| - 1;
    if i < n {
      forall a, b | 0 <= a < b < n ensures TextsDiffer(es[..n], a, b) {
        assert TextsDiffer(es, a, b);
      }
      OffsetsAt(es[..n], i);
      assert TextsDiffer(es, i, n) && es[..n][..i] == es[..i];
    }
  }

  /** Every entry knows the offset of its string. */
  ghost predicate Located(identifier: map<Addr, nat>, order: seq<Entry>, off: Offsets) {
    forall e {:trigger HasEntry(order, e)} | HasEntry(order, e) ::
      e.at in identifier && identifier[e.at] == OffsetOf(off, e.text)
  }

  lemma {:induction false} LocatedByLayout(identifier: map<Addr, nat>, order: seq<Entry>, flat: seq<Entry>)
    requires multiset(flat) == multiset(order) && NoTwins(flat) && Placed(identifier, flat, |flat|)
    ensures Located(identifier, order, OffsetsOf(flat))
  {
    forall e | HasEntry(order, e)
      ensures e.at in identifier && identifier[e.at] == OffsetOf(OffsetsOf(flat), e.text)
    {
      var i :| 0 <= i < |order| && order[i] == e;
      var x := IndexIn(flat, order, i);
      assert PlacedAt(identifier, flat, x);
      OffsetsAt(flat, x);
    }
  }

  /** The reader finds every interned name. */
  lemma {:induction false} NamesResolve(flat: seq<Entry>, text: map<Addr, Bytes>, i: nat)
    requires NoTwins(flat) && AllStored(text, flat) && i < |flat| && TextSize(flat) < WORD32
    ensures Resolves(BlockOf(flat), OffsetsOf(flat), flat[i].text)
  {
    OffsetsAt(flat, i);
    BlockHolds(flat, i);
    assert Stored(text, flat[i]);
    StringOccurs(BlockOf(flat), OffsetIn(flat, i), flat[i].text);
  }

  // ----- the tree as the reader will see it -----

  ghost predicate NodeReadable(n: DtNode, off: Offsets, strings: Bytes) {
    CString(n.name) && PropsOk(n.props, off, strings)
  }

  ghost predicate Readable(ns: seq<DtNode>, off: Offsets, strings: Bytes) {
    forall i {:trigger NodeReadable(ns[i], off, strings)} | 0 <= i < |ns| :: NodeReadable(ns[i], off, strings)
  }

  lemma {:induction false} TreeReadable(ns: seq<DtNode>, i: nat, off: Offsets, strings: Bytes)
    requires Readable(ns, off, strings) && i < |ns|
    ensures TreeOk(TreeOf(ns, i), off, strings)
    decreases |ns| - i, |ns[i].kids| + 1
  {
    assert NodeReadable(ns[i], off, strings);
    ForestReadable(ns, i, ns[i].kids, off, strings);
  }

  lemma {:induction false} ForestReadable(ns: seq<DtNode>, i: nat, ks: seq<nat>, off: Offsets, strings: Bytes)
    requires Readable(ns, off, strings) && i < |ns|
    ensures ForestOk(ForestOf(ns, i, ks), off, strings)
    decreases |ns| - i, |ks|
  {
    if ks != [] {
      if i < ks[0] < |ns| {
        TreeReadable(ns, ks[0], off, strings);
      }
      ForestReadable(ns, i, ks[1..], off, strings);
    }
  }

  lemma {:induction false} SumBounds(w: seq<nat>, i: nat)
    requires i < |w|
    ensures w[i] <= Sum(w)
  {
    if i > 0 {
      SumBounds(w[1..], i - 1);
    }
  }

  lemma {:induction false} PropsSizeBounds(ps: seq<Prop>, i: nat)
    requires i < |ps|
    ensures |ps[i].data| <= PropsSize(ps)
  {
    if i > 0 {
      PropsSizeBounds(ps[1..], i - 1);
    }
  }

  lemma {:induction false} DataBounds(ns: seq<DtNode>, n: nat, i: nat)
    requires n < |ns| && i < |ns[n].props|
    ensures |ns[n].props[i].data| <= StructureSize(ns)
  {
    PropsSizeBounds(ns[n].props, i);
    SumBounds(OwnSizes(ns), n);
    assert OwnSizes(ns)[n] == OwnSize(ns[n]);
  }

  lemma {:induction false} AllReadable(nodes: map<Addr, NodeStruct>, m: Memory, ns: seq<DtNode>, at: seq<Addr>,
                                       order: seq<Entry>, flat: seq<Entry>, text: map<Addr, Bytes>)
    requires Inv(ns) && AllInPlace(nodes, m, ns, at, order) && StructureSize(ns) < WORD32
    requires multiset(flat) == multiset(order) && NoTwins(flat) && AllStored(text, flat) && TextSize(flat) < WORD32
    ensures Readable(ns, OffsetsOf(flat), BlockOf(flat))
  {
    var off, strings := OffsetsOf(flat), BlockOf(flat);
    forall n | 0 <= n < |ns| ensures NodeReadable(ns[n], off, strings) {
      assert InPlace(nodes, m, ns, at, order, n) && Well(ns[n]);
      var ps, qs := nodes[at[n]].properties, ns[n].props;
      forall i | 0 <= i < |qs| ensures PropOk(qs[i], off, strings) {
        assert PropRep(ps[i], qs[i], order);
        var x :| 0 <= x < |order| && order[x] == Entry(ps[i].name, qs[i].name);
        var y := IndexIn(flat, order, x);
        NamesResolve(flat, text, y);
        DataBounds(ns, n, i);
      }
    }
  }

  // ----- the walk on pointers -----

  /** The two pointers of the loop in BlDtBuildBlob. */
  ghost predicate Pointers(ns: seq<DtNode>, at: seq<Addr>, w: Walk, node: Addr, previous: Addr)
    requires |ns| == |at|
  {
    match w
    case Entering(i) => i < |ns| && node == at[i] && previous == ParentAddr(ns, at, i)
    case Returning(i, j) => i < |ns| && 0 < j <= |ns[i].kids| && node == at[i] && previous == At(at, ns[i].kids[j - 1])
    case Finished => node == 0
  }

  /** The test of the loop tells opening a node from coming back to it. */
  lemma {:induction false} WalkTest(ns: seq<DtNode>, at: seq<Addr>, w: Walk, node: Addr, previous: Addr)
    requires Inv(ns) && |ns| == |at| && AllApart(at) && Pointers(ns, at, w, node, previous) && !w.Finished?
    ensures previous == ParentAddr(ns, at, w.i) <==> w.Entering?
    ensures node != 0
  {
    assert NodeOk(at, w.i);
    if w.Returning? {
      var k := ns[w.i].kids[w.j - 1];
      assert KidOk(ns, w.i, w.j - 1) && NodeOk(at, k);
      KidsBelow(ns, w.i);
      assert w.i > 0 ==> Apart(at[ns[w.i].parent], at[k]);
    }
  }

  /** Where the walk goes after the first `j` children of node `i`. */
  function Onwards(ns: seq<DtNode>, i: nat, j: nat): Walk
    requires i < |ns|
  {
    if j < |ns[i].kids| then Entering(ns[i].kids[j]) else Upwards(ns, i)
  }

  lemma {:induction false} OnwardsDown(ns: seq<DtNode>, at: seq<Addr>, i: nat, j: nat)
    requires Inv(ns) && |ns| == |at| && AllApart(at) && i < |ns| && j < |ns[i].kids|
    ensures At(AddrsOf(at, ns[i].kids), j) != 0 && WalkOk(ns, Onwards(ns, i, j))
    ensures Pointers(ns, at, Onwards(ns, i, j), At(AddrsOf(at, ns[i].kids), j), at[i])
  {
    assert KidOk(ns, i, j) && NodeOk(at, ns[i].kids[j]);
  }

  lemma {:induction false} OnwardsUp(ns: seq<DtNode>, at: seq<Addr>, i: nat)
    requires Inv(ns) && |ns| == |at| && AllApart(at) && i < |ns|
    ensures WalkOk(ns, Upwards(ns, i))
    ensures Pointers(ns, at, Upwards(ns, i), ParentAddr(ns, at, i), at[i])
    ensures Upwards(ns, i).Finished? <==> i == 0
  {
    KidsBelow(ns, i);
    if i > 0 {
      assert HasPlace(ns, i);
      var j: nat :| KidAt(ns, i, j);
      var p := ns[i].parent;
      assert Well(ns[p]);
      PlaceIs(ns[p].kids, j);
    }
  }

  // ----- a node's child list -----

  lemma {:induction false} FirstKid(links: Memory, l: BlList, kids: seq<Addr>)
    requires IsList(links, l, kids)
    ensures l.head == At(kids, 0)
  {
  }

  lemma {:induction false} NextKid(links: Memory, l: BlList, kids: seq<Addr>, j: nat, previous: Addr)
    requires IsList(links, l, kids) && 0 < j <= |kids| && previous == kids[j - 1]
    ensures Load(links, previous + NEXT) == At(kids, j)
  {
    assert Linked(links, kids, j - 1);
  }

  // ----- over every run of the builder -----

  /** Whatever the calls from the single root were, the structure block has the accounted size, and reading it back
      with any strings block that holds the names at their offsets gives the tree that was built. */
  lemma {:induction false} RunRoundTrip(calls: seq<Call>, ns: seq<DtNode>, off: Offsets, strings: Bytes)
    requires Run(ROOT_ONLY, calls, ns) && Readable(ns, off, strings)
    ensures |ns| > 0 && |Structure(TreeOf(ns, 0), off)| == StructureSize(ns)
    ensures ParseStructure(Structure(TreeOf(ns, 0), off), strings) == Some(TreeOf(ns, 0))
  {
    RootInv();
    RunInv(ROOT_ONLY, calls, ns);
    var t := TreeOf(ns, 0);
    StructureSizeExact(ns, off);
    TreeReadable(ns, 0, off, strings);
    StructureRoundTrip(strings, t, off);
  }
}
