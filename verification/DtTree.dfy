/** Every run of builder calls leaves a tree that holds each node once, and the running size is the
    size of what will be written. */
module DtTree {
  import opened Buffers
  import opened DtSpec

  // ----- sizes of the flattened form -----

  lemma {:induction false} PropsLength(ps: seq<Prop>, off: Offsets)
    ensures |SerProps(ps, off)| == PropsSize(ps)
  {
    if ps != [] {
      PropsLength(ps[1..], off);
    }
  }

  lemma {:induction false} OpeningLength(n: DtNode, off: Offsets)
    ensures |Opening(n.name, n.props, off)| + 4 == OwnSize(n)
  {
    PropsLength(n.props, off);
  }

  lemma {:induction false} SerLength(ns: seq<DtNode>, i: nat, off: Offsets)
    requires i < |ns|
    ensures |Ser(TreeOf(ns, i), off)| == Total(ns, i, OwnSizes(ns))
    decreases |ns| - i, |ns[i].kids| + 1
  {
    OpeningLength(ns[i], off);
    KidsLength(ns, i, ns[i].kids, off);
  }

  lemma {:induction false} KidsLength(ns: seq<DtNode>, i: nat, ks: seq<nat>, off: Offsets)
    requires i < |ns|
    ensures |SerForest(ForestOf(ns, i, ks), off)| == TotalKids(ns, i, ks, OwnSizes(ns))
    decreases |ns| - i, |ks|
  {
    if ks != [] {
      if i < ks[0] < |ns| {
        SerLength(ns, ks[0], off);
      }
      KidsLength(ns, i, ks[1..], off);
    }
  }

  /** The size the builder keeps is the size of the structure block it will write. */
  lemma {:induction false} StructureSizeExact(ns: seq<DtNode>, off: Offsets)
    requires Spanning(ns)
    ensures |Structure(TreeOf(ns, 0), off)| == StructureSize(ns)
  {
    SerLength(ns, 0, off);
    assert Total(ns, 0, OwnSizes(ns)) == Sum(OwnSizes(ns));
  }

  // ----- sums -----

  lemma {:induction false} SumAppend(w: seq<nat>, x: nat)
    ensures Sum(w + [x]) == Sum(w) + x
  {
    if w == [] {
      assert w + [x] == [x] && [x][1..] == [];
    } else {
      assert (w + [x])[1..] == w[1..] + [x];
      SumAppend(w[1..], x);
    }
  }

  lemma {:induction false} SumUpdate(w: seq<nat>, p: nat, x: nat)
    requires p < |w|
    ensures Sum(w[p := x]) + w[p] == Sum(w) + x
  {
    if p == 0 {
      assert w[0 := x][1..] == w[1..];
    } else {
      assert w[p := x][1..] == w[1..][p - 1 := x];
      SumUpdate(w[1..], p - 1, x);
    }
  }

  // ----- creating a node -----

  /** The weights before a node was created, with the weight of the new node given to its parent. */
  function Fold(w: seq<nat>, p: nat): seq<nat>
    requires p + 1 < |w|
  {
    w[..|w| - 1][p := w[p] + w[|w| - 1]]
  }

  lemma {:induction false} FoldSum(w: seq<nat>, p: nat)
    requires p + 1 < |w|
    ensures Sum(Fold(w, p)) == Sum(w)
  {
    var n := |w| - 1;
    var v, x := w[..n], w[p] + w[n];
    assert w == v + [w[n]] && v[p] == w[p];
    SumAppend(v, w[n]);
    SumUpdate(v, p, x);
  }

  lemma {:induction false} KidsAppend(ns: seq<DtNode>, i: nat, ks: seq<nat>, k: nat, w: seq<nat>)
    requires i < k < |ns| == |w|
    ensures TotalKids(ns, i, ks + [k], w) == TotalKids(ns, i, ks, w) + Total(ns, k, w)
    decreases |ks|
  {
    if ks == [] {
      assert ks + [k] == [k] && [k][1..] == [];
    } else {
      assert (ks + [k])[1..] == ks[1..] + [k];
      KidsAppend(ns, i, ks[1..], k, w);
    }
  }

  lemma {:induction false} CreateTotal(ns: seq<DtNode>, p: nat, name: Bytes, i: nat, w: seq<nat>)
    requires p < |ns| && i < |ns| && |w| == |ns| + 1
    requires forall i, j | 0 <= i < |ns| && 0 <= j < |ns[i].kids| :: ns[i].kids[j] < |ns|
    ensures Total(WithNode(ns, p, name), i, w) == Total(ns, i, Fold(w, p))
    decreases |ns| - i, |ns[i].kids| + 1
  {
    var ns', n := WithNode(ns, p, name), |ns|;
    CreateKids(ns, p, name, i, ns[i].kids, w);
    if i == p {
      KidsAppend(ns', i, ns[i].kids, n, w);
      assert Total(ns', n, w) == w[n];
    }
  }

  lemma {:induction false} CreateKids(ns: seq<DtNode>, p: nat, name: Bytes, i: nat, ks: seq<nat>, w: seq<nat>)
    requires p < |ns| && i < |ns| && |w| == |ns| + 1
    requires forall i, j | 0 <= i < |ns| && 0 <= j < |ns[i].kids| :: ns[i].kids[j] < |ns|
    requires forall j | 0 <= j < |ks| :: ks[j] < |ns|
    ensures TotalKids(WithNode(ns, p, name), i, ks, w) == TotalKids(ns, i, ks, Fold(w, p))
    decreases |ns| - i, |ks|
  {
    if ks != [] {
      if i < ks[0] {
        CreateTotal(ns, p, name, ks[0], w);
      }
      CreateKids(ns, p, name, i, ks[1..], w);
    }
  }

  lemma {:induction false} CreateSpanning(ns: seq<DtNode>, p: nat, name: Bytes)
    requires Inv(ns) && p < |ns|
    ensures Spanning(WithNode(ns, p, name))
  {
    var ns' := WithNode(ns, p, name);
    forall i, j | 0 <= i < |ns| && 0 <= j < |ns[i].kids| ensures ns[i].kids[j] < |ns| {
      assert KidOk(ns, i, j);
    }
    forall w: seq<nat> | |w| == |ns'| ensures Total(ns', 0, w) == Sum(w) {
      CreateTotal(ns, p, name, 0, w);
      FoldSum(w, p);
    }
  }

  lemma {:induction false} CreateSize(ns: seq<DtNode>, p: nat, name: Bytes)
    requires p < |ns|
    ensures StructureSize(WithNode(ns, p, name)) == StructureSize(ns) + NodeSize(|name|)
  {
    assert OwnSizes(WithNode(ns, p, name)) == OwnSizes(ns) + [NodeSize(|name|)];
    SumAppend(OwnSizes(ns), NodeSize(|name|));
  }

  lemma {:induction false} CreateKidsOk(ns: seq<DtNode>, p: nat, name: Bytes, i: nat, j: nat)
    requires Inv(ns) && p < |ns| && i <= |ns| && j < |WithNode(ns, p, name)[i].kids|
    ensures KidOk(WithNode(ns, p, name), i, j)
  {
    if i < |ns| && j < |ns[i].kids| {
      assert KidOk(ns, i, j);
    }
  }

  lemma {:induction false} CreateIncreasing(ns: seq<DtNode>, p: nat, name: Bytes, i: nat)
    requires Inv(ns) && p < |ns| && i <= |ns|
    ensures Increasing(WithNode(ns, p, name)[i].kids)
  {
    if i < |ns| {
      assert Well(ns[i]);
      forall j | 0 <= j < |ns[i].kids| ensures ns[i].kids[j] < |ns| {
        assert KidOk(ns, i, j);
      }
    }
  }

  lemma {:induction false} CreatePlaces(ns: seq<DtNode>, p: nat, name: Bytes, k: nat)
    requires Inv(ns) && p < |ns| && 0 < k <= |ns|
    ensures HasPlace(WithNode(ns, p, name), k)
  {
    var ns' := WithNode(ns, p, name);
    if k < |ns| {
      assert HasPlace(ns, k);
      var j: nat :| KidAt(ns, k, j);
      assert KidAt(ns', k, j);
    } else {
      assert KidAt(ns', k, |ns[p].kids|);
    }
  }

  lemma {:induction false} CreateInv(ns: seq<DtNode>, p: nat, name: Bytes)
    requires Inv(ns) && p < |ns| && CString(name)
    ensures Inv(WithNode(ns, p, name))
  {
    var ns' := WithNode(ns, p, name);
    forall i | 0 <= i < |ns'| ensures Well(ns'[i]) && Increasing(ns'[i].kids) {
      assert i < |ns| ==> Well(ns[i]);
      CreateIncreasing(ns, p, name, i);
    }
    forall i, j | 0 <= i < |ns'| && 0 <= j < |ns'[i].kids| ensures KidOk(ns', i, j) {
      CreateKidsOk(ns, p, name, i, j);
    }
    forall k | 0 < k < |ns'| ensures HasPlace(ns', k) {
      CreatePlaces(ns, p, name, k);
    }
    CreateSpanning(ns, p, name);
  }

  // ----- adding a property -----

  lemma {:induction false} PropsSizeAppend(ps: seq<Prop>, p: Prop)
    ensures PropsSize(ps + [p]) == PropsSize(ps) + PropSize(|p.data|)
  {
    if ps == [] {
      assert ps + [p] == [p] && [p][1..] == [];
    } else {
      assert (ps + [p])[1..] == ps[1..] + [p];
      PropsSizeAppend(ps[1..], p);
    }
  }

  lemma {:induction false} AddSize(ns: seq<DtNode>, n: nat, prop: Prop)
    requires n < |ns|
    ensures StructureSize(WithProp(ns, n, prop)) == StructureSize(ns) + PropSize(|prop.data|)
  {
    PropsSizeAppend(ns[n].props, prop);
    var w := OwnSizes(ns);
    assert OwnSizes(WithProp(ns, n, prop)) == w[n := w[n] + PropSize(|prop.data|)];
    SumUpdate(w, n, w[n] + PropSize(|prop.data|));
  }

  lemma {:induction false} AddTotal(ns: seq<DtNode>, n: nat, prop: Prop, i: nat, w: seq<nat>)
    requires n < |ns| && i < |ns| == |w|
    ensures Total(WithProp(ns, n, prop), i, w) == Total(ns, i, w)
    decreases |ns| - i, |ns[i].kids| + 1
  {
    AddTotalKids(ns, n, prop, i, ns[i].kids, w);
  }

  lemma {:induction false} AddTotalKids(ns: seq<DtNode>, n: nat, prop: Prop, i: nat, ks: seq<nat>, w: seq<nat>)
    requires n < |ns| && i < |ns| == |w|
    ensures TotalKids(WithProp(ns, n, prop), i, ks, w) == TotalKids(ns, i, ks, w)
    decreases |ns| - i, |ks|
  {
    if ks != [] {
      if i < ks[0] < |ns| {
        AddTotal(ns, n, prop, ks[0], w);
      }
      AddTotalKids(ns, n, prop, i, ks[1..], w);
    }
  }

  lemma {:induction false} AddInv(ns: seq<DtNode>, n: nat, prop: Prop)
    requires Inv(ns) && n < |ns| && CString(prop.name)
    ensures Inv(WithProp(ns, n, prop))
  {
    var ns' := WithProp(ns, n, prop);
    forall i | 0 <= i < |ns'| ensures Well(ns'[i]) && Increasing(ns'[i].kids) {
      assert Well(ns[i]);
    }
    forall i, j | 0 <= i < |ns'| && 0 <= j < |ns'[i].kids| ensures KidOk(ns', i, j) {
      assert KidOk(ns, i, j);
    }
    forall k | 0 < k < |ns'| ensures HasPlace(ns', k) {
      assert HasPlace(ns, k);
      var j: nat :| KidAt(ns, k, j);
      assert KidAt(ns', k, j);
    }
    forall w: seq<nat> | |w| == |ns'| ensures Total(ns', 0, w) == Sum(w) {
      AddTotal(ns, n, prop, 0, w);
    }
  }

  // ----- runs -----

  lemma {:induction false} RootInv()
    ensures Inv(ROOT_ONLY) && StructureSize(ROOT_ONLY) == 16
  {
    var ns := ROOT_ONLY;
    forall w: seq<nat> | |w| == 1 ensures Total(ns, 0, w) == Sum(w) {
      assert w[1..] == [];
    }
    assert Well(ns[0]);
    assert OwnSizes(ns) == [12] && [12][1..] == [];
    assert Sum([12]) == 12;
  }

  lemma {:induction false} ApplyInv(ns: seq<DtNode>, c: Call)
    requires Inv(ns) && LegalCall(ns, c)
    ensures Inv(Apply(ns, c))
  {
    match c
    case CreateNode(parent, name) => CreateInv(ns, parent, name);
    case AddProperty(node, prop) => AddInv(ns, node, prop);
  }

  lemma {:induction false} RunInv(ns: seq<DtNode>, calls: seq<Call>, ns': seq<DtNode>)
    requires Inv(ns) && Run(ns, calls, ns')
    ensures Inv(ns')
    decreases |calls|
  {
    if calls != [] {
      ApplyInv(ns, calls[0]);
      RunInv(Apply(ns, calls[0]), calls[1..], ns');
    }
  }
}
