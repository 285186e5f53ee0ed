/** What the builder's calls mean for the tree: each adds one child, or one property, to the node that it names,
    behind those the node has, and leaves the rest of the tree alone. */
module DtEdit {
  import opened Basics
  import opened Buffers
  import opened DtSpec
  import opened DtParse
  import opened DeviceTree
  import Ext2Spec
  import Ext2Layout

  datatype Edit = NewChild(name: Bytes) | NewProp(prop: Prop)

  function Append(f: Forest, t: Tree): Forest {
    match f
    case Nil => Cons(t, Nil)
    case Cons(first, rest) => Cons(first, Append(rest, t))
  }

  /** The tree with an edit at the node to which `path` leads, each step being the number of a child. */
  function Edited(t: Tree, path: seq<nat>, e: Edit): Tree {
    if path != [] then Tree(t.name, t.props, EditedIn(t.kids, path[0], path[1..], e))
    else
      match e
      case NewChild(name) => Tree(t.name, t.props, Append(t.kids, Tree(name, [], Nil)))
      case NewProp(prop) => Tree(t.name, t.props + [prop], t.kids)
  }

  function EditedIn(f: Forest, j: nat, rest: seq<nat>, e: Edit): Forest {
    match f
    case Nil => Nil
    case Cons(first, more) =>
      if j == 0 then Cons(Edited(first, rest, e), more) else Cons(first, EditedIn(more, j - 1, rest, e))
  }

  /** Following `path` from node `i` leads to node `k`. */
  predicate Leads(ns: seq<DtNode>, i: nat, path: seq<nat>, k: nat)
    decreases |path|
  {
    if path == [] then i == k
    else i < |ns| && path[0] < |ns[i].kids| && Leads(ns, ns[i].kids[path[0]], path[1..], k)
  }

  /** Going up from node `k` leads to node `c`. */
  predicate Up(ns: seq<DtNode>, k: nat, c: nat)
    decreases k
  {
    k == c || (c < k < |ns| && ns[k].parent < k && Up(ns, ns[k].parent, c))
  }

  lemma {:induction false} UpFromKid(ns: seq<DtNode>, k: nat, i: nat, j: nat)
    requires Inv(ns) && i < |ns| && j < |ns[i].kids| && Up(ns, k, ns[i].kids[j])
    ensures Up(ns, k, i)
    decreases k
  {
    assert KidOk(ns, i, j);
    if k != ns[i].kids[j] {
      UpFromKid(ns, ns[k].parent, i, j);
    }
  }

  lemma {:induction false} LeadsUp(ns: seq<DtNode>, i: nat, path: seq<nat>, k: nat)
    requires Inv(ns) && i < |ns| && Leads(ns, i, path, k)
    ensures Up(ns, k, i) && k < |ns|
    decreases |path|
  {
    if path != [] {
      assert KidOk(ns, i, path[0]);
      LeadsUp(ns, ns[i].kids[path[0]], path[1..], k);
      UpFromKid(ns, k, i, path[0]);
    }
  }

  /** No node is below two children of the same node. */
  lemma {:induction false} OneKid(ns: seq<DtNode>, k: nat, i: nat, a: nat, b: nat)
    requires Inv(ns) && i < |ns| && a < |ns[i].kids| && b < |ns[i].kids| && a != b
    requires Up(ns, k, ns[i].kids[a])
    ensures !Up(ns, k, ns[i].kids[b])
    decreases k
  {
    assert KidOk(ns, i, a) && KidOk(ns, i, b) && Well(ns[i]);
    var x, y := ns[i].kids[a], ns[i].kids[b];
    assert x != y by {
      assert a < b ==> x < y;
    }
    if k != x && k != y {
      OneKid(ns, ns[k].parent, i, a, b);
    }
  }

  /** Of the old nodes only `k` is different. */
  ghost predicate OnlyAt(ns: seq<DtNode>, ns': seq<DtNode>, k: nat) {
    |ns| <= |ns'| && forall i | 0 <= i < |ns| && i != k :: ns'[i] == ns[i]
  }

  lemma {:induction false} SameTree(ns: seq<DtNode>, ns': seq<DtNode>, k: nat, c: nat)
    requires Inv(ns) && OnlyAt(ns, ns', k) && c < |ns| && !Up(ns, k, c)
    ensures TreeOf(ns', c) == TreeOf(ns, c)
    decreases |ns| - c, |ns[c].kids| + 1
  {
    assert forall j | 0 <= j < |ns[c].kids| :: !Up(ns, k, ns[c].kids[j]) by {
      forall j | 0 <= j < |ns[c].kids| ensures !Up(ns, k, ns[c].kids[j]) {
        if Up(ns, k, ns[c].kids[j]) {
          UpFromKid(ns, k, c, j);
        }
      }
    }
    SameForest(ns, ns', k, c, 0, ns[c].kids);
  }

  lemma {:induction false} SameForest(ns: seq<DtNode>, ns': seq<DtNode>, k: nat, i: nat, m: nat, ks: seq<nat>)
    requires Inv(ns) && OnlyAt(ns, ns', k) && i < |ns| && m <= |ns[i].kids| && ks == ns[i].kids[m..]
    requires forall j | m <= j < |ns[i].kids| :: !Up(ns, k, ns[i].kids[j])
    ensures ForestOf(ns', i, ks) == ForestOf(ns, i, ks)
    decreases |ns| - i, |ks|
  {
    if ks != [] {
      assert KidOk(ns, i, m);
      SameTree(ns, ns', k, ks[0]);
      SameForest(ns, ns', k, i, m + 1, ks[1..]);
    }
  }

  function EditOf(c: Call): Edit {
    match c
    case CreateNode(_, name) => NewChild(name)
    case AddProperty(_, prop) => NewProp(prop)
  }

  function NodeOf(c: Call): nat {
    match c
    case CreateNode(parent, _) => parent
    case AddProperty(node, _) => node
  }

  lemma {:induction false} ApplyOnlyAt(ns: seq<DtNode>, c: Call)
    requires LegalCall(ns, c)
    ensures OnlyAt(ns, Apply(ns, c), NodeOf(c))
  {
  }

  /** The children that a node had, with one more behind them. */
  lemma {:induction false} OneMore(ns: seq<DtNode>, ns': seq<DtNode>, k: nat, name: Bytes, m: nat, ks: seq<nat>)
    requires Inv(ns) && k < |ns| && ns' == WithNode(ns, k, name) && m <= |ns[k].kids| && ks == ns[k].kids[m..]
    ensures ForestOf(ns', k, ks + [|ns|]) == Append(ForestOf(ns, k, ks), Tree(name, [], Nil))
    decreases |ks|
  {
    var all, n := ks + [|ns|], |ns|;
    if ks == [] {
      assert all[0] == n && all[1..] == [];
      assert TreeOf(ns', n) == Tree(name, [], Nil);
    } else {
      assert KidOk(ns, k, m) && !Up(ns, k, ks[0]);
      assert all[0] == ks[0] && all[1..] == ks[1..] + [n];
      SameTree(ns, ns', k, ks[0]);
      OneMore(ns, ns', k, name, m + 1, ks[1..]);
    }
  }

  lemma {:induction false} EditHere(ns: seq<DtNode>, c: Call, k: nat)
    requires Inv(ns) && LegalCall(ns, c) && k == NodeOf(c)
    ensures TreeOf(Apply(ns, c), k) == Edited(TreeOf(ns, k), [], EditOf(c))
  {
    var ns', ks := Apply(ns, c), ns[k].kids;
    assert ks[0..] == ks;
    match c
    case CreateNode(_, name) =>
      OneMore(ns, ns', k, name, 0, ks);
    case AddProperty(_, prop) =>
      ApplyOnlyAt(ns, c);
      forall j | 0 <= j < |ks| ensures !Up(ns, k, ks[j]) {
        assert KidOk(ns, k, j);
      }
      SameForest(ns, ns', k, k, 0, ks);
  }

  lemma {:induction false} EditBelow(ns: seq<DtNode>, c: Call, k: nat, i: nat, path: seq<nat>)
    requires Inv(ns) && LegalCall(ns, c) && k == NodeOf(c) && i < |ns| && Leads(ns, i, path, k)
    ensures TreeOf(Apply(ns, c), i) == Edited(TreeOf(ns, i), path, EditOf(c))
    decreases |path|
  {
    if path == [] {
      EditHere(ns, c, k);
    } else {
      var x, rest, ks := ns[i].kids[path[0]], path[1..], ns[i].kids;
      assert KidOk(ns, i, path[0]);
      LeadsUp(ns, x, rest, k);
      EditBelow(ns, c, k, x, rest);
      assert k != i;
      assert ks[0..] == ks;
      EditKids(ns, c, k, i, path[0], rest, 0, ks);
    }
  }

  /** Among the children of node `i` from number `m` on, only number `m + j` is edited. */
  lemma {:induction false} EditKids(ns: seq<DtNode>, c: Call, k: nat, i: nat, j: nat, rest: seq<nat>, m: nat, ks: seq<nat>)
    requires Inv(ns) && LegalCall(ns, c) && k == NodeOf(c) && i < |ns| && m <= |ns[i].kids| && ks == ns[i].kids[m..]
    requires j < |ks| && Up(ns, k, ks[j])
    requires TreeOf(Apply(ns, c), ks[j]) == Edited(TreeOf(ns, ks[j]), rest, EditOf(c))
    ensures ForestOf(Apply(ns, c), i, ks) == EditedIn(ForestOf(ns, i, ks), j, rest, EditOf(c))
    decreases |ks|
  {
    var ns', here := Apply(ns, c), m + j;
    ApplyOnlyAt(ns, c);
    assert KidOk(ns, i, m);
    if j == 0 {
      forall b | m + 1 <= b < |ns[i].kids| ensures !Up(ns, k, ns[i].kids[b]) {
        OneKid(ns, k, i, here, b);
      }
      SameForest(ns, ns', k, i, m + 1, ks[1..]);
    } else {
      OneKid(ns, k, i, here, m);
      SameTree(ns, ns', k, ks[0]);
      EditKids(ns, c, k, i, j - 1, rest, m + 1, ks[1..]);
    }
  }

  lemma {:induction false} LeadsOn(ns: seq<DtNode>, i: nat, path: seq<nat>, p: nat, j: nat, k: nat)
    requires Leads(ns, i, path, p) && p < |ns| && j < |ns[p].kids| && ns[p].kids[j] == k
    ensures Leads(ns, i, path + [j], k)
    decreases |path|
  {
    var longer := path + [j];
    if path == [] {
      assert longer[1..] == [];
    } else {
      assert longer[1..] == path[1..] + [j];
      LeadsOn(ns, ns[i].kids[path[0]], path[1..], p, j, k);
    }
  }

  /** Every node can be reached from the root. */
  lemma {:induction false} PathTo(ns: seq<DtNode>, k: nat) returns (path: seq<nat>)
    requires Inv(ns) && k < |ns|
    ensures Leads(ns, 0, path, k)
    decreases k
  {
    if k == 0 {
      path := [];
    } else {
      assert HasPlace(ns, k);
      var j: nat :| KidAt(ns, k, j);
      assert KidOk(ns, ns[k].parent, j);
      path := PathTo(ns, ns[k].parent);
      LeadsOn(ns, 0, path, ns[k].parent, j, k);
      path := path + [j];
    }
  }

  /** Whatever the nodes are called inside the builder: a call edits the tree at the place of the node that it names. */
  lemma {:induction false} CallEdits(ns: seq<DtNode>, c: Call) returns (path: seq<nat>)
    requires Inv(ns) && LegalCall(ns, c)
    ensures Leads(ns, 0, path, NodeOf(c)) && TreeOf(Apply(ns, c), 0) == Edited(TreeOf(ns, 0), path, EditOf(c))
  {
    path := PathTo(ns, NodeOf(c));
    EditBelow(ns, c, NodeOf(c), 0, path);
  }

  // ----- values and paths -----

  /** A value made of numbers holds each of them as a big-endian word. */
  lemma {:induction false} WordsRead(xs: seq<nat>, k: nat, pos: nat)
    requires k < |xs| && xs[k] < WORD32 && pos == 4 * k
    ensures Word(WordsOf(xs), pos) == Some(xs[k])
    decreases |xs|
  {
    var n := |xs| - 1;
    var front, last, all := WordsOf(xs[..n]), BE32(xs[n]), WordsOf(xs);
    if k == n {
      assert Occurs(all, pos, last);
      OccursWord(all, pos, xs[n]);
    } else {
      WordsRead(xs[..n], k, pos);
    }
  }

  /** The NUL-terminated strings of a value. */
  function ReadStrings(b: Bytes, pos: nat): Option<seq<Bytes>>
    decreases |b| - pos
  {
    if pos >= |b| then Some([])
    else
      match StringAt(b, pos)
      case None => None
      case Some(first) =>
        (match ReadStrings(b, pos + |first| + 1)
         case None => None
         case Some(rest) => Some([first] + rest))
  }

  lemma {:induction false} OneString(b: Bytes, pos: nat, first: Bytes, next: nat, rest: seq<Bytes>)
    requires StringAt(b, pos) == Some(first) && next == pos + |first| + 1 && ReadStrings(b, next) == Some(rest)
    ensures ReadStrings(b, pos) == Some([first] + rest)
  {
  }

  lemma {:induction false} StringsFrom(ss: seq<Bytes>, all: Bytes, k: nat, pos: nat, rest: seq<Bytes>)
    requires (forall i | 0 <= i < |ss| :: CString(ss[i])) && all == StringsOf(ss)
    requires k <= |ss| && pos == |StringsOf(ss[..k])| && rest == ss[k..]
    ensures ReadStrings(all, pos) == Some(rest)
    decreases |rest|
  {
    if rest == [] {
      assert ss[..k] == ss;
    } else {
      var next, more := pos + |ss[k]| + 1, rest[1..];
      StringsPlace(ss, k);
      StringOccurs(all, pos, ss[k]);
      StringsFrom(ss, all, k + 1, next, more);
      OneString(all, pos, ss[k], next, more);
      assert rest == [ss[k]] + more;
    }
  }

  lemma {:induction false} StringsPlace(ss: seq<Bytes>, k: nat)
    requires k <= |ss|
    ensures StringsOf(ss[..k]) <= StringsOf(ss)
    ensures k < |ss| ==> Occurs(StringsOf(ss), |StringsOf(ss[..k])|, ss[k] + [0])
    ensures k < |ss| ==> |StringsOf(ss[..k + 1])| == |StringsOf(ss[..k])| + |ss[k]| + 1
    decreases |ss|
  {
    if k < |ss| {
      var n := |ss| - 1;
      assert ss[..k + 1][..k] == ss[..k];
      assert ss[..n][..k] == ss[..k];
      if k < n {
        StringsPlace(ss[..n], k);
      }
    } else {
      assert ss[..k] == ss;
    }
  }

  /** A value made of strings reads back as those strings. */
  lemma {:induction false} StringsRead(ss: seq<Bytes>)
    requires forall i | 0 <= i < |ss| :: CString(ss[i])
    ensures ReadStrings(StringsOf(ss), 0) == Some(ss)
  {
    assert ss[..0] == [] && ss[0..] == ss;
    StringsFrom(ss, StringsOf(ss), 0, 0, ss);
  }

  /** The names from below the root down to node `i`. */
  function NamesTo(ns: seq<DtNode>, i: nat): seq<Bytes>
    requires i < |ns|
    decreases i
  {
    if i == 0 || ns[i].parent >= i then [] else NamesTo(ns, ns[i].parent) + [ns[i].name]
  }

  /** The components of a path are those names. */
  lemma {:induction false} PathRead(ns: seq<DtNode>, i: nat)
    requires i < |ns| && forall j | 0 < j < |ns| :: Ext2Layout.Simple(ns[j].name)
    ensures Ext2Spec.Components(PathOf(ns, i)) == NamesTo(ns, i)
    decreases i
  {
    if i > 0 && ns[i].parent < i {
      PathRead(ns, ns[i].parent);
      Ext2Layout.ComponentsAppend(PathOf(ns, ns[i].parent), ns[i].name, PathOf(ns, i));
      Ext2Layout.OneComponent(ns[i].name);
    } else {
      assert Ext2Spec.Components([]) == [];
    }
  }
}
