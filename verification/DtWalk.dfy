/** The stackless walk of BlDtBuildBlob, as what is still to be written. */
module DtWalk {
  import opened Buffers
  import opened DtSpec

  /** Where the walk stands: about to open node `i`, back at node `i` after its first `j` children, or
      past the root. */
  datatype Walk = Entering(i: nat) | Returning(i: nat, j: nat) | Finished

  function PlaceIn(ks: seq<nat>, k: nat): (j: nat)
    ensures j <= |ks| && (j < |ks| ==> ks[j] == k)
  {
    if ks == [] || ks[0] == k then 0 else 1 + PlaceIn(ks[1..], k)
  }

  lemma {:induction false} PlaceIs(ks: seq<nat>, j: nat)
    requires Increasing(ks) && j < |ks|
    ensures PlaceIn(ks, ks[j]) == j
  {
    if j > 0 {
      assert ks[0] < ks[j];
      assert ks[1..][j - 1] == ks[j];
      PlaceIs(ks[1..], j - 1);
    }
  }

  function KidsFrom(ns: seq<DtNode>, i: nat, j: nat): seq<nat>
    requires i < |ns|
  {
    if j <= |ns[i].kids| then ns[i].kids[j..] else []
  }

  /** What follows the first `j` children of node `i`: the other children, the end of the node, and
      what follows that. */
  function After(ns: seq<DtNode>, i: nat, j: nat, off: Offsets): Bytes
    requires i < |ns|
    decreases i, 1
  {
    SerForest(ForestOf(ns, i, KidsFrom(ns, i, j)), off) + BE32(END_NODE) + Above(ns, i, off)
  }

  /** What follows the end of node `i`. */
  function Above(ns: seq<DtNode>, i: nat, off: Offsets): Bytes
    requires i < |ns|
    decreases i, 0
  {
    if ns[i].parent >= i then []
    else After(ns, ns[i].parent, PlaceIn(ns[ns[i].parent].kids, i) + 1, off)
  }

  predicate WalkOk(ns: seq<DtNode>, w: Walk) {
    match w
    case Entering(i) => i < |ns|
    case Returning(i, j) => i < |ns| && 0 < j <= |ns[i].kids|
    case Finished => true
  }

  function Remaining(ns: seq<DtNode>, w: Walk, off: Offsets): Bytes
    requires WalkOk(ns, w)
  {
    match w
    case Entering(i) => Ser(TreeOf(ns, i), off) + Above(ns, i, off)
    case Returning(i, j) => After(ns, i, j, off)
    case Finished => []
  }

  lemma {:induction false} Reassociate(a: Bytes, b: Bytes, c: Bytes, d: Bytes)
    ensures a + b + c + d == a + (b + c + d)
  {
  }

  /** Opening a node leaves all its children to write. */
  lemma {:induction false} EnterStep(ns: seq<DtNode>, i: nat, off: Offsets)
    requires i < |ns|
    ensures Remaining(ns, Entering(i), off) == Opening(ns[i].name, ns[i].props, off) + After(ns, i, 0, off)
  {
    assert ns[i].kids[0..] == ns[i].kids;
    var opening, kids := Opening(ns[i].name, ns[i].props, off), SerForest(ForestOf(ns, i, ns[i].kids), off);
    assert Ser(TreeOf(ns, i), off) == opening + kids + BE32(END_NODE);
    Reassociate(opening, kids, BE32(END_NODE), Above(ns, i, off));
  }

  lemma {:induction false} ForestStep(ns: seq<DtNode>, i: nat, ks: seq<nat>, rest: seq<nat>, off: Offsets)
    requires i < |ns| && ks != [] && rest == ks[1..] && i < ks[0] < |ns|
    ensures SerForest(ForestOf(ns, i, ks), off) ==
            Ser(TreeOf(ns, ks[0]), off) + SerForest(ForestOf(ns, i, rest), off)
  {
  }

  /** Down or sideways: the next child is written first. */
  lemma {:induction false} DownStep(ns: seq<DtNode>, i: nat, j: nat, off: Offsets)
    requires i < |ns| && j < |ns[i].kids| && KidOk(ns, i, j) && Increasing(ns[i].kids)
    ensures After(ns, i, j, off) == Remaining(ns, Entering(ns[i].kids[j]), off)
  {
    var k := ns[i].kids[j];
    PlaceIs(ns[i].kids, j);
    ForestStep(ns, i, ns[i].kids[j..], ns[i].kids[j + 1..], off);
    var kid, others := Ser(TreeOf(ns, k), off), SerForest(ForestOf(ns, i, ns[i].kids[j + 1..]), off);
    assert Above(ns, k, off) == After(ns, i, j + 1, off);
    Reassociate(kid, others, BE32(END_NODE), Above(ns, i, off));
  }

  function Upwards(ns: seq<DtNode>, i: nat): Walk
    requires i < |ns|
  {
    if ns[i].parent >= i then Finished
    else Returning(ns[i].parent, PlaceIn(ns[ns[i].parent].kids, i) + 1)
  }

  /** Up: the node ends, and the walk is back at its parent, just behind it. */
  lemma {:induction false} UpStep(ns: seq<DtNode>, i: nat, j: nat, off: Offsets)
    requires i < |ns| && j == |ns[i].kids| && WalkOk(ns, Upwards(ns, i))
    ensures After(ns, i, j, off) == BE32(END_NODE) + Remaining(ns, Upwards(ns, i), off)
  {
    assert ns[i].kids[j..] == [];
  }

  // ----- with FDT_END behind everything -----

  function TodoAfter(ns: seq<DtNode>, i: nat, j: nat, off: Offsets): Bytes
    requires i < |ns|
  {
    After(ns, i, j, off) + BE32(END)
  }

  /** What the rest of the walk has to write. */
  function Todo(ns: seq<DtNode>, w: Walk, off: Offsets): Bytes
    requires WalkOk(ns, w)
  {
    Remaining(ns, w, off) + BE32(END)
  }

  lemma {:induction false} EnterTodo(ns: seq<DtNode>, i: nat, off: Offsets)
    requires i < |ns|
    ensures Todo(ns, Entering(i), off) == Opening(ns[i].name, ns[i].props, off) + TodoAfter(ns, i, 0, off)
    ensures |TodoAfter(ns, i, 0, off)| < |Todo(ns, Entering(i), off)|
  {
    EnterStep(ns, i, off);
  }

  lemma {:induction false} DownTodo(ns: seq<DtNode>, i: nat, j: nat, off: Offsets)
    requires i < |ns| && j < |ns[i].kids| && KidOk(ns, i, j) && Increasing(ns[i].kids)
    ensures TodoAfter(ns, i, j, off) == Todo(ns, Entering(ns[i].kids[j]), off)
  {
    DownStep(ns, i, j, off);
  }

  lemma {:induction false} UpTodo(ns: seq<DtNode>, i: nat, j: nat, off: Offsets)
    requires i < |ns| && j == |ns[i].kids| && WalkOk(ns, Upwards(ns, i))
    ensures TodoAfter(ns, i, j, off) == BE32(END_NODE) + Todo(ns, Upwards(ns, i), off)
  {
    UpStep(ns, i, j, off);
  }

  /** Writing the first part of what is to be done. */
  lemma {:induction false} Fits(done: Bytes, s: Bytes, rest: Bytes, whole: Bytes)
    requires done + (s + rest) == whole
    ensures |done| + |s| <= |whole| && (done + s) + rest == whole
  {
  }
}
