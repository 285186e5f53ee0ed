/** The device tree that bootloader/dt.c builds, and the flattened form it has to write.

    Nodes are numbered in creation order, with the root as number 0. Names and property values are
    byte strings; a C string is its bytes without the terminating NUL. */
module DtSpec {
  import opened Buffers

  datatype Prop = Prop(name: Bytes, data: Bytes)

  /** `struct BlDtNode`. The root is its own parent here, and has no parent in C. */
  datatype DtNode = DtNode(name: Bytes, props: seq<Prop>, kids: seq<nat>, parent: nat)

  /** The tree a reader of the blob gets. */
  datatype Tree = Tree(name: Bytes, props: seq<Prop>, kids: Forest)
  datatype Forest = Nil | Cons(first: Tree, rest: Forest)

  const ROOT_ONLY: seq<DtNode> := [DtNode([], [], [], 0)]

  function TreeOf(ns: seq<DtNode>, i: nat): Tree
    requires i < |ns|
    decreases |ns| - i, |ns[i].kids| + 1
  {
    Tree(ns[i].name, ns[i].props, ForestOf(ns, i, ns[i].kids))
  }

  /** The trees of some children of node `i`. A child has a higher number than its parent. */
  function ForestOf(ns: seq<DtNode>, i: nat, ks: seq<nat>): Forest
    requires i < |ns|
    decreases |ns| - i, |ks|
  {
    if ks == [] then Nil
    else if i < ks[0] < |ns| then Cons(TreeOf(ns, ks[0]), ForestOf(ns, i, ks[1..]))
    else ForestOf(ns, i, ks[1..])
  }

  // ----- the flattened form: section 5.4 of the Devicetree Specification -----

  const BEGIN_NODE := 1
  const END_NODE := 2
  const PROP := 3
  const END := 9

  /** A 32-bit word in big-endian byte order. */
  function BE32(x: nat): (r: Bytes)
    ensures |r| == 4
  {
    [x / 0x1000000 % 256, x / 0x10000 % 256, x / 0x100 % 256, x % 256]
  }

  /** A whole number of words. */
  predicate Quad(n: nat) {
    n % 4 == 0
  }

  lemma {:induction false} QuadSum(a: nat, b: nat, c: nat)
    requires Quad(a) && Quad(b) && c == a + b
    ensures Quad(c)
  {
  }

  function Up4(n: nat): (r: nat)
    ensures Quad(r) && n <= r < n + 4
  {
    (n + 3) / 4 * 4
  }

  /** The bytes followed by zeros up to a multiple of four. */
  function Padded(s: Bytes): (r: Bytes)
    ensures |r| == Up4(|s|)
  {
    s + Zeros(Up4(|s|) - |s|)
  }

  /** Where each property name is in the strings block. */
  type Offsets = map<Bytes, nat>

  function OffsetOf(off: Offsets, name: Bytes): nat {
    if name in off then off[name] else 0
  }

  function SerProp(p: Prop, off: Offsets): (r: Bytes)
    ensures |r| == PropSize(|p.data|)
  {
    BE32(PROP) + BE32(|p.data|) + BE32(OffsetOf(off, p.name)) + Padded(p.data)
  }

  function SerProps(ps: seq<Prop>, off: Offsets): (r: Bytes)
    ensures Quad(|r|)
  {
    if ps == [] then [] else
    var first, rest := SerProp(ps[0], off), SerProps(ps[1..], off);
    QuadSum(|first|, |rest|, |first + rest|);
    first + rest
  }

  /** FDT_BEGIN_NODE, the name and the properties. */
  function Opening(name: Bytes, props: seq<Prop>, off: Offsets): (r: Bytes)
    ensures Quad(|r|)
  {
    var begin, padded, rest := BE32(BEGIN_NODE), Padded(name + [0]), SerProps(props, off);
    QuadSum(4, |padded|, |begin + padded|);
    QuadSum(|begin + padded|, |rest|, |begin + padded + rest|);
    begin + padded + rest
  }

  function Ser(t: Tree, off: Offsets): (r: Bytes)
    ensures Quad(|r|)
  {
    var opening, kids := Opening(t.name, t.props, off), SerForest(t.kids, off);
    QuadSum(|opening|, |kids|, |opening + kids|);
    QuadSum(|opening + kids|, 4, |opening + kids + BE32(END_NODE)|);
    opening + kids + BE32(END_NODE)
  }

  function SerForest(f: Forest, off: Offsets): (r: Bytes)
    ensures Quad(|r|)
  {
    match f
    case Nil => []
    case Cons(t, more) =>
      var first, rest := Ser(t, off), SerForest(more, off);
      QuadSum(|first|, |rest|, |first + rest|);
      first + rest
  }

  /** The structure block. */
  function Structure(t: Tree, off: Offsets): Bytes {
    Ser(t, off) + BE32(END)
  }

  // ----- size accounting -----

  /** BL_DT_NODE_SIZE */
  function NodeSize(nameLength: nat): nat {
    8 + Up4(nameLength + 1)
  }

  /** BL_DT_PROP_SIZE */
  function PropSize(dataSize: nat): nat {
    12 + Up4(dataSize)
  }

  function PropsSize(ps: seq<Prop>): nat {
    if ps == [] then 0 else PropSize(|ps[0].data|) + PropsSize(ps[1..])
  }

  /** What a node itself adds to the structure block. */
  function OwnSize(n: DtNode): nat {
    NodeSize(|n.name|) + PropsSize(n.props)
  }

  function OwnSizes(ns: seq<DtNode>): (w: seq<nat>)
    ensures |w| == |ns|
  {
    seq(|ns|, i requires 0 <= i < |ns| => OwnSize(ns[i]))
  }

  function Sum(w: seq<nat>): nat {
    if w == [] then 0 else w[0] + Sum(w[1..])
  }

  /** BlDtStructureSize: every node's own size and FDT_END. */
  function StructureSize(ns: seq<DtNode>): nat {
    Sum(OwnSizes(ns)) + 4
  }

  /** The weights of the nodes met when walking down from node `i`, counted as often as they are met. */
  function Total(ns: seq<DtNode>, i: nat, w: seq<nat>): nat
    requires i < |ns| == |w|
    decreases |ns| - i, |ns[i].kids| + 1
  {
    w[i] + TotalKids(ns, i, ns[i].kids, w)
  }

  function TotalKids(ns: seq<DtNode>, i: nat, ks: seq<nat>, w: seq<nat>): nat
    requires i < |ns| == |w|
    decreases |ns| - i, |ks|
  {
    if ks == [] then 0
    else (if i < ks[0] < |ns| then Total(ns, ks[0], w) else 0) + TotalKids(ns, i, ks[1..], w)
  }

  /** The walk down from the root meets every node exactly once, whatever the nodes weigh. */
  ghost predicate Spanning(ns: seq<DtNode>) {
    |ns| > 0 && forall w: seq<nat> {:trigger Total(ns, 0, w)} | |w| == |ns| :: Total(ns, 0, w) == Sum(w)
  }

  // ----- the builder's calls -----

  datatype Call =
    | CreateNode(parent: nat, name: Bytes)
    | AddProperty(node: nat, prop: Prop)

  /** A C string holds no NUL. */
  predicate CString(s: Bytes) {
    forall i | 0 <= i < |s| :: s[i] != 0
  }

  predicate LegalCall(ns: seq<DtNode>, c: Call) {
    match c
    case CreateNode(parent, name) => parent < |ns| && CString(name)
    case AddProperty(node, prop) => node < |ns| && CString(prop.name)
  }

  /** BlDtCreateNode: the new node becomes the last child of its parent. */
  function WithNode(ns: seq<DtNode>, parent: nat, name: Bytes): seq<DtNode>
    requires parent < |ns|
  {
    ns[parent := ns[parent].(kids := ns[parent].kids + [|ns|])] + [DtNode(name, [], [], parent)]
  }

  /** BlDtDoAddProperty: the property becomes the last one of its node. */
  function WithProp(ns: seq<DtNode>, node: nat, prop: Prop): seq<DtNode>
    requires node < |ns|
  {
    ns[node := ns[node].(props := ns[node].props + [prop])]
  }

  function Apply(ns: seq<DtNode>, c: Call): seq<DtNode>
    requires LegalCall(ns, c)
  {
    match c
    case CreateNode(parent, name) => WithNode(ns, parent, name)
    case AddProperty(node, prop) => WithProp(ns, node, prop)
  }

  /** A run of calls takes `ns` to `ns'`. */
  ghost predicate Run(ns: seq<DtNode>, calls: seq<Call>, ns': seq<DtNode>)
    decreases |calls|
  {
    if calls == [] then ns' == ns
    else LegalCall(ns, calls[0]) && Run(Apply(ns, calls[0]), calls[1..], ns')
  }

  // ----- the invariant -----

  predicate KidOk(ns: seq<DtNode>, i: nat, j: nat)
    requires i < |ns| && j < |ns[i].kids|
  {
    i < ns[i].kids[j] < |ns| && ns[ns[i].kids[j]].parent == i
  }

  /** Node `k` is the child number `j` of its parent. */
  predicate KidAt(ns: seq<DtNode>, k: nat, j: nat)
    requires k < |ns|
  {
    ns[k].parent < |ns| && j < |ns[ns[k].parent].kids| && ns[ns[k].parent].kids[j] == k
  }

  predicate Well(n: DtNode) {
    CString(n.name) && forall j | 0 <= j < |n.props| :: CString(n.props[j].name)
  }

  predicate Increasing(ks: seq<nat>) {
    forall a, b | 0 <= a < b < |ks| :: ks[a] < ks[b]
  }

  ghost predicate HasPlace(ns: seq<DtNode>, k: nat)
    requires k < |ns|
  {
    exists j: nat :: KidAt(ns, k, j)
  }

  ghost predicate Inv(ns: seq<DtNode>) {
    && |ns| > 0 && ns[0].name == []
    && (forall i {:trigger Well(ns[i])} | 0 <= i < |ns| :: Well(ns[i]) && Increasing(ns[i].kids))
    && (forall i, j {:trigger KidOk(ns, i, j)} | 0 <= i < |ns| && 0 <= j < |ns[i].kids| :: KidOk(ns, i, j))
    && (forall k {:trigger HasPlace(ns, k)} | 0 < k < |ns| :: HasPlace(ns, k))
    && Spanning(ns)
  }
}
