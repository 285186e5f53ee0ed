/** The intrusive doubly linked list of bootloader/list.h, over word-addressed memory.

    A node is the address of a `struct BlListNode`: `Prev` is the word at that address, `Next` the
    word after it. Address 0 is the null pointer. The nodes are not owned by the list: they are
    fields of larger structures, and two lists can thread the same structure through two nodes, so
    every operation also says which words it may write. */
module Lists {
  type Addr = nat

  /** Memory as 32-bit words keyed by the address of their first byte. */
  type Memory = map<Addr, Addr>

  const NEXT := 4
  const NODE_SIZE := 8

  /** `struct BlList` */
  datatype BlList = BlList(head: Addr, tail: Addr)

  const EMPTY := BlList(0, 0)

  function Load(m: Memory, a: Addr): Addr {
    if a in m then m[a] else 0
  }

  function At(ns: seq<Addr>, i: int): Addr {
    if 0 <= i < |ns| then ns[i] else 0
  }

  /** Two nodes share no word. */
  predicate Apart(a: Addr, b: Addr) {
    a + NODE_SIZE <= b || b + NODE_SIZE <= a
  }

  predicate NodeOk(ns: seq<Addr>, i: int)
    requires 0 <= i < |ns|
  {
    ns[i] != 0
  }

  /** The nodes are not null and pairwise share no word. */
  ghost predicate AllApart(ns: seq<Addr>) {
    && (forall i | 0 <= i < |ns| :: NodeOk(ns, i))
    && (forall i, j {:trigger Apart(ns[i], ns[j])} | 0 <= i < j < |ns| :: Apart(ns[i], ns[j]))
  }

  /** The i-th node points to its neighbours. */
  predicate Linked(m: Memory, ns: seq<Addr>, i: int)
    requires 0 <= i < |ns|
  {
    Load(m, ns[i]) == At(ns, i - 1) && Load(m, ns[i] + NEXT) == At(ns, i + 1)
  }

  /** `l` is the list of nodes `ns`, from head to tail. */
  ghost predicate IsList(m: Memory, l: BlList, ns: seq<Addr>) {
    && AllApart(ns)
    && l.head == At(ns, 0)
    && l.tail == At(ns, |ns| - 1)
    && (forall i | 0 <= i < |ns| :: Linked(m, ns, i))
  }

  /** `a` is not one of the two words of any node. */
  ghost predicate Outside(a: Addr, ns: seq<Addr>) {
    forall i | 0 <= i < |ns| :: a != ns[i] && a != ns[i] + NEXT
  }

  /** Words that are not link words of the nodes `ns` are the same in both memories. */
  ghost predicate OnlyLinks(m: Memory, m': Memory, ns: seq<Addr>) {
    forall a {:trigger Outside(a, ns)} | Outside(a, ns) :: Load(m', a) == Load(m, a)
  }

  /** Following a list, the null pointer is found exactly at the end. */
  lemma {:induction false} NullAtEnd(ns: seq<Addr>, i: nat)
    requires AllApart(ns) && i <= |ns|
    ensures At(ns, i) == 0 <==> i == |ns|
  {
    assert i == |ns| || NodeOk(ns, i);
  }

  function Inserted(ns: seq<Addr>, k: nat, n: Addr): seq<Addr>
    requires k <= |ns|
  {
    ns[..k] + [n] + ns[k..]
  }

  function Removed(ns: seq<Addr>, k: nat): seq<Addr>
    requires k < |ns|
  {
    ns[..k] + ns[k + 1..]
  }

  /** A new node can be linked in when it shares no word with the nodes already there. */
  ghost predicate CanInsert(ns: seq<Addr>, node: Addr) {
    node != 0 && (forall i | 0 <= i < |ns| :: Apart(ns[i], node))
  }

  lemma {:induction false} InsertedApart(ns: seq<Addr>, k: nat, node: Addr)
    requires AllApart(ns) && k <= |ns| && CanInsert(ns, node)
    ensures AllApart(Inserted(ns, k, node))
  {
    var r := Inserted(ns, k, node);
    forall i | 0 <= i < |r| ensures NodeOk(r, i) {
      assert i < k ==> NodeOk(ns, i);
      assert i > k ==> NodeOk(ns, i - 1);
    }
  }

  lemma {:induction false} RemovedApart(ns: seq<Addr>, k: nat)
    requires AllApart(ns) && k < |ns|
    ensures AllApart(Removed(ns, k))
  {
    var r := Removed(ns, k);
    forall i | 0 <= i < |r| ensures NodeOk(r, i) {
      assert i < k ==> NodeOk(ns, i);
      assert i >= k ==> NodeOk(ns, i + 1);
    }
  }

  /** A list survives any change outside its own link words. */
  lemma {:induction false} ListFrame(m: Memory, m': Memory, l: BlList, ns: seq<Addr>)
    requires IsList(m, l, ns)
    requires forall i | 0 <= i < |ns| ::
               Load(m', ns[i]) == Load(m, ns[i]) && Load(m', ns[i] + NEXT) == Load(m, ns[i] + NEXT)
    ensures IsList(m', l, ns)
  {
    forall i | 0 <= i < |ns| ensures Linked(m', ns, i) {
      assert Linked(m, ns, i);
    }
  }

  /** What an insertion writes: both words of the new node and one word of each neighbour. */
  ghost predicate LinksIn(m: Memory, ns: seq<Addr>, k: nat, node: Addr, m': Memory)
    requires k <= |ns|
  {
    forall a: Addr :: Load(m', a) ==
      if a == node then At(ns, k - 1)
      else if a == node + NEXT then At(ns, k)
      else if k < |ns| && a == ns[k] then node
      else if k > 0 && a == ns[k - 1] + NEXT then node
      else Load(m, a)
  }

  lemma {:induction false} LinksInBefore(m: Memory, ns: seq<Addr>, k: nat, node: Addr, m': Memory, i: nat)
    requires AllApart(ns) && k <= |ns| && CanInsert(ns, node) && LinksIn(m, ns, k, node, m')
    requires i < k && Linked(m, ns, i)
    ensures Linked(m', Inserted(ns, k, node), i)
  {
    var r := Inserted(ns, k, node);
    assert r[i] == ns[i] && At(r, i - 1) == At(ns, i - 1);
    assert Apart(ns[i], node);
    assert k < |ns| ==> Apart(ns[i], ns[k]);
    assert i < k - 1 ==> Apart(ns[i], ns[k - 1]) && At(r, i + 1) == At(ns, i + 1);
  }

  lemma {:induction false} LinksInAfter(m: Memory, ns: seq<Addr>, k: nat, node: Addr, m': Memory, i: nat)
    requires AllApart(ns) && k <= |ns| && CanInsert(ns, node) && LinksIn(m, ns, k, node, m')
    requires k <= i < |ns| && Linked(m, ns, i)
    ensures Linked(m', Inserted(ns, k, node), i + 1)
  {
    var r := Inserted(ns, k, node);
    assert r[i + 1] == ns[i] && At(r, i + 2) == At(ns, i + 1);
    assert Apart(ns[i], node);
    assert k > 0 ==> Apart(ns[k - 1], ns[i]);
    assert i > k ==> Apart(ns[k], ns[i]) && At(r, i) == At(ns, i - 1);
  }

  lemma {:induction false} LinksInIsInsert(m: Memory, l: BlList, ns: seq<Addr>, k: nat, node: Addr, m': Memory, l': BlList)
    requires IsList(m, l, ns) && k <= |ns| && CanInsert(ns, node) && LinksIn(m, ns, k, node, m')
    requires l'.head == (if k == 0 then node else l.head)
    requires l'.tail == (if k == |ns| then node else l.tail)
    ensures IsList(m', l', Inserted(ns, k, node))
    ensures OnlyLinks(m, m', Inserted(ns, k, node))
  {
    var r := Inserted(ns, k, node);
    InsertedApart(ns, k, node);
    assert r[k] == node && (k > 0 ==> r[k - 1] == ns[k - 1]) && (k < |ns| ==> r[k + 1] == ns[k]);
    forall i | 0 <= i < |r| ensures Linked(m', r, i) {
      if i < k {
        LinksInBefore(m, ns, k, node, m', i);
      } else if i > k {
        LinksInAfter(m, ns, k, node, m', i - 1);
      }
    }
  }

  /** What BlListInsertAfter does, whatever is in memory. */
  function LinkBehind(m: Memory, l: BlList, anchor: Addr, node: Addr): (Memory, BlList) {
    var m1 := m[node := anchor];
    var m2 := m1[node + NEXT := if anchor != 0 then Load(m1, anchor + NEXT) else l.head];
    var m3 := if anchor != 0 then m2[anchor + NEXT := node] else m2;
    var head, next := if anchor != 0 then l.head else node, Load(m3, node + NEXT);
    if next != 0 then (m3[next := node], BlList(head, l.tail)) else (m3, BlList(head, node))
  }

  lemma {:induction false} LinkedBehind(m: Memory, l: BlList, anchor: Addr, node: Addr, ns: seq<Addr>, k: nat)
    requires IsList(m, l, ns) && k <= |ns| && CanInsert(ns, node) && anchor == At(ns, k - 1)
    ensures var (m', l') := LinkBehind(m, l, anchor, node);
            IsList(m', l', Inserted(ns, k, node)) && OnlyLinks(m, m', Inserted(ns, k, node))
  {
    assert k > 0 ==> NodeOk(ns, k - 1) && Linked(m, ns, k - 1) && Apart(ns[k - 1], node);
    assert k < |ns| ==> NodeOk(ns, k);
    assert k > 0 && k < |ns| ==> Apart(ns[k - 1], ns[k]);
    var (m', l') := LinkBehind(m, l, anchor, node);
    LinksInIsInsert(m, l, ns, k, node, m', l');
  }

  /** BlListInsertAfter: `anchor` is the node before the insertion point, or null for the front. */
  method InsertAfter(m: Memory, l: BlList, anchor: Addr, node: Addr, ghost ns: seq<Addr> := [], ghost k: nat := 0)
    returns (m': Memory, l': BlList)
    ensures (m', l') == LinkBehind(m, l, anchor, node)
    ensures IsList(m, l, ns) && k <= |ns| && CanInsert(ns, node) && anchor == At(ns, k - 1) ==>
              IsList(m', l', Inserted(ns, k, node)) && OnlyLinks(m, m', Inserted(ns, k, node))
  {
    m', l' := m[node := anchor], l;
    if anchor != 0 {
      m' := m'[node + NEXT := Load(m', anchor + NEXT)];
      m' := m'[anchor + NEXT := node];
    } else {
      m' := m'[node + NEXT := l.head];
      l' := l'.(head := node);
    }
    if Load(m', node + NEXT) != 0 {
      m' := m'[Load(m', node + NEXT) := node];
    } else {
      l' := l'.(tail := node);
    }
    if IsList(m, l, ns) && k <= |ns| && CanInsert(ns, node) && anchor == At(ns, k - 1) {
      LinkedBehind(m, l, anchor, node, ns, k);
    }
  }

  /** BlListInsertBefore: `anchor` is the node after the insertion point, or null for the back. */
  method InsertBefore(m: Memory, l: BlList, anchor: Addr, node: Addr, ghost ns: seq<Addr>, ghost k: nat)
    returns (m': Memory, l': BlList)
    requires IsList(m, l, ns) && k <= |ns| && CanInsert(ns, node)
    requires anchor == At(ns, k)
    ensures IsList(m', l', Inserted(ns, k, node))
    ensures OnlyLinks(m, m', Inserted(ns, k, node))
  {
    assert k > 0 ==> NodeOk(ns, k - 1);
    assert k < |ns| ==> NodeOk(ns, k) && Linked(m, ns, k) && Apart(ns[k], node);
    m', l' := m[node + NEXT := anchor], l;
    if anchor != 0 {
      m' := m'[node := Load(m', anchor)];
      m' := m'[anchor := node];
    } else {
      m' := m'[node := l.tail];
      l' := l'.(tail := node);
    }
    assert k > 0 && k < |ns| ==> Apart(ns[k - 1], ns[k]);
    assert Load(m', node) == At(ns, k - 1);
    if Load(m', node) != 0 {
      m' := m'[Load(m', node) + NEXT := node];
    } else {
      l' := l'.(head := node);
    }
    LinksInIsInsert(m, l, ns, k, node, m', l');
  }

  /** What a removal writes: one word of each neighbour. */
  ghost predicate LinksOut(m: Memory, ns: seq<Addr>, k: nat, m': Memory)
    requires k < |ns|
  {
    forall a: Addr :: Load(m', a) ==
      if k + 1 < |ns| && a == ns[k + 1] then At(ns, k - 1)
      else if k > 0 && a == ns[k - 1] + NEXT then At(ns, k + 1)
      else Load(m, a)
  }

  lemma {:induction false} LinksOutBefore(m: Memory, ns: seq<Addr>, k: nat, m': Memory, i: nat)
    requires AllApart(ns) && k < |ns| && LinksOut(m, ns, k, m')
    requires i < k && Linked(m, ns, i)
    ensures Linked(m', Removed(ns, k), i)
  {
    var r := Removed(ns, k);
    assert r[i] == ns[i] && At(r, i - 1) == At(ns, i - 1);
    assert k + 1 < |ns| ==> Apart(ns[i], ns[k + 1]);
    assert i < k - 1 ==> Apart(ns[i], ns[k - 1]) && At(r, i + 1) == At(ns, i + 1);
  }

  lemma {:induction false} LinksOutAfter(m: Memory, ns: seq<Addr>, k: nat, m': Memory, i: nat)
    requires AllApart(ns) && k < |ns| && LinksOut(m, ns, k, m')
    requires k < i < |ns| && Linked(m, ns, i)
    ensures Linked(m', Removed(ns, k), i - 1)
  {
    var r := Removed(ns, k);
    assert r[i - 1] == ns[i] && At(r, i) == At(ns, i + 1);
    assert k > 0 ==> Apart(ns[k - 1], ns[i]);
    assert i > k + 1 ==> Apart(ns[k + 1], ns[i]) && At(r, i - 2) == At(ns, i - 1);
  }

  lemma {:induction false} LinksOutOnly(m: Memory, ns: seq<Addr>, k: nat, m': Memory)
    requires k < |ns| && LinksOut(m, ns, k, m')
    ensures OnlyLinks(m, m', Removed(ns, k))
  {
    var r := Removed(ns, k);
    forall a | Outside(a, r) ensures Load(m', a) == Load(m, a) {
      assert k > 0 ==> r[k - 1] == ns[k - 1];
      assert k + 1 < |ns| ==> r[k] == ns[k + 1];
    }
  }

  lemma {:induction false} LinksOutIsRemove(m: Memory, l: BlList, ns: seq<Addr>, k: nat, m': Memory, l': BlList)
    requires IsList(m, l, ns) && k < |ns| && LinksOut(m, ns, k, m')
    requires l'.head == (if k == 0 then At(ns, 1) else l.head)
    requires l'.tail == (if k + 1 == |ns| then At(ns, k - 1) else l.tail)
    ensures IsList(m', l', Removed(ns, k))
  {
    var r := Removed(ns, k);
    RemovedApart(ns, k);
    forall i | 0 <= i < |r| ensures Linked(m', r, i) {
      if i < k {
        LinksOutBefore(m, ns, k, m', i);
      } else {
        LinksOutAfter(m, ns, k, m', i + 1);
      }
    }
    assert At(r, 0) == if k == 0 then At(ns, 1) else At(ns, 0);
    assert At(r, |r| - 1) == if k + 1 == |ns| then At(ns, k - 1) else At(ns, |ns| - 1);
  }

  /** What BlListRemove does, whatever is in memory. */
  function Unlink(m: Memory, l: BlList, node: Addr): (Memory, BlList) {
    var m1 := if Load(m, node) != 0 then m[Load(m, node) + NEXT := Load(m, node + NEXT)] else m;
    var head := if Load(m, node) != 0 then l.head else Load(m, node + NEXT);
    if Load(m1, node + NEXT) != 0 then (m1[Load(m1, node + NEXT) := Load(m1, node)], BlList(head, l.tail))
    else (m1, BlList(head, Load(m1, node)))
  }

  lemma {:induction false} Unlinked(m: Memory, l: BlList, node: Addr, ns: seq<Addr>, k: nat)
    requires IsList(m, l, ns) && k < |ns| && node == ns[k]
    ensures var (m', l') := Unlink(m, l, node);
            IsList(m', l', Removed(ns, k)) && OnlyLinks(m, m', Removed(ns, k))
  {
    assert NodeOk(ns, k) && Linked(m, ns, k);
    assert k > 0 ==> NodeOk(ns, k - 1) && Apart(ns[k - 1], ns[k]);
    assert k + 1 < |ns| ==> NodeOk(ns, k + 1) && Apart(ns[k], ns[k + 1]);
    var (m', l') := Unlink(m, l, node);
    LinksOutIsRemove(m, l, ns, k, m', l');
    LinksOutOnly(m, ns, k, m');
  }

  /** BlListRemove. The removed node keeps its stale links, as callers rely on. */
  method Remove(m: Memory, l: BlList, node: Addr, ghost ns: seq<Addr> := [], ghost k: nat := 0)
    returns (m': Memory, l': BlList)
    ensures (m', l') == Unlink(m, l, node)
    ensures IsList(m, l, ns) && k < |ns| && node == ns[k] ==>
              IsList(m', l', Removed(ns, k)) && OnlyLinks(m, m', Removed(ns, k))
  {
    m', l' := m, l;
    if Load(m', node) != 0 {
      m' := m'[Load(m', node) + NEXT := Load(m', node + NEXT)];
    } else {
      l' := l'.(head := Load(m', node + NEXT));
    }
    if Load(m', node + NEXT) != 0 {
      m' := m'[Load(m', node + NEXT) := Load(m', node)];
    } else {
      l' := l'.(tail := Load(m', node));
    }
    if IsList(m, l, ns) && k < |ns| && node == ns[k] {
      Unlinked(m, l, node, ns, k);
    }
  }
}
