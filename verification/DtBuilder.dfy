/** The calls of bootloader/dt.c on its structures, and the blob they end in. */
module DtBuilder {
  import opened Basics
  import opened Lists
  import opened Buffers
  import opened DtSpec
  import opened DtTree
  import opened DtParse
  import opened DtStrings
  import opened DtTable
  import opened DtWriter
  import opened DtWalk
  import opened DtBlob
  import opened DeviceTree

  class Builder {
    var nodes: map<Addr, NodeStruct>
    var links: Memory
    var structureSize: nat
    const root: Addr
    const strings: StringTable
    ghost var ns: seq<DtNode>
    ghost var at: seq<Addr>

    /** The structures are the tree `ns`, every name is interned, and the size is exact. */
    ghost predicate Valid()
      reads this, strings, strings.table
    {
      && strings.Valid() && Inv(ns) && AllApart(at) && structureSize == StructureSize(ns)
      && AllInPlace(nodes, links, ns, at, strings.order) && at[0] == root
    }

    constructor (address: Addr)
      requires address != 0
      ensures Valid() && ns == ROOT_ONLY && fresh(strings) && fresh(strings.table)
    {
      root := address;
      strings := new StringTable();
      nodes := map[address := NodeStruct(0, [], EMPTY, [])];
      links := map[];
      structureSize := 16;
      ns := ROOT_ONLY;
      at := [address];
      new;
      RootInv();
      assert NodeOk(at, 0);
      assert AddrsOf(at, ns[0].kids) == [];
      assert InPlace(nodes, links, ns, at, strings.order, 0);
    }

    /** `node` is the structure of node number `i`; null stands for the root. */
    ghost predicate IsNode(node: Addr, i: nat)
      reads this
    {
      i < |ns| == |at| && node == if i == 0 && node == 0 then 0 else at[i]
    }

    /** BlDtCreateNode, with the structure in memory just allocated at `room`. */
    method CreateNode(parent: Addr, name: Bytes, room: Addr, ghost p: nat) returns (node: Addr)
      requires Valid() && CString(name) && CanInsert(at, room) && IsNode(parent, p)
      modifies this
      ensures Valid() && ns == WithNode(old(ns), p, name) && at == old(at) + [room] && node == room
    {
      var parent' := if parent == 0 then root else parent;
      ghost var m, nodes0 := links, nodes;
      assert NodeOk(at, p) && InPlace(nodes, links, ns, at, strings.order, p);
      KidAddrsFresh(ns, at, p, room);
      nodes := nodes[room := NodeStruct(parent', name, EMPTY, [])];
      var l;
      links, l := InsertBefore(links, nodes[parent'].children, 0, room, AddrsOf(at, ns[p].kids), |ns[p].kids|);
      nodes := nodes[parent' := nodes[parent'].(children := l)];
      structureSize := structureSize + NodeSize(|name|);
      CreatedInPlace(nodes0, m, ns, at, strings.order, p, name, room, links, l);
      CreateInv(ns, p, name);
      CreateSize(ns, p, name);
      InsertedApart(at, |at|, room);
      assert Inserted(at, |at|, room) == at + [room];
      ns, at := WithNode(ns, p, name), at + [room];
      node := room;
    }

    /** BlDtDoAddProperty. `room` is the memory a new string entry would get. */
    method DoAddProperty(node: Addr, name: Bytes, data: Bytes, room: Addr, ghost i: nat)
      requires Valid() && CString(name) && CanInsert(Nodes(strings.order), room) && IsNode(node, i)
      modifies this, strings, strings.table
      ensures Valid() && ns == WithProp(old(ns), i, Prop(name, data)) && at == old(at)
      ensures strings.table == old(strings.table) || fresh(strings.table)
    {
      var node' := if node == 0 then root else node;
      ghost var order := strings.order;
      assert NodeOk(at, i) && InPlace(nodes, links, ns, at, order, i);
      var entry := strings.GetString(name, room);
      Grows(order, strings.order, Entry(room, name));
      AddedInPlace(nodes, links, ns, at, order, strings.order, i, Prop(name, data), entry);
      nodes := nodes[node' := nodes[node'].(properties := nodes[node'].properties + [PropStruct(entry, data)])];
      structureSize := structureSize + PropSize(|data|);
      AddInv(ns, i, Prop(name, data));
      AddSize(ns, i, Prop(name, data));
      ns := WithProp(ns, i, Prop(name, data));
    }

    /** BlDtAddPropertyU32s: the words of the value are stored in big-endian order. */
    method AddPropertyU32s(node: Addr, name: Bytes, data: seq<nat>, room: Addr, ghost i: nat)
      requires Valid() && CString(name) && CanInsert(Nodes(strings.order), room) && IsNode(node, i)
      modifies this, strings, strings.table
      ensures Valid() && ns == WithProp(old(ns), i, Prop(name, WordsOf(data))) && at == old(at)
    {
      var buffer, k := [], 0;
      while k < |data|
        invariant k <= |data| && buffer == WordsOf(data[..k])
      {
        assert data[..k + 1][..k] == data[..k];
        buffer := buffer + BE32(data[k]);
        k := k + 1;
      }
      assert data[..k] == data;
      DoAddProperty(node, name, buffer, room, i);
    }

    /** BlDtAddPropertyStrings: the value is the strings one after another, each with its NUL. */
    method AddPropertyStrings(node: Addr, name: Bytes, data: seq<Bytes>, room: Addr, ghost i: nat)
      requires Valid() && CString(name) && CanInsert(Nodes(strings.order), room) && IsNode(node, i)
      modifies this, strings, strings.table
      ensures Valid() && ns == WithProp(old(ns), i, Prop(name, StringsOf(data))) && at == old(at)
    {
      var buffer, k := [], 0;
      while k < |data|
        invariant k <= |data| && buffer == StringsOf(data[..k])
      {
        assert data[..k + 1][..k] == data[..k];
        buffer := buffer + (data[k] + [0]);
        k := k + 1;
      }
      assert data[..k] == data;
      DoAddProperty(node, name, buffer, room, i);
    }

    /** BlDtNodePath: the names from the root down, each behind a slash, filled in from the end. */
    method NodePath(node: Addr, ghost i: nat) returns (path: array<Byte>)
      requires Valid() && i < |ns| && node == at[i]
      ensures fresh(path) && path[..] == PathOf(ns, i) + [0]
    {
      var size := PathSize(node, i);
      path := new Byte[size];
      size := size - 1;
      path[size] := 0;
      var current := node;
      ghost var k: nat := i;
      assert PathOf(ns, i) + path[size..] == PathOf(ns, i) + [0];
      assert InPlace(nodes, links, ns, at, strings.order, i);
      while nodes[current].parent != 0
        invariant k < |ns| && current == at[k] && current in nodes
        invariant nodes[current].parent == ParentAddr(ns, at, k)
        invariant size == |PathOf(ns, k)| <= path.Length && fresh(path)
        invariant PathOf(ns, k) + path[size..] == PathOf(ns, i) + [0]
        decreases k
      {
        StepUp(ns, at, nodes, links, strings.order, k);
        size, current, k := PrependName(path, size, current, k, PathOf(ns, i) + [0]);
      }
      PathEnds(ns, at, k);
      assert path[0..] == path[..];
    }

    method PathSize(node: Addr, ghost i: nat) returns (size: nat)
      requires Valid() && i < |ns| && node == at[i]
      ensures size == |PathOf(ns, i)| + 1
    {
      size := 1;
      var current := node;
      ghost var k: nat := i;
      assert InPlace(nodes, links, ns, at, strings.order, i);
      while nodes[current].parent != 0
        invariant k < |ns| && current == at[k] && current in nodes
        invariant nodes[current].parent == ParentAddr(ns, at, k)
        invariant size + |PathOf(ns, k)| == |PathOf(ns, i)| + 1
        decreases k
      {
        StepUp(ns, at, nodes, links, strings.order, k);
        size := size + |nodes[current].name| + 1;
        current, k := nodes[current].parent, ns[k].parent;
      }
      PathEnds(ns, at, k);
    }

    /** One round of the second loop of BlDtNodePath. */
    method PrependName(path: array<Byte>, size: nat, current: Addr, ghost k: nat, ghost whole: Bytes)
      returns (next: nat, above: Addr, ghost p: nat)
      requires k < |ns| && current in nodes && ns[k].parent < k && nodes[current].name == ns[k].name
      requires size == |PathOf(ns, k)| <= path.Length && PathOf(ns, k) + path[size..] == whole
      modifies path
      ensures p == ns[k].parent && above == nodes[current].parent
      ensures next == |PathOf(ns, p)| <= path.Length && PathOf(ns, p) + path[next..] == whole
    {
      var name := nodes[current].name;
      ghost var before := path[..];
      next := size - |name|;
      CopyMemory(path, next, name);
      ghost var named := path[..];
      next := next - 1;
      path[next] := 47;
      above, p := nodes[current].parent, ns[k].parent;
      PathGrows(before, named, path[..], size, next, name);
      PathJoins(PathOf(ns, p), name, before[size..], PathOf(ns, k), path[next..]);
    }

    // ----- BlDtBuildBlob -----

    method WriteProp(out: array<Byte>, structure: nat, offset: nat, p: PropStruct,
                     ghost q: Prop, ghost off: Offsets, ghost done: Bytes, ghost before: Bytes)
      returns (next: nat)
      requires Emitted(out[..], before, structure, structureSize, done, offset)
      requires PropRep(p, q, strings.order) && Located(strings.identifier, strings.order, off)
      requires offset + |SerProp(q, off)| <= structureSize
      modifies out
      ensures Emitted(out[..], before, structure, structureSize, done + SerProp(q, off), next)
    {
      assert HasEntry(strings.order, Entry(p.name, q.name));
      var a, b, c := BE32(PROP), BE32(|p.data|), BE32(strings.identifier[p.name]);
      next := AddToken(out, structure, structureSize, offset, PROP, done, before);
      next := AddToken(out, structure, structureSize, next, |p.data|, done + a, before);
      next := AddToken(out, structure, structureSize, next, strings.identifier[p.name], done + a + b, before);
      next := AddDataAndAlign(out, structure, structureSize, next, p.data, done + a + b + c, before);
      assert done + a + b + c + Padded(p.data) == done + SerProp(q, off);
    }

    method WriteNext(out: array<Byte>, structure: nat, offset: nat, ps: seq<PropStruct>, ghost qs: seq<Prop>, i: nat,
                     ghost off: Offsets, ghost done: Bytes, ghost written: Bytes, ghost before: Bytes)
      returns (next: nat)
      requires Emitted(out[..], before, structure, structureSize, done + written, offset)
      requires PropsRep(ps, qs, strings.order) && Located(strings.identifier, strings.order, off) && i < |ps|
      requires offset + |SerProp(qs[i], off)| <= structureSize
      modifies out
      ensures Emitted(out[..], before, structure, structureSize, done + (written + SerProp(qs[i], off)), next)
    {
      assert PropRep(ps[i], qs[i], strings.order);
      next := WriteProp(out, structure, offset, ps[i], qs[i], off, done + written, before);
      assert done + written + SerProp(qs[i], off) == done + (written + SerProp(qs[i], off));
    }

    method WriteProps(out: array<Byte>, structure: nat, offset: nat, ps: seq<PropStruct>,
                      ghost qs: seq<Prop>, ghost off: Offsets, ghost done: Bytes, ghost before: Bytes)
      returns (next: nat)
      requires Emitted(out[..], before, structure, structureSize, done, offset)
      requires PropsRep(ps, qs, strings.order) && Located(strings.identifier, strings.order, off)
      requires offset + |SerProps(qs, off)| <= structureSize
      modifies out
      ensures Emitted(out[..], before, structure, structureSize, done + SerProps(qs, off), next)
    {
      ghost var written := [];
      var i := 0;
      next := offset;
      assert done + written == done && qs[0..] == qs;
      while i < |ps|
        invariant i <= |ps| && written + SerProps(qs[i..], off) == SerProps(qs, off)
        invariant Emitted(out[..], before, structure, structureSize, done + written, next)
      {
        PropsSplit(qs, i, off, written);
        next := WriteNext(out, structure, next, ps, qs, i, off, done, written, before);
        written := written + SerProp(qs[i], off);
        i := i + 1;
      }
      assert qs[i..] == [] && written + [] == written;
    }

    /** FDT_BEGIN_NODE, the name and the properties of one node. */
    method OpenNode(out: array<Byte>, structure: nat, offset: nat, node: Addr,
                    ghost i: nat, ghost off: Offsets, ghost done: Bytes, ghost before: Bytes)
      returns (next: nat)
      requires Emitted(out[..], before, structure, structureSize, done, offset)
      requires i < |ns| && node in nodes && nodes[node].name == ns[i].name
      requires PropsRep(nodes[node].properties, ns[i].props, strings.order)
      requires Located(strings.identifier, strings.order, off)
      requires offset + |Opening(ns[i].name, ns[i].props, off)| <= structureSize
      modifies out
      ensures Emitted(out[..], before, structure, structureSize, done + Opening(ns[i].name, ns[i].props, off), next)
    {
      ghost var begin, name, props := BE32(BEGIN_NODE), Padded(ns[i].name + [0]), SerProps(ns[i].props, off);
      ghost var begun := done + begin;
      ghost var named := begun + name;
      OpeningParts(ns[i].name, ns[i].props, off, done);
      next := AddToken(out, structure, structureSize, offset, BEGIN_NODE, done, before);
      next := AddDataAndAlign(out, structure, structureSize, next, nodes[node].name + [0], begun, before);
      next := WriteProps(out, structure, next, nodes[node].properties, ns[i].props, off, named, before);
    }

    /** The walk is at `w`, and what is written so far and what remains make up the structure block. */
    ghost predicate Walking(out: Bytes, before: Bytes, structure: nat, offset: nat, done: Bytes, w: Walk,
                            node: Addr, previous: Addr, off: Offsets, whole: Bytes)
      reads this
    {
      && |ns| == |at| && WalkOk(ns, w) && Pointers(ns, at, w, node, previous)
      && Emitted(out, before, structure, structureSize, done, offset) && |whole| == structureSize
      && done + Todo(ns, w, off) == whole
    }

    /** The first half of the loop: opens a node or finds its next child. */
    method Visit(out: array<Byte>, structure: nat, offset: nat, node: Addr, previous: Addr, ghost w: Walk,
                 ghost off: Offsets, ghost done: Bytes, ghost before: Bytes, ghost whole: Bytes)
      returns (kid: Addr, next: nat, ghost j: nat, ghost done': Bytes)
      requires Valid() && Located(strings.identifier, strings.order, off) && !w.Finished?
      requires Walking(out[..], before, structure, offset, done, w, node, previous, off, whole)
      modifies out
      ensures j <= |ns[w.i].kids| && kid == At(AddrsOf(at, ns[w.i].kids), j)
      ensures Emitted(out[..], before, structure, structureSize, done', next)
      ensures done' + TodoAfter(ns, w.i, j, off) == whole
      ensures w.Returning? ==> TodoAfter(ns, w.i, j, off) == Todo(ns, w, off)
      ensures w.Entering? ==> |TodoAfter(ns, w.i, j, off)| < |Todo(ns, w, off)|
    {
      WalkTest(ns, at, w, node, previous);
      assert InPlace(nodes, links, ns, at, strings.order, w.i);
      ghost var kids := AddrsOf(at, ns[w.i].kids);
      if previous == nodes[node].parent {
        FirstKid(links, nodes[node].children, kids);
        next, done' := Enter(out, structure, offset, node, w.i, off, done, before, whole);
        kid, j := nodes[node].children.head, 0;
      } else {
        NextKid(links, nodes[node].children, kids, w.j, previous);
        kid, next, j, done' := Load(links, previous + NEXT), offset, w.j, done;
      }
    }

    method Enter(out: array<Byte>, structure: nat, offset: nat, node: Addr, ghost i: nat,
                 ghost off: Offsets, ghost done: Bytes, ghost before: Bytes, ghost whole: Bytes)
      returns (next: nat, ghost done': Bytes)
      requires i < |ns| && node in nodes && nodes[node].name == ns[i].name
      requires PropsRep(nodes[node].properties, ns[i].props, strings.order)
      requires Located(strings.identifier, strings.order, off)
      requires Emitted(out[..], before, structure, structureSize, done, offset)
      requires |whole| == structureSize && done + Todo(ns, Entering(i), off) == whole
      modifies out
      ensures Emitted(out[..], before, structure, structureSize, done', next)
      ensures done' + TodoAfter(ns, i, 0, off) == whole
      ensures |TodoAfter(ns, i, 0, off)| < |Todo(ns, Entering(i), off)|
    {
      ghost var opening := Opening(ns[i].name, ns[i].props, off);
      EnterTodo(ns, i, off);
      Fits(done, opening, TodoAfter(ns, i, 0, off), whole);
      next := OpenNode(out, structure, offset, node, i, off, done, before);
      done' := done + opening;
    }

    /** The second half of the loop: down or sideways to a child, or up after closing the node. */
    method Onward(out: array<Byte>, structure: nat, offset: nat, node: Addr, kid: Addr, ghost i: nat, ghost j: nat,
                  ghost off: Offsets, ghost done: Bytes, ghost before: Bytes, ghost whole: Bytes)
      returns (node': Addr, previous: Addr, next: nat, ghost w: Walk, ghost done': Bytes)
      requires Valid() && i < |ns| && node == at[i] && j <= |ns[i].kids|
      requires kid == At(AddrsOf(at, ns[i].kids), j)
      requires Emitted(out[..], before, structure, structureSize, done, offset)
      requires |whole| == structureSize && done + TodoAfter(ns, i, j, off) == whole
      modifies out
      ensures Walking(out[..], before, structure, next, done', w, node', previous, off, whole)
      ensures w.Entering? ==> Todo(ns, w, off) == TodoAfter(ns, i, j, off)
      ensures !w.Entering? ==> |Todo(ns, w, off)| < |TodoAfter(ns, i, j, off)|
    {
      assert InPlace(nodes, links, ns, at, strings.order, i);
      previous, w := node, Onwards(ns, i, j);
      if kid != 0 {
        assert j < |ns[i].kids| && KidOk(ns, i, j) && Well(ns[i]);
        OnwardsDown(ns, at, i, j);
        DownTodo(ns, i, j, off);
        node', next, done' := kid, offset, done;
      } else {
        KidNull(ns, at, i, j);
        OnwardsUp(ns, at, i);
        UpTodo(ns, i, j, off);
        Fits(done, BE32(END_NODE), Todo(ns, w, off), whole);
        next := AddToken(out, structure, structureSize, offset, END_NODE, done, before);
        node', done' := nodes[node].parent, done + BE32(END_NODE);
      }
    }

    /** One round of the loop. What remains to be written shrinks, or the walk turns from coming back to
        a node to opening its next child. */
    method WalkOn(out: array<Byte>, structure: nat, offset: nat, node: Addr, previous: Addr, ghost w: Walk,
                  ghost off: Offsets, ghost done: Bytes, ghost before: Bytes, ghost whole: Bytes)
      returns (node': Addr, previous': Addr, next: nat, ghost w': Walk, ghost done': Bytes)
      requires Valid() && Located(strings.identifier, strings.order, off) && !w.Finished?
      requires Walking(out[..], before, structure, offset, done, w, node, previous, off, whole)
      modifies out
      ensures Walking(out[..], before, structure, next, done', w', node', previous', off, whole)
      ensures || |Todo(ns, w', off)| < |Todo(ns, w, off)|
              || (|Todo(ns, w', off)| == |Todo(ns, w, off)| && w.Returning? && w'.Entering?)
    {
      var kid;
      ghost var j, mid;
      kid, next, j, mid := Visit(out, structure, offset, node, previous, w, off, done, before, whole);
      node', previous', next, w', done' := Onward(out, structure, next, node, kid, w.i, j, off, mid, before, whole);
    }

    /** The stackless walk: it ends, and writes the structure block. */
    method WriteStructure(out: array<Byte>, structure: nat, ghost off: Offsets)
      requires Valid() && Located(strings.identifier, strings.order, off)
      requires structure + structureSize <= out.Length
      modifies out
      ensures Occurs(out[..], structure, Structure(TreeOf(ns, 0), off))
      ensures Only(old(out[..]), out[..], structure, structure + structureSize)
    {
      ghost var before, done, w := out[..], [], Entering(0);
      ghost var whole := Structure(TreeOf(ns, 0), off);
      var node, previous, offset := root, 0, 0;
      StructureSizeExact(ns, off);
      RootAlone(ns, off);
      while node != 0
        invariant Walking(out[..], before, structure, offset, done, w, node, previous, off, whole)
        decreases |Todo(ns, w, off)|, if w.Returning? then 1 else 0
      {
        assert !w.Finished?;
        node, previous, offset, w, done := WalkOn(out, structure, offset, node, previous, w, off, done, before, whole);
      }
      FinishedAtNull(ns, at, w, node, previous);
      Finish(out, structure, offset, off, done, before);
    }

    /** FDT_END completes the structure block. */
    method Finish(out: array<Byte>, structure: nat, offset: nat, ghost off: Offsets, ghost done: Bytes, ghost before: Bytes)
      requires Valid() && Emitted(out[..], before, structure, structureSize, done, offset)
      requires done + ([] + BE32(END)) == Structure(TreeOf(ns, 0), off)
      modifies out
      ensures Occurs(out[..], structure, Structure(TreeOf(ns, 0), off))
      ensures Only(before, out[..], structure, structure + structureSize)
    {
      StructureSizeExact(ns, off);
      var last := AddToken(out, structure, structureSize, offset, END, done, before);
      assert [] + BE32(END) == BE32(END);
    }

    /** The header, and the memory reservation block with nothing but its terminator. */
    method WriteFront(out: array<Byte>, total: nat, stringsAt: nat, whami: nat)
      requires STRUCTURE_AT <= out.Length && total < WORD32 && stringsAt < WORD32 && whami < WORD32
      modifies out
      ensures FrontOk(out[..], total, stringsAt, whami, strings.size, structureSize)
    {
      ghost var before := out[..];
      WriteHeaderStart(out, total, stringsAt);
      ghost var started := out[..];
      WriteHeaderEnd(out, whami);
      ghost var headed := out[..];
      OnlyElsewhere(started, headed, 20, HEADER_SIZE, 0, HeaderStart(total, stringsAt));
      CopyMemory(out, HEADER_SIZE, Zeros(16));
      OnlyElsewhere(headed, out[..], HEADER_SIZE, STRUCTURE_AT, 0, HeaderStart(total, stringsAt));
      OnlyElsewhere(headed, out[..], HEADER_SIZE, STRUCTURE_AT, 20, HeaderEnd(whami, strings.size, structureSize));
    }

    method WriteHeaderStart(out: array<Byte>, total: nat, stringsAt: nat)
      requires STRUCTURE_AT <= out.Length
      modifies out
      ensures Occurs(out[..], 0, HeaderStart(total, stringsAt)) && Only(old(out[..]), out[..], 0, 20)
    {
      ghost var before := out[..];
      var a, b, c, d := BE32(MAGIC), BE32(total), BE32(STRUCTURE_AT), BE32(stringsAt);
      var offset := AddToken(out, 0, 20, 0, MAGIC, [], before);
      offset := AddToken(out, 0, 20, offset, total, a, before);
      offset := AddToken(out, 0, 20, offset, STRUCTURE_AT, a + b, before);
      offset := AddToken(out, 0, 20, offset, stringsAt, a + b + c, before);
      offset := AddToken(out, 0, 20, offset, HEADER_SIZE, a + b + c + d, before);
    }

    method WriteHeaderEnd(out: array<Byte>, whami: nat)
      requires STRUCTURE_AT <= out.Length
      modifies out
      ensures Occurs(out[..], 20, HeaderEnd(whami, strings.size, structureSize))
      ensures Only(old(out[..]), out[..], 20, HEADER_SIZE)
    {
      ghost var before := out[..];
      var a, b, c, d := BE32(VERSION), BE32(COMPATIBLE), BE32(whami), BE32(strings.size);
      var offset := AddToken(out, 20, 20, 0, VERSION, [], before);
      offset := AddToken(out, 20, 20, offset, COMPATIBLE, a, before);
      offset := AddToken(out, 20, 20, offset, whami, a + b, before);
      offset := AddToken(out, 20, 20, offset, strings.size, a + b + c, before);
      offset := AddToken(out, 20, 20, offset, structureSize, a + b + c + d, before);
    }

    /** BlDtBuildBlob: a standard reader gets exactly the tree that was built out of the blob. */
    method BuildBlob(whami: nat) returns (blob: array<Byte>)
      requires Valid() && STRUCTURE_AT + structureSize + strings.size < WORD32 && whami < WORD32
      modifies strings`identifier
      ensures Valid() && fresh(blob) && blob.Length == STRUCTURE_AT + structureSize + strings.size
      ensures ParseBlob(blob[..]) == Some(TreeOf(ns, 0)) && BootProcessor(blob[..]) == whami
    {
      var stringsAt := STRUCTURE_AT + structureSize;
      var total := stringsAt + strings.size;
      blob := new Byte[total];
      WriteFront(blob, total, stringsAt, whami);
      ghost var front := blob[..];
      ghost var off, block := WriteNames(blob, stringsAt);
      ghost var named := blob[..];
      WriteStructure(blob, STRUCTURE_AT, off);
      BlobComplete(front, named, blob[..], ns, off, block, whami, stringsAt, structureSize, strings.size);
    }

    /** The strings block, and what it tells about the names of properties. */
    method WriteNames(out: array<Byte>, stringsAt: nat) returns (ghost off: Offsets, ghost block: Bytes)
      requires Valid() && stringsAt + strings.size <= out.Length
      requires structureSize < WORD32 && strings.size < WORD32
      modifies strings`identifier, out
      ensures Valid() && Only(old(out[..]), out[..], stringsAt, stringsAt + strings.size)
      ensures Occurs(out[..], stringsAt, block) && |block| == strings.size
      ensures Located(strings.identifier, strings.order, off) && Readable(ns, off, block)
    {
      ghost var order, text := strings.order, strings.text;
      ghost var flat := Flat(order, strings.capacity, strings.capacity);
      FlatFacts(text, order, strings.capacity);
      strings.WriteStrings(out, stringsAt);
      off, block := OffsetsOf(flat), BlockOf(flat);
      LocatedByLayout(strings.identifier, order, flat);
      AllReadable(nodes, links, ns, at, order, flat, text);
    }
  }

  lemma {:induction false} BlobComplete(front: Bytes, named: Bytes, blob: Bytes, ns: seq<DtNode>, off: Offsets, block: Bytes,
                                        whami: nat, stringsAt: nat, structSize: nat, stringsSize: nat)
    requires Inv(ns) && structSize == StructureSize(ns) && stringsSize == |block| && Readable(ns, off, block)
    requires stringsAt == STRUCTURE_AT + structSize && |blob| == stringsAt + stringsSize < WORD32 && whami < WORD32
    requires FrontOk(front, |blob|, stringsAt, whami, stringsSize, structSize)
    requires Only(front, named, stringsAt, |blob|) && Occurs(named, stringsAt, block)
    requires Only(named, blob, STRUCTURE_AT, stringsAt) && Occurs(blob, STRUCTURE_AT, Structure(TreeOf(ns, 0), off))
    ensures ParseBlob(blob) == Some(TreeOf(ns, 0)) && BootProcessor(blob) == whami
  {
    var t := TreeOf(ns, 0);
    FrontKept(front, named, |blob|, stringsAt, whami, stringsSize, structSize, stringsAt, |blob|);
    FrontKept(named, blob, |blob|, stringsAt, whami, stringsSize, structSize, STRUCTURE_AT, stringsAt);
    OnlyElsewhere(named, blob, STRUCTURE_AT, stringsAt, stringsAt, block);
    StructureSizeExact(ns, off);
    TreeReadable(ns, 0, off, block);
    StructureRoundTrip(block, t, off);
    BlobRead(blob, Structure(t, off), block, whami, stringsAt, structSize, stringsSize);
  }

  lemma {:induction false} Grows(order: seq<Entry>, order': seq<Entry>, e: Entry)
    requires order' == order || multiset(order') == multiset(order) + multiset{e}
    ensures EntriesKept(order, order')
  {
    MoreEntries(order, order', if order' == order then multiset{} else multiset{e});
  }

  lemma {:induction false} PathGrows(before: Bytes, named: Bytes, after: Bytes, size: nat, next: nat, name: Bytes)
    requires next + 1 + |name| == size <= |before|
    requires Occurs(named, next + 1, name) && Only(before, named, next + 1, size) && after == named[next := 47]
    ensures after[next..] == [47] + name + before[size..]
  {
    assert named[next + 1..] == named[next + 1..size] + named[size..];
    assert after[next..] == [47] + named[next + 1..];
  }

  lemma {:induction false} PathJoins(above: Bytes, name: Bytes, rest: Bytes, path: Bytes, tail: Bytes)
    requires path == above + [47] + name && tail == [47] + name + rest
    ensures above + tail == path + rest
  {
  }

  /** A node with a parent address has a parent with a smaller number. */
  lemma {:induction false} StepUp(ns: seq<DtNode>, at: seq<Addr>, nodes: map<Addr, NodeStruct>, m: Memory,
                                  order: seq<Entry>, k: nat)
    requires Inv(ns) && AllInPlace(nodes, m, ns, at, order) && k < |ns| && ParentAddr(ns, at, k) != 0
    ensures ns[k].parent < k && at[k] in nodes && nodes[at[k]].name == ns[k].name && at[ns[k].parent] in nodes
    ensures nodes[at[ns[k].parent]].parent == ParentAddr(ns, at, ns[k].parent)
    ensures |PathOf(ns, k)| == |PathOf(ns, ns[k].parent)| + |ns[k].name| + 1
  {
    KidsBelow(ns, k);
    assert InPlace(nodes, m, ns, at, order, k) && InPlace(nodes, m, ns, at, order, ns[k].parent);
  }

  /** Only the root has no parent address. */
  lemma {:induction false} PathEnds(ns: seq<DtNode>, at: seq<Addr>, k: nat)
    requires Inv(ns) && |ns| == |at| && AllApart(at) && k < |ns|
    ensures ParentAddr(ns, at, k) == 0 <==> k == 0
  {
    KidsBelow(ns, k);
    assert k > 0 ==> NodeOk(at, ns[k].parent);
  }

  lemma {:induction false} OpeningParts(name: Bytes, props: seq<Prop>, off: Offsets, done: Bytes)
    ensures done + BE32(BEGIN_NODE) + Padded(name + [0]) + SerProps(props, off) == done + Opening(name, props, off)
    ensures |Opening(name, props, off)| == 4 + Up4(|name| + 1) + |SerProps(props, off)|
  {
  }

  lemma {:induction false} PropsFirst(qs: seq<Prop>, off: Offsets)
    requires qs != []
    ensures SerProps(qs, off) == SerProp(qs[0], off) + SerProps(qs[1..], off)
  {
  }

  lemma {:induction false} BytesJoin(a: Bytes, b: Bytes, c: Bytes)
    ensures a + (b + c) == a + b + c
  {
  }

  lemma {:induction false} PropsSplit(qs: seq<Prop>, i: nat, off: Offsets, written: Bytes)
    requires i < |qs| && written + SerProps(qs[i..], off) == SerProps(qs, off)
    ensures written + SerProp(qs[i], off) + SerProps(qs[i + 1..], off) == SerProps(qs, off)
  {
    var here, more := qs[i..], qs[i + 1..];
    assert here != [] && here[0] == qs[i] && here[1..] == more;
    PropsFirst(here, off);
    BytesJoin(written, SerProp(qs[i], off), SerProps(more, off));
  }

  lemma {:induction false} RootAlone(ns: seq<DtNode>, off: Offsets)
    requires Inv(ns)
    ensures [] + Todo(ns, Entering(0), off) == Structure(TreeOf(ns, 0), off)
  {
  }

  /** The null pointer is found exactly behind the last child. */
  lemma {:induction false} KidNull(ns: seq<DtNode>, at: seq<Addr>, i: nat, j: nat)
    requires Inv(ns) && |ns| == |at| && AllApart(at) && i < |ns| && j <= |ns[i].kids|
    ensures At(AddrsOf(at, ns[i].kids), j) == 0 <==> j == |ns[i].kids|
  {
    assert j < |ns[i].kids| ==> KidOk(ns, i, j) && NodeOk(at, ns[i].kids[j]);
  }

  lemma {:induction false} FinishedAtNull(ns: seq<DtNode>, at: seq<Addr>, w: Walk, node: Addr, previous: Addr)
    requires |ns| == |at| && AllApart(at) && Pointers(ns, at, w, node, previous) && node == 0
    ensures w == Finished
  {
    assert !w.Finished? ==> NodeOk(at, w.i);
  }
}
