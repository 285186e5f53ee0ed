/** A reader of flattened device trees, written from sections 5.2 to 5.5 of the Devicetree
    Specification, and the proof that it undoes what the bootloader writes. The reader takes its token
    values and its padding from the specification, not from the writer. */
module DtParse {
  import opened Basics
  import opened Buffers
  import opened DtSpec

  datatype Parsed<T> = Fail | Ok(value: T, next: nat)

  function BigEndian(a: nat, b: nat, c: nat, d: nat): nat {
    a * 0x1000000 + b * 0x10000 + c * 0x100 + d
  }

  /** The big-endian word at `pos`. */
  function Word(b: Bytes, pos: nat): Option<nat> {
    if pos + 4 <= |b| then Some(BigEndian(b[pos], b[pos + 1], b[pos + 2], b[pos + 3])) else None
  }

  /** The position of the first NUL at or after `pos`, or the end. */
  function NulFrom(b: Bytes, pos: nat): (e: nat)
    requires pos <= |b|
    ensures pos <= e <= |b| && (e < |b| ==> b[e] == 0)
    decreases |b| - pos
  {
    if pos == |b| || b[pos] == 0 then pos else NulFrom(b, pos + 1)
  }

  /** The NUL-terminated string at `pos`. */
  function StringAt(b: Bytes, pos: nat): Option<Bytes> {
    if pos < |b| && NulFrom(b, pos) < |b| then Some(b[pos..NulFrom(b, pos)]) else None
  }

  /** The position of the next token that is not FDT_NOP, which is 4. */
  function SkipNops(b: Bytes, pos: nat): (p: nat)
    ensures pos <= p
    decreases |b| - pos
  {
    if Word(b, pos) == Some(4) then SkipNops(b, pos + 4) else pos
  }

  /** Section 5.4 pads names and values with zeros to four bytes. */
  function WordBoundary(n: nat): nat {
    (n + 3) / 4 * 4
  }

  /** FDT_PROP: the length, the offset of the name, and the value, padded to a word boundary. */
  function ReadProp(b: Bytes, strings: Bytes, pos: nat): (r: Parsed<Prop>)
    ensures r.Ok? ==> pos < r.next <= |b|
  {
    match (Word(b, pos + 4), Word(b, pos + 8))
    case (Some(length), Some(nameOffset)) =>
      var name := StringAt(strings, nameOffset);
      if name.None? || pos + 12 + WordBoundary(length) > |b| then Fail
      else Ok(Prop(name.value, b[pos + 12..pos + 12 + length]), pos + 12 + WordBoundary(length))
    case _ => Fail
  }

  /** Properties as long as there are tokens FDT_PROP, which is 3. */
  function ParseProps(b: Bytes, strings: Bytes, pos: nat): (r: Parsed<seq<Prop>>)
    ensures r.Ok? ==> pos <= r.next
    decreases |b| - pos
  {
    var p := SkipNops(b, pos);
    if Word(b, p) != Some(3) then Ok([], p) else
    match ReadProp(b, strings, p)
    case Fail => Fail
    case Ok(first, q) =>
      (match ParseProps(b, strings, q)
       case Fail => Fail
       case Ok(rest, next) => Ok([first] + rest, next))
  }

  /** FDT_BEGIN_NODE, which is 1: the name, NUL-terminated and padded to a word boundary. */
  function ReadBegin(b: Bytes, pos: nat): (r: Parsed<Bytes>)
    ensures r.Ok? ==> pos < r.next
  {
    if Word(b, pos) != Some(1) then Fail else
    match StringAt(b, pos + 4)
    case None => Fail
    case Some(name) => Ok(name, AfterName(pos, |name|))
  }

  /** The first word boundary behind the name of a node. */
  function AfterName(pos: nat, length: nat): (r: nat)
    ensures pos < r
  {
    WordBoundary(pos + 4 + length + 1)
  }

  /** A node up to its FDT_END_NODE, which is 2. */
  function ParseNode(b: Bytes, strings: Bytes, pos: nat): (r: Parsed<Tree>)
    ensures r.Ok? ==> pos < r.next <= |b|
    decreases |b| - pos, 1
  {
    match ReadBegin(b, pos)
    case Fail => Fail
    case Ok(name, p) =>
      (match ParseProps(b, strings, p)
       case Fail => Fail
       case Ok(props, q) =>
         (match ParseForest(b, strings, q)
          case Fail => Fail
          case Ok(kids, r) =>
            if Word(b, r) != Some(2) then Fail else Ok(Tree(name, props, kids), r + 4)))
  }

  function ParseForest(b: Bytes, strings: Bytes, pos: nat): (r: Parsed<Forest>)
    ensures r.Ok? ==> pos <= r.next
    decreases |b| - pos, 2
  {
    var p := SkipNops(b, pos);
    if Word(b, p) != Some(1) then Ok(Nil, p) else
    match ParseNode(b, strings, p)
    case Fail => Fail
    case Ok(first, q) =>
      (match ParseForest(b, strings, q)
       case Fail => Fail
       case Ok(rest, next) => Ok(Cons(first, rest), next))
  }

  /** The structure block: one node, and FDT_END after it, which is 9. */
  function ParseStructure(b: Bytes, strings: Bytes): Option<Tree> {
    match ParseNode(b, strings, SkipNops(b, 0))
    case Fail => None
    case Ok(t, next) => if Word(b, SkipNops(b, next)) == Some(9) then Some(t) else None
  }

  // ----- what the reader meets -----

  /** In a block that starts on a word boundary, padding can be counted from any word boundary. */
  lemma {:induction false} AfterNameIs(pos: nat, length: nat)
    requires Quad(pos)
    ensures AfterName(pos, length) == pos + 4 + Up4(length + 1)
  {
  }

  lemma {:induction false} BigEndianIs(x: nat)
    requires x < WORD32
    ensures BigEndian(BE32(x)[0], BE32(x)[1], BE32(x)[2], BE32(x)[3]) == x
  {
    assert x / 0x1000000 < 256;
    assert x / 0x10000 == x / 0x1000000 * 256 + x / 0x10000 % 256;
    assert x / 0x100 == x / 0x10000 * 256 + x / 0x100 % 256;
  }

  lemma {:induction false} OccursWord(b: Bytes, pos: nat, x: nat)
    requires Occurs(b, pos, BE32(x)) && x < WORD32
    ensures Word(b, pos) == Some(x)
  {
    var s := b[pos..pos + 4];
    assert s[0] == b[pos] && s[1] == b[pos + 1] && s[2] == b[pos + 2] && s[3] == b[pos + 3];
    BigEndianIs(x);
  }

  lemma {:induction false} NulAfter(b: Bytes, pos: nat, s: Bytes)
    requires Occurs(b, pos, s + [0]) && CString(s)
    ensures NulFrom(b, pos) == pos + |s|
    decreases |s|
  {
    OccursSplit(b, pos, s, [0]);
    assert b[pos + |s|] == b[pos + |s|..pos + |s| + 1][0];
    if s != [] {
      assert b[pos] == b[pos..pos + |s|][0];
      assert s + [0] == [s[0]] + (s[1..] + [0]);
      OccursSplit(b, pos, [s[0]], s[1..] + [0]);
      NulAfter(b, pos + 1, s[1..]);
    }
  }

  lemma {:induction false} StringOccurs(b: Bytes, pos: nat, s: Bytes)
    requires Occurs(b, pos, s + [0]) && CString(s)
    ensures StringAt(b, pos) == Some(s)
  {
    NulAfter(b, pos, s);
    OccursSplit(b, pos, s, [0]);
  }

  lemma {:induction false} OccursPadded(b: Bytes, pos: nat, s: Bytes)
    requires Occurs(b, pos, Padded(s))
    ensures Occurs(b, pos, s)
  {
    OccursSplit(b, pos, s, Zeros(Up4(|s|) - |s|));
  }

  // ----- reading back -----

  /** The reader finds `name` in the strings block where the structure block says it is. */
  predicate Resolves(strings: Bytes, off: Offsets, name: Bytes) {
    OffsetOf(off, name) < WORD32 && StringAt(strings, OffsetOf(off, name)) == Some(name)
  }

  predicate PropOk(p: Prop, off: Offsets, strings: Bytes) {
    Resolves(strings, off, p.name) && |p.data| < WORD32
  }

  predicate PropsOk(ps: seq<Prop>, off: Offsets, strings: Bytes) {
    forall i | 0 <= i < |ps| :: PropOk(ps[i], off, strings)
  }

  predicate TreeOk(t: Tree, off: Offsets, strings: Bytes) {
    CString(t.name) && PropsOk(t.props, off, strings) && ForestOk(t.kids, off, strings)
  }

  predicate ForestOk(f: Forest, off: Offsets, strings: Bytes) {
    f.Cons? ==> TreeOk(f.first, off, strings) && ForestOk(f.rest, off, strings)
  }

  /** A token that ends a list of properties. */
  predicate Stops(b: Bytes, pos: nat) {
    Word(b, pos) == Some(BEGIN_NODE) || Word(b, pos) == Some(END_NODE)
  }

  lemma {:induction false} PropRead(b: Bytes, strings: Bytes, pos: nat, p: Prop, off: Offsets, next: nat)
    requires Occurs(b, pos, SerProp(p, off)) && PropOk(p, off, strings) && next == pos + 12 + Up4(|p.data|)
    ensures Word(b, pos) == Some(PROP) && ReadProp(b, strings, pos) == Ok(p, next)
  {
    var length, nameOffset := |p.data|, OffsetOf(off, p.name);
    var a, c, d := BE32(PROP), BE32(length), BE32(nameOffset);
    OccursSplitAt(b, pos, a + c + d, Padded(p.data), pos + 12);
    OccursSplitAt(b, pos, a + c, d, pos + 8);
    OccursSplitAt(b, pos, a, c, pos + 4);
    OccursWord(b, pos, PROP);
    OccursWord(b, pos + 4, length);
    OccursWord(b, pos + 8, nameOffset);
    PropAssembled(b, strings, pos, p, length, nameOffset, pos + 12, next);
  }

  lemma {:induction false} PropAssembled(b: Bytes, strings: Bytes, pos: nat, p: Prop, length: nat, nameOffset: nat,
                                         data: nat, next: nat)
    requires Word(b, pos + 4) == Some(length) && Word(b, pos + 8) == Some(nameOffset)
    requires StringAt(strings, nameOffset) == Some(p.name) && data == pos + 12 && length == |p.data|
    requires Occurs(b, data, Padded(p.data)) && next == data + Up4(length)
    ensures ReadProp(b, strings, pos) == Ok(p, next)
  {
    OccursPadded(b, data, p.data);
  }

  /** One property, then the rest. */
  lemma {:induction false} PropsStep(b: Bytes, strings: Bytes, pos: nat, p: Prop, mid: nat, rest: seq<Prop>, end: nat)
    requires Word(b, pos) == Some(PROP) && ReadProp(b, strings, pos) == Ok(p, mid)
    requires ParseProps(b, strings, mid) == Ok(rest, end)
    ensures ParseProps(b, strings, pos) == Ok([p] + rest, end)
  {
    assert SkipNops(b, pos) == pos;
  }

  lemma {:induction false} PropsEnd(b: Bytes, strings: Bytes, pos: nat)
    requires Stops(b, pos)
    ensures ParseProps(b, strings, pos) == Ok([], pos)
  {
    assert SkipNops(b, pos) == pos;
  }

  lemma {:induction false} PropsRead(b: Bytes, strings: Bytes, pos: nat, ps: seq<Prop>, off: Offsets, end: nat)
    requires Occurs(b, pos, SerProps(ps, off)) && PropsOk(ps, off, strings)
    requires end == pos + |SerProps(ps, off)| && Stops(b, end)
    ensures ParseProps(b, strings, pos) == Ok(ps, end)
    decreases |ps|
  {
    if ps == [] {
      PropsEnd(b, strings, pos);
    } else {
      var mid := pos + 12 + Up4(|ps[0].data|);
      assert PropOk(ps[0], off, strings);
      OccursSplitAt(b, pos, SerProp(ps[0], off), SerProps(ps[1..], off), mid);
      PropsRead(b, strings, mid, ps[1..], off, end);
      PropRead(b, strings, pos, ps[0], off, mid);
      PropsStep(b, strings, pos, ps[0], mid, ps[1..], end);
      assert ps == [ps[0]] + ps[1..];
    }
  }

  lemma {:induction false} NameRead(b: Bytes, pos: nat, name: Bytes, props: seq<Prop>, off: Offsets, mid: nat)
    requires Occurs(b, pos, Opening(name, props, off)) && Quad(pos) && CString(name)
    requires mid == pos + 4 + Up4(|name| + 1)
    ensures ReadBegin(b, pos) == Ok(name, mid) && Occurs(b, mid, SerProps(props, off))
  {
    AfterNameIs(pos, |name|);
    var head, padded := BE32(BEGIN_NODE), Padded(name + [0]);
    OccursSplitAt(b, pos, head + padded, SerProps(props, off), mid);
    OccursSplitAt(b, pos, head, padded, pos + 4);
    OccursWord(b, pos, BEGIN_NODE);
    OccursPadded(b, pos + 4, name + [0]);
    StringOccurs(b, pos + 4, name);
  }

  lemma {:induction false} StartsNode(b: Bytes, pos: nat, t: Tree, off: Offsets)
    requires Occurs(b, pos, Ser(t, off))
    ensures Word(b, pos) == Some(BEGIN_NODE)
  {
    var head, name, props := BE32(BEGIN_NODE), Padded(t.name + [0]), SerProps(t.props, off);
    OccursSplit(b, pos, head + name + props + SerForest(t.kids, off), BE32(END_NODE));
    OccursSplit(b, pos, head + name + props, SerForest(t.kids, off));
    OccursSplit(b, pos, head + name, props);
    OccursSplit(b, pos, head, name);
    OccursWord(b, pos, BEGIN_NODE);
  }

  lemma {:induction false} KidsStop(b: Bytes, pos: nat, f: Forest, off: Offsets)
    requires Occurs(b, pos, SerForest(f, off) + BE32(END_NODE))
    ensures Stops(b, pos)
  {
    OccursSplit(b, pos, SerForest(f, off), BE32(END_NODE));
    if f.Nil? {
      OccursWord(b, pos, END_NODE);
    } else {
      OccursSplit(b, pos, Ser(f.first, off), SerForest(f.rest, off));
      StartsNode(b, pos, f.first, off);
    }
  }

  /** Where the three parts of a node are. */
  lemma {:induction false} NodeParts(b: Bytes, pos: nat, t: Tree, off: Offsets, kidsAt: nat, endAt: nat)
    requires Occurs(b, pos, Ser(t, off))
    requires kidsAt == pos + |Opening(t.name, t.props, off)| && endAt == kidsAt + |SerForest(t.kids, off)|
    ensures Occurs(b, pos, Opening(t.name, t.props, off)) && Occurs(b, kidsAt, SerForest(t.kids, off))
    ensures Stops(b, kidsAt) && Word(b, endAt) == Some(END_NODE) && endAt + 4 == pos + |Ser(t, off)|
  {
    var opening, kids := Opening(t.name, t.props, off), SerForest(t.kids, off);
    assert Ser(t, off) == opening + (kids + BE32(END_NODE));
    OccursSplit(b, pos, opening, kids + BE32(END_NODE));
    KidsStop(b, kidsAt, t.kids, off);
    OccursSplit(b, kidsAt, kids, BE32(END_NODE));
    OccursWord(b, endAt, END_NODE);
  }

  lemma {:induction false} OpeningRead(b: Bytes, strings: Bytes, pos: nat, t: Tree, off: Offsets, mid: nat, kidsAt: nat)
    requires Occurs(b, pos, Opening(t.name, t.props, off)) && Quad(pos)
    requires CString(t.name) && PropsOk(t.props, off, strings)
    requires mid == pos + 4 + Up4(|t.name| + 1)
    requires kidsAt == pos + |Opening(t.name, t.props, off)| && Stops(b, kidsAt)
    ensures ReadBegin(b, pos) == Ok(t.name, mid)
    ensures ParseProps(b, strings, mid) == Ok(t.props, kidsAt)
  {
    NameRead(b, pos, t.name, t.props, off, mid);
    PropsRead(b, strings, mid, t.props, off, kidsAt);
  }

  lemma {:induction false} NodeAssembled(b: Bytes, strings: Bytes, pos: nat, t: Tree, mid: nat, kidsAt: nat, endAt: nat, end: nat)
    requires ReadBegin(b, pos) == Ok(t.name, mid)
    requires ParseProps(b, strings, mid) == Ok(t.props, kidsAt)
    requires ParseForest(b, strings, kidsAt) == Ok(t.kids, endAt) && Word(b, endAt) == Some(END_NODE)
    requires end == endAt + 4
    ensures ParseNode(b, strings, pos) == Ok(t, end)
  {
  }

  lemma {:induction false} ForestAssembled(b: Bytes, strings: Bytes, pos: nat, f: Forest, mid: nat, end: nat)
    requires f.Cons? && Word(b, pos) == Some(BEGIN_NODE)
    requires ParseNode(b, strings, pos) == Ok(f.first, mid) && ParseForest(b, strings, mid) == Ok(f.rest, end)
    ensures ParseForest(b, strings, pos) == Ok(f, end)
  {
    assert SkipNops(b, pos) == pos;
  }

  /** Reading what was written for a tree gives the tree, and stops right behind it. */
  lemma {:induction false} NodeRoundTrip(b: Bytes, strings: Bytes, pos: nat, t: Tree, off: Offsets, end: nat)
    requires Occurs(b, pos, Ser(t, off)) && Quad(pos) && TreeOk(t, off, strings) && end == pos + |Ser(t, off)|
    ensures ParseNode(b, strings, pos) == Ok(t, end)
    decreases t
  {
    var kidsAt := pos + |Opening(t.name, t.props, off)|;
    var endAt := kidsAt + |SerForest(t.kids, off)|;
    NodeParts(b, pos, t, off, kidsAt, endAt);
    var mid := pos + 4 + Up4(|t.name| + 1);
    OpeningRead(b, strings, pos, t, off, mid, kidsAt);
    QuadSum(pos, |Opening(t.name, t.props, off)|, kidsAt);
    ForestRoundTrip(b, strings, kidsAt, t.kids, off, endAt);
    NodeAssembled(b, strings, pos, t, mid, kidsAt, endAt, end);
  }

  lemma {:induction false} ForestRoundTrip(b: Bytes, strings: Bytes, pos: nat, f: Forest, off: Offsets, end: nat)
    requires Occurs(b, pos, SerForest(f, off)) && Quad(pos) && ForestOk(f, off, strings)
    requires end == pos + |SerForest(f, off)| && Word(b, end) == Some(END_NODE)
    ensures ParseForest(b, strings, pos) == Ok(f, end)
    decreases f
  {
    if f.Cons? {
      var mid := pos + |Ser(f.first, off)|;
      OccursSplit(b, pos, Ser(f.first, off), SerForest(f.rest, off));
      StartsNode(b, pos, f.first, off);
      NodeRoundTrip(b, strings, pos, f.first, off, mid);
      QuadSum(pos, |Ser(f.first, off)|, mid);
      ForestRoundTrip(b, strings, mid, f.rest, off, end);
      ForestAssembled(b, strings, pos, f, mid, end);
    } else {
      assert SkipNops(b, pos) == pos;
    }
  }

  lemma {:induction false} StructureRoundTrip(strings: Bytes, t: Tree, off: Offsets)
    requires TreeOk(t, off, strings)
    ensures ParseStructure(Structure(t, off), strings) == Some(t)
  {
    var b, node := Structure(t, off), Ser(t, off);
    var end := |node|;
    assert Occurs(b, 0, node + BE32(END));
    OccursSplitAt(b, 0, node, BE32(END), end);
    StartsNode(b, 0, t, off);
    NodeRoundTrip(b, strings, 0, t, off, end);
    OccursWord(b, end, END);
    StructureAssembled(b, strings, t, end);
  }

  lemma {:induction false} StructureAssembled(b: Bytes, strings: Bytes, t: Tree, end: nat)
    requires Word(b, 0) == Some(BEGIN_NODE) && ParseNode(b, strings, 0) == Ok(t, end) && Word(b, end) == Some(END)
    ensures ParseStructure(b, strings) == Some(t)
  {
    assert SkipNops(b, 0) == 0 && SkipNops(b, end) == end;
  }
}
