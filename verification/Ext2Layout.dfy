/** The ext2 structures in the order in which they are on the disk, the places of the blocks of a file, and
    what paths mean, stated without the decoders and searches of Ext2Spec. */
module Ext2Layout {
  import opened Basics
  import opened Buffers
  import opened Ext2Spec

  // ----- numbers -----

  /** Two bytes, the lower one first. */
  function LE16(x: nat): (r: Bytes)
    ensures |r| == 2
  {
    [x % 0x100] + [x / 0x100 % 0x100]
  }

  /** Four bytes, the lowest one first. */
  function LE32(x: nat): (r: Bytes)
    ensures |r| == 4
  {
    LE16(x) + LE16(x / 0x1_0000)
  }

  /** The words one behind the other. */
  function Words(xs: seq<nat>): (r: Bytes)
    ensures |r| == 4 * |xs|
  {
    if xs == [] then [] else LE32(xs[0]) + Words(xs[1..])
  }

  lemma {:induction false} ByteOccurs(part: Bytes, pos: nat, x: Byte)
    requires Occurs(part, pos, [x])
    ensures ByteAt(part, pos) == x
  {
    assert part[pos..pos + 1][0] == x;
  }

  lemma {:induction false} Reads16(part: Bytes, pos: nat, x: nat)
    requires Occurs(part, pos, LE16(x))
    ensures x < 0x1_0000 ==> U16(part, pos) == x
    ensures U16(part, pos) == x % 0x1_0000
  {
    OccursSplit(part, pos, [x % 0x100], [x / 0x100 % 0x100]);
    ByteOccurs(part, pos, x % 0x100);
    ByteOccurs(part, pos + 1, x / 0x100 % 0x100);
  }

  lemma {:induction false} Reads32(part: Bytes, pos: nat, x: nat)
    requires Occurs(part, pos, LE32(x)) && x < WORD32
    ensures U32(part, pos) == x
  {
    var high := x / 0x1_0000;
    OccursSplit(part, pos, LE16(x), LE16(high));
    Reads16(part, pos, x);
    Reads16(part, pos + 2, high);
  }

  lemma {:induction false} ReadsWord(part: Bytes, pos: nat, xs: seq<nat>, k: nat, place: nat)
    requires Occurs(part, pos, Words(xs)) && k < |xs| && xs[k] < WORD32 && place == pos + 4 * k
    ensures U32(part, place) == xs[k]
    decreases k
  {
    var next := pos + 4;
    OccursSplitAt(part, pos, LE32(xs[0]), Words(xs[1..]), next);
    if k == 0 {
      Reads32(part, pos, xs[0]);
    } else {
      ReadsWord(part, next, xs[1..], k - 1, place);
    }
  }

  // ----- inodes -----

  /** The 128 bytes of an inode: mode and owner, size, four times, group and links, sectors, flags and a word of the
      system, twelve direct and three indirect block pointers, generation and attributes, the upper half of the
      size, and the rest. */
  function EncodeInode(inode: Inode, owner: nat, times: Bytes, attributes: Bytes, rest: Bytes): Bytes {
    LE16(inode.mode) + LE16(owner) + LE32(inode.size) + times + Words(inode.direct) + Words(inode.indirect)
    + attributes + LE32(inode.sizeUpper) + rest
  }

  predicate FieldsFit(inode: Inode) {
    InodeOk(inode) && inode.mode < 0x1_0000 && inode.size < WORD32 && inode.sizeUpper < WORD32
  }

  /** An inode is read back from its bytes, whatever is in the fields that are not used. */
  lemma {:induction false} InodeRoundTrip(part: Bytes, pos: nat, inode: Inode, owner: nat, times: Bytes,
                                          attributes: Bytes, rest: Bytes)
    requires FieldsFit(inode) && |times| == 32 && |attributes| == 8
    requires Occurs(part, pos, EncodeInode(inode, owner, times, attributes, rest))
    ensures InodeAt(part, pos) == inode
  {
    var a, b, c := LE16(inode.mode), LE16(owner), LE32(inode.size);
    var d, e, f := Words(inode.direct), Words(inode.indirect), LE32(inode.sizeUpper);
    OccursSplitAt(part, pos, a + b + c + times + d + e + attributes + f, rest, pos + 112);
    OccursSplitAt(part, pos, a + b + c + times + d + e + attributes, f, pos + 108);
    OccursSplitAt(part, pos, a + b + c + times + d + e, attributes, pos + 100);
    OccursSplitAt(part, pos, a + b + c + times + d, e, pos + 88);
    OccursSplitAt(part, pos, a + b + c + times, d, pos + 40);
    OccursSplitAt(part, pos, a + b + c, times, pos + 8);
    OccursSplitAt(part, pos, a + b, c, pos + 4);
    OccursSplitAt(part, pos, a, b, pos + 2);
    Reads16(part, pos, inode.mode);
    Reads32(part, pos + 4, inode.size);
    Reads32(part, pos + 108, inode.sizeUpper);
    PointersRead(part, pos + 40, inode.direct, 12);
    PointersRead(part, pos + 88, inode.indirect, 3);
  }

  lemma {:induction false} PointersRead(part: Bytes, pos: nat, xs: seq<nat>, n: nat)
    requires Occurs(part, pos, Words(xs)) && n == |xs| && forall k | 0 <= k < n :: xs[k] < WORD32
    ensures Pointers(part, pos, n) == xs
  {
    forall k | 0 <= k < n ensures Pointers(part, pos, n)[k] == xs[k] {
      ReadsWord(part, pos, xs, k, pos + 4 * k);
    }
  }

  /** Inode 1 is the first of group 0: in its table, which the third word of the 32-byte group descriptor names, each
      group has the next `groupInodes` inodes one behind the other. */
  lemma {:induction false} InodesInOrder(part: Bytes, g: Geometry, group: nat, index: nat, table: nat, number: nat)
    requires index < g.groupInodes && number == 1 + group * g.groupInodes + index
    requires table == U32(part, g.descriptors + group * 32 + 8)
    ensures InodePlace(part, g, number) == BaseOf(table, g.shift) + index * Pow2(g.inodeShift)
  {
    var i := InodeIndex(number);
    assert i == group * g.groupInodes + index;
    QuotientIs(i, g.groupInodes, group, index);
  }

  // ----- the blocks of a file -----

  /** The little-endian word at `pos`; block 0 holds no pointers. */
  function Word(part: Bytes, block: nat, size: nat, index: nat): nat {
    if block == 0 then 0 else
    var pos := block * size + 4 * index;
    ByteAt(part, pos) + ByteAt(part, pos + 1) * 0x100 + ByteAt(part, pos + 2) * 0x1_0000 + ByteAt(part, pos + 3) * 0x100_0000
  }

  lemma {:induction false} WordIs(part: Bytes, g: Geometry, block: nat, size: nat, index: nat)
    requires 10 <= g.shift <= 12 && !g.narrow && size == BlockSize(g.shift) && block != 0
    ensures Word(part, block, size, index) == PointerAt(part, g, block, index)
  {
  }

  predicate Sizes(shift: nat, size: nat, fan: nat) {
    (shift == 10 && size == 1024 && fan == 256) || (shift == 11 && size == 2048 && fan == 512) ||
    (shift == 12 && size == 4096 && fan == 1024)
  }

  /** The first twelve blocks of a file are the direct ones. */
  lemma {:induction false} DirectBlock(part: Bytes, g: Geometry, inode: Inode, b: nat)
    requires InodeOk(inode) && b < 12
    ensures VolumeBlock(part, g, inode, b) == inode.direct[b]
  {
  }

  lemma {:induction false} SlotStep(part: Bytes, g: Geometry, pointer: nat, b: nat, levels: nat, size: nat, q: nat, r: nat)
    requires 10 <= g.shift <= 12 && !g.narrow && size == BlockSize(g.shift) && 0 < levels <= 3
    requires q == Quotient(b, levels - 1, g.shift) && r == Remainder(b, levels - 1, g.shift)
    ensures Slot(part, g, pointer, b, levels) == Slot(part, g, Word(part, pointer, size, q), r, levels - 1)
  {
    if pointer != 0 {
      WordIs(part, g, pointer, size, q);
    }
  }

  /** The next ones are in the order of the pointers in the first indirect block. */
  lemma {:induction false} SingleIndirect(part: Bytes, g: Geometry, inode: Inode, size: nat, fan: nat, i: nat, b: nat)
    requires InodeOk(inode) && Sizes(g.shift, size, fan) && !g.narrow
    requires i < fan && b == 12 + i
    ensures VolumeBlock(part, g, inode, b) == Word(part, inode.indirect[0], size, i)
  {
    SlotStep(part, g, inode.indirect[0], i, 1, size, i, 0);
  }

  lemma {:induction false} TwoDown(part: Bytes, g: Geometry, pointer: nat, size: nat, fan: nat, i: nat, j: nat, c: nat)
    requires Sizes(g.shift, size, fan) && !g.narrow && i < fan && j < fan && c == i * fan + j
    ensures Slot(part, g, pointer, c, 2) == Word(part, Word(part, pointer, size, i), size, j)
  {
    TwoParts(g.shift, size, fan, i, j, c);
    var first := Word(part, pointer, size, i);
    SlotStep(part, g, pointer, c, 2, size, i, j);
    SlotStep(part, g, first, j, 1, size, j, 0);
  }

  /** Behind them those that two pointers lead to, the second pointer counting fastest. */
  lemma {:induction false} DoubleIndirect(part: Bytes, g: Geometry, inode: Inode, size: nat, fan: nat, i: nat, j: nat, b: nat)
    requires InodeOk(inode) && Sizes(g.shift, size, fan) && !g.narrow
    requires i < fan && j < fan && b == 12 + fan + i * fan + j
    ensures VolumeBlock(part, g, inode, b) == Word(part, Word(part, inode.indirect[1], size, i), size, j)
  {
    var c := b - 12 - fan;
    TwoParts(g.shift, size, fan, i, j, c);
    TwoDown(part, g, inode.indirect[1], size, fan, i, j, c);
  }

  lemma {:induction false} TwoParts(shift: nat, size: nat, fan: nat, i: nat, j: nat, c: nat)
    requires Sizes(shift, size, fan) && i < fan && j < fan && c == i * fan + j
    ensures Quotient(c, 1, shift) == i && Remainder(c, 1, shift) == j && c < fan * fan
    ensures LevelsOf(12 + fan + c, shift) == 2 && FirstOf(2, shift) == 12 + fan
  {
    if shift == 10 {
      assert c == i * 256 + j;
    } else if shift == 11 {
      assert c == i * 512 + j;
    } else {
      assert c == i * 1024 + j;
    }
  }

  /** And last those that three pointers lead to. */
  lemma {:induction false} TripleIndirect(part: Bytes, g: Geometry, inode: Inode, size: nat, fan: nat, square: nat,
                                          i: nat, j: nat, k: nat, last: nat, c: nat, b: nat)
    requires InodeOk(inode) && Sizes(g.shift, size, fan) && !g.narrow && square == fan * fan
    requires i < fan && j < fan && k < fan && last == j * fan + k && c == i * square + last && b == 12 + fan + square + c
    ensures VolumeBlock(part, g, inode, b) ==
            Word(part, Word(part, Word(part, inode.indirect[2], size, i), size, j), size, k)
  {
    TwoParts(g.shift, size, fan, j, k, last);
    ThreeParts(g.shift, size, fan, square, i, last, c, b);
    ThreeDown(part, g, inode.indirect[2], size, fan, i, j, k, c, last);
    assert VolumeBlock(part, g, inode, b) == Slot(part, g, inode.indirect[2], c, 3);
  }

  lemma {:induction false} ThreeParts(shift: nat, size: nat, fan: nat, square: nat, i: nat, d: nat, c: nat, b: nat)
    requires Sizes(shift, size, fan) && square == fan * fan && i < fan && d < square && c == i * square + d
    requires b == 12 + fan + square + c
    ensures Quotient(c, 2, shift) == i && Remainder(c, 2, shift) == d
    ensures LevelsOf(b, shift) == 3 && FirstOf(3, shift) + c == b
  {
    if shift == 10 {
      assert c == i * 0x1_0000 + d;
    } else if shift == 11 {
      assert c == i * 0x4_0000 + d;
    } else {
      assert c == i * 0x10_0000 + d;
    }
  }

  lemma {:induction false} ThreeDown(part: Bytes, g: Geometry, pointer: nat, size: nat, fan: nat, i: nat, j: nat, k: nat,
                                     c: nat, d: nat)
    requires Sizes(g.shift, size, fan) && !g.narrow && j < fan && k < fan && d == j * fan + k
    requires Quotient(c, 2, g.shift) == i && Remainder(c, 2, g.shift) == d
    ensures Slot(part, g, pointer, c, 3) == Word(part, Word(part, Word(part, pointer, size, i), size, j), size, k)
  {
    SlotStep(part, g, pointer, c, 3, size, i, d);
    TwoDown(part, g, Word(part, pointer, size, i), size, fan, j, k, d);
  }

  /** More blocks a file cannot have. */
  lemma {:induction false} BeyondMap(shift: nat, size: nat, fan: nat, b: nat)
    requires Sizes(shift, size, fan)
    ensures LevelsOf(b, shift) == 4 <==> b >= 12 + fan + fan * fan + fan * (fan * fan)
  {
  }

  /** The byte of a file at `pos`: in the block of that number, at the place of the remainder. */
  lemma {:induction false} FileByteIs(part: Bytes, g: Geometry, inode: Inode, pos: nat, size: nat, fan: nat)
    requires InodeOk(inode) && Sizes(g.shift, size, fan)
    ensures var block := VolumeBlock(part, g, inode, pos / size);
            FileByte(part, g, inode, pos) == if block == 0 then 0 else ByteAt(part, block * size + pos % size)
  {
  }

  lemma {:induction false} FileSlice(part: Bytes, g: Geometry, inode: Inode, pos: nat, count: nat, at: nat, start: nat, n: nat)
    requires InodeOk(inode) && at + n <= count && start == pos + at
    ensures FileBytes(part, g, inode, pos, count)[at..at + n] == FileBytes(part, g, inode, start, n)
  {
  }

  // ----- directories -----

  datatype Entry = Entry(inode: nat, kind: Byte, name: Bytes, padding: Bytes)

  predicate EntryFits(e: Entry) {
    e.inode < WORD32 && |e.name| < 256 && 8 + |e.name| + |e.padding| < 0x1_0000
  }

  /** Inode number, length of the record, length of the name, type, the name, and padding. */
  function EncodeEntry(e: Entry): (r: Bytes)
    requires EntryFits(e)
    ensures |r| == 8 + |e.name| + |e.padding|
  {
    LE32(e.inode) + LE16(8 + |e.name| + |e.padding|) + [|e.name|] + [e.kind] + e.name + e.padding
  }

  function EncodeEntries(es: seq<Entry>): Bytes
    requires forall i | 0 <= i < |es| :: EntryFits(es[i])
  {
    if es == [] then [] else EncodeEntry(es[0]) + EncodeEntries(es[1..])
  }

  /** The entry is in use and has the name. Without the type feature, the type byte must be zero. */
  predicate Named(e: Entry, typed: bool, name: Bytes) {
    e.inode != 0 && e.name == name && (typed || e.kind == 0)
  }

  /** What a search for `name` has to say: the number of the first entry with the name, or that there is none. */
  ghost predicate Found(es: seq<Entry>, typed: bool, name: Bytes, r: Option<nat>) {
    match r
    case None => forall i | 0 <= i < |es| :: !Named(es[i], typed, name)
    case Some(number) =>
      exists i :: 0 <= i < |es| && Named(es[i], typed, name) && es[i].inode == number &&
                  forall j | 0 <= j < i :: !Named(es[j], typed, name)
  }

  lemma {:induction false} EntryRead(head: Bytes, e: Entry)
    requires EntryFits(e) && head == LE32(e.inode) + LE16(8 + |e.name| + |e.padding|) + [|e.name|] + [e.kind]
    ensures U32(head, 0) == e.inode && U16(head, 4) == 8 + |e.name| + |e.padding|
    ensures head[6] == |e.name| && head[7] == e.kind
  {
    var a, b := LE32(e.inode), LE16(8 + |e.name| + |e.padding|);
    assert Occurs(head, 0, a + b + [|e.name|] + [e.kind]);
    OccursSplit(head, 0, a + b + [|e.name|], [e.kind]);
    OccursSplit(head, 0, a + b, [|e.name|]);
    OccursSplit(head, 0, a, b);
    Reads32(head, 0, e.inode);
    Reads16(head, 4, 8 + |e.name| + |e.padding|);
  }

  lemma {:induction false} RecordRead(part: Bytes, g: Geometry, dir: Inode, pos: nat, e: Entry, size: nat)
    requires InodeOk(dir) && EntryFits(e) && size == 8 + |e.name| + |e.padding|
    requires FileBytes(part, g, dir, pos, size) == EncodeEntry(e)
    ensures RecordAt(part, g, dir, pos) == Record(e.inode, size, |e.name|, e.kind, e.name)
  {
    var all, n := EncodeEntry(e), |e.name|;
    FileSlice(part, g, dir, pos, size, 0, pos, 8);
    FileSlice(part, g, dir, pos, size, 8, pos + 8, n);
    EntryRead(all[..8], e);
    assert all[8..8 + n] == e.name;
  }

  lemma {:induction false} FoundStep(es: seq<Entry>, typed: bool, name: Bytes, r: Option<nat>)
    requires es != [] && Found(es[1..], typed, name, r) && !Named(es[0], typed, name)
    ensures Found(es, typed, name, r)
  {
    var rest := es[1..];
    match r
    case None =>
      forall i | 0 <= i < |es| ensures !Named(es[i], typed, name) {
        assert i > 0 ==> es[i] == rest[i - 1];
      }
    case Some(number) =>
      var i :| 0 <= i < |rest| && Named(rest[i], typed, name) && rest[i].inode == number &&
               forall j | 0 <= j < i :: !Named(rest[j], typed, name);
      assert es[i + 1] == rest[i];
      forall j | 0 <= j < i + 1 ensures !Named(es[j], typed, name) {
        assert j > 0 ==> es[j] == rest[j - 1];
      }
  }

  lemma {:induction false} EntriesSplit(part: Bytes, g: Geometry, dir: Inode, pos: nat, es: seq<Entry>, count: nat, size: nat,
                                        next: nat, left: nat)
    requires InodeOk(dir) && es != [] && (forall i | 0 <= i < |es| :: EntryFits(es[i]))
    requires FileBytes(part, g, dir, pos, count) == EncodeEntries(es)
    requires size == 8 + |es[0].name| + |es[0].padding| && next == pos + size && count == size + left
    ensures FileBytes(part, g, dir, pos, size) == EncodeEntry(es[0])
    ensures FileBytes(part, g, dir, next, left) == EncodeEntries(es[1..])
  {
    var all := EncodeEntries(es);
    assert all[..size] == EncodeEntry(es[0]) && all[size..] == EncodeEntries(es[1..]);
    FileSlice(part, g, dir, pos, count, 0, pos, size);
    FileSlice(part, g, dir, pos, count, size, next, left);
  }

  /** One record, then the rest. */
  lemma {:induction false} RecordStep(part: Bytes, g: Geometry, dir: Inode, pos: nat, r: Record, next: nat, es: seq<Entry>,
                                      name: Bytes)
    requires InodeOk(dir) && r == RecordAt(part, g, dir, pos) && next == pos + r.size <= SizeOf(g, dir) && es != []
    requires r == Record(es[0].inode, r.size, |es[0].name|, es[0].kind, es[0].name) && r.size >= 8 + |es[0].name|
    requires WellFormed(part, g, dir, next)
    requires Found(es[1..], g.dirTypes, name, FirstMatch(g, Records(part, g, dir, next), name))
    ensures WellFormed(part, g, dir, pos) && Found(es, g.dirTypes, name, FirstMatch(g, Records(part, g, dir, pos), name))
  {
    var rest := Records(part, g, dir, next);
    var records := Records(part, g, dir, pos);
    assert records[0] == r && records[1..] == rest;
    if Named(es[0], g.dirTypes, name) {
      assert Found(es, g.dirTypes, name, Some(es[0].inode));
    } else {
      FoundStep(es, g.dirTypes, name, FirstMatch(g, rest, name));
    }
  }

  lemma {:induction false} FromEntry(part: Bytes, g: Geometry, dir: Inode, pos: nat, es: seq<Entry>, count: nat, name: Bytes)
    requires InodeOk(dir) && pos + count == SizeOf(g, dir)
    requires forall i | 0 <= i < |es| :: EntryFits(es[i])
    requires FileBytes(part, g, dir, pos, count) == EncodeEntries(es)
    ensures WellFormed(part, g, dir, pos) && Found(es, g.dirTypes, name, FirstMatch(g, Records(part, g, dir, pos), name))
    decreases |es|
  {
    if es != [] {
      var size := 8 + |es[0].name| + |es[0].padding|;
      var next, left := pos + size, count - size;
      EntriesSplit(part, g, dir, pos, es, count, size, next, left);
      RecordRead(part, g, dir, pos, es[0], size);
      FromEntry(part, g, dir, next, es[1..], left, name);
      RecordStep(part, g, dir, pos, RecordAt(part, g, dir, pos), next, es, name);
    }
  }

  /** A directory made of entries is well-formed, and a name in it leads to the first entry with that name. */
  lemma {:induction false} DirectoryRead(part: Bytes, g: Geometry, dir: Inode, es: seq<Entry>, name: Bytes)
    requires InodeOk(dir) && (forall i | 0 <= i < |es| :: EntryFits(es[i]))
    requires FileBytes(part, g, dir, 0, SizeOf(g, dir)) == EncodeEntries(es)
    ensures WellFormed(part, g, dir, 0) && Found(es, g.dirTypes, name, LookUp(part, g, dir, name))
  {
    FromEntry(part, g, dir, 0, es, SizeOf(g, dir), name);
  }

  // ----- what an inode is -----

  /** The upper four bits of the mode say what an inode is. */
  lemma {:induction false} TypesAre(inode: Inode)
    requires inode.mode < 0x1_0000
    ensures TypeOf(inode) == TYPE_DIR <==> 0x4000 <= inode.mode < 0x5000
    ensures TypeOf(inode) == TYPE_REG <==> 0x8000 <= inode.mode < 0x9000
    ensures TypeOf(inode) == TYPE_SYM <==> 0xa000 <= inode.mode < 0xb000
  {
  }

  /** A file with the feature for large files has 64 bits for its size, a directory only 32. */
  lemma {:induction false} SizeIs(g: Geometry, inode: Inode, total: nat)
    requires inode.size == total % 0x1_0000_0000 && inode.sizeUpper == total / 0x1_0000_0000
    ensures g.size64 && inode.mode / 0x1000 != 4 ==> SizeOf(g, inode) == total
    ensures !g.size64 || inode.mode / 0x1000 == 4 ==> SizeOf(g, inode) == inode.size
  {
  }

  // ----- paths -----

  /** A name without slashes. */
  predicate Simple(name: Bytes) {
    name != [] && forall i | 0 <= i < |name| :: name[i] != 47
  }

  lemma {:induction false} ComponentAll(name: Bytes)
    requires forall i | 0 <= i < |name| :: name[i] != 47
    ensures ComponentLength(name) == |name|
  {
    if name != [] {
      ComponentAll(name[1..]);
    }
  }

  lemma {:induction false} OneComponent(name: Bytes)
    requires Simple(name)
    ensures Components(name) == [name] && !NeedsDirectory(name)
  {
    ComponentAll(name);
    assert SkipSlashes(name) == name && name[|name|..] == [];
    assert Components([]) == [];
    assert name[..|name|] == name;
  }

  /** A name leads from a directory to the inode it has there, or where the text of a link leads from that directory,
      but not more than four links deep. From what is not a directory, or without such an entry, it leads nowhere. */
  lemma {:induction false} NameLeads(part: Bytes, g: Geometry, root: Inode, at: Inode, name: Bytes, depth: nat)
    requires InodeOk(root) && InodeOk(at) && g.groupInodes > 0 && depth < 5 && Simple(name)
    ensures Resolve(part, g, root, at, name, depth) ==
      (if !(at.mode / 0x1000 == 4) || LookUp(part, g, at, name).None? then None
       else
         var entry := InodeNumber(part, g, LookUp(part, g, at, name).value);
         if entry.mode / 0x1000 != 10 then Some(entry)
         else if depth == 4 then None
         else Resolve(part, g, root, at, FileBytes(part, g, entry, 0, SizeOf(g, entry)), depth + 1))
  {
    OneComponent(name);
    var names, next := [name], depth + 1;
    assert names[1..] == [];
    WalkOne(part, g, root, at, names, depth);
    var number := LookUp(part, g, at, name);
    if number.Some? {
      var entry := InodeNumber(part, g, number.value);
      EnterOne(part, g, root, at, name, depth, entry, next);
    }
  }

  lemma {:induction false} WalkOne(part: Bytes, g: Geometry, root: Inode, at: Inode, names: seq<Bytes>, depth: nat)
    requires InodeOk(root) && InodeOk(at) && g.groupInodes > 0 && depth < 5 && |names| == 1
    ensures Walk(part, g, root, at, names, false, depth) ==
            if at.mode / 0x1000 == 4 then Enter(part, g, root, at, names[0], depth) else None
  {
    var next := Enter(part, g, root, at, names[0], depth);
    if next.Some? {
      assert Walk(part, g, root, next.value, [], false, depth) == next;
    }
  }

  lemma {:induction false} EnterOne(part: Bytes, g: Geometry, root: Inode, at: Inode, name: Bytes, depth: nat, entry: Inode,
                                    next: nat)
    requires InodeOk(root) && InodeOk(at) && InodeOk(entry) && g.groupInodes > 0 && depth < 5 && next == depth + 1
    requires LookUp(part, g, at, name).Some? && entry == InodeNumber(part, g, LookUp(part, g, at, name).value)
    ensures Enter(part, g, root, at, name, depth) ==
            if entry.mode / 0x1000 != 10 then Some(entry)
            else if depth == 4 then None
            else Resolve(part, g, root, at, FileBytes(part, g, entry, 0, SizeOf(g, entry)), next)
  {
  }

  // ----- absolute and longer paths -----

  /** An absolute path leads to the same place from everywhere: where the rest leads from the root. */
  lemma {:induction false} AbsolutePath(part: Bytes, g: Geometry, root: Inode, at: Inode, rest: Bytes, path: Bytes, depth: nat)
    requires InodeOk(root) && InodeOk(at) && g.groupInodes > 0 && depth < 5 && path == [47] + rest
    ensures Resolve(part, g, root, at, path, depth) ==
            if rest == [] then (if root.mode / 0x1000 == 4 then Some(root) else None)
            else Resolve(part, g, root, root, rest, depth)
  {
    assert path[1..] == rest && SkipSlashes(path) == SkipSlashes(rest);
    if rest == [] {
      assert Components(path) == [];
    } else {
      assert Components(path) == Components(rest);
      assert NeedsDirectory(path) == NeedsDirectory(rest);
    }
  }

  lemma {:induction false} WalkAppend(part: Bytes, g: Geometry, root: Inode, at: Inode, names: seq<Bytes>, more: seq<Bytes>,
                                      all: seq<Bytes>, first: bool, directory: bool, depth: nat)
    requires InodeOk(root) && InodeOk(at) && g.groupInodes > 0 && depth < 5
    requires all == names + more && (more == [] ==> directory)
    ensures Walk(part, g, root, at, all, directory, depth) ==
            match Walk(part, g, root, at, names, first, depth)
            case None => None
            case Some(inode) => Walk(part, g, root, inode, more, directory, depth)
    decreases |names|
  {
    if names == [] {
      assert all == more;
    } else if TypeOf(at) == TYPE_DIR {
      assert all[0] == names[0] && all[1..] == names[1..] + more;
      var next := Enter(part, g, root, at, names[0], depth);
      if next.Some? {
        WalkAppend(part, g, root, next.value, names[1..], more, all[1..], first, directory, depth);
      }
    }
  }

  lemma {:induction false} SlashesAppend(front: Bytes, rest: Bytes, path: Bytes)
    requires path == front + [47] + rest
    ensures SkipSlashes(front) != [] ==> SkipSlashes(path) == SkipSlashes(front) + [47] + rest
    ensures SkipSlashes(front) == [] ==> SkipSlashes(path) == SkipSlashes(rest)
  {
    if front != [] && front[0] == 47 {
      assert path[1..] == front[1..] + [47] + rest;
      SlashesAppend(front[1..], rest, path[1..]);
    } else if front == [] {
      assert path == [47] + rest && path[1..] == rest;
    }
  }

  lemma {:induction false} ComponentAppend(front: Bytes, rest: Bytes, path: Bytes)
    requires path == front + [47] + rest
    ensures ComponentLength(path) == ComponentLength(front)
  {
    if front != [] && front[0] != 47 {
      assert path[1..] == front[1..] + [47] + rest;
      ComponentAppend(front[1..], rest, path[1..]);
    }
  }

  lemma {:induction false} ComponentsStep(path: Bytes, p: Bytes, n: nat, rest: Bytes)
    requires p == SkipSlashes(path) && p != [] && n == ComponentLength(p) && rest == p[n..]
    ensures Components(path) == [p[..n]] + Components(rest)
  {
  }

  lemma {:induction false} SameComponents(path: Bytes, rest: Bytes)
    requires SkipSlashes(path) == SkipSlashes(rest)
    ensures Components(path) == Components(rest)
  {
  }

  lemma {:induction false} CutFront(f: Bytes, n: nat, rest: Bytes, p: Bytes)
    requires n <= |f| && p == f + [47] + rest
    ensures p[..n] == f[..n] && p[n..] == f[n..] + [47] + rest
  {
  }

  lemma {:induction false} NamesJoin(a: seq<Bytes>, b: seq<Bytes>, c: seq<Bytes>)
    ensures a + (b + c) == a + b + c
  {
  }

  lemma {:induction false} ComponentsAppend(front: Bytes, rest: Bytes, path: Bytes)
    requires path == front + [47] + rest
    ensures Components(path) == Components(front) + Components(rest)
    decreases |front|
  {
    var f, p := SkipSlashes(front), SkipSlashes(path);
    SlashesAppend(front, rest, path);
    if f == [] {
      SameComponents(path, rest);
    } else {
      var n := ComponentLength(f);
      ComponentAppend(f, rest, p);
      var f', p' := f[n..], p[n..];
      CutFront(f, n, rest, p);
      ComponentsAppend(f', rest, p');
      ComponentsStep(path, p, n, p');
      ComponentsStep(front, f, n, f');
      NamesJoin([f[..n]], Components(f'), Components(rest));
    }
  }

  /** A longer path leads where its last part leads from the place that the part before leads to; a slash at the end
      asks for a directory. */
  lemma {:induction false} PathSplit(part: Bytes, g: Geometry, root: Inode, at: Inode, front: Bytes, rest: Bytes, path: Bytes,
                                     depth: nat)
    requires InodeOk(root) && InodeOk(at) && g.groupInodes > 0 && depth < 5
    requires front != [] && (rest != [] ==> rest[0] != 47) && path == front + [47] + rest
    ensures Resolve(part, g, root, at, path, depth) ==
            match Resolve(part, g, root, at, front, depth)
            case None => None
            case Some(inode) =>
              if inode.mode / 0x1000 != 4 then None
              else if rest == [] then Some(inode)
              else Resolve(part, g, root, inode, rest, depth)
  {
    ComponentsAppend(front, rest, path);
    var start := if front[0] == SLASH then root else at;
    assert path[0] == front[0];
    WalkAppend(part, g, root, start, Components(front), Components(rest), Components(path), NeedsDirectory(front),
               NeedsDirectory(path), depth);
    var middle := Walk(part, g, root, start, Components(front), NeedsDirectory(front), depth);
    assert Resolve(part, g, root, at, front, depth) == middle;
    if middle.Some? {
      LastPart(part, g, root, middle.value, rest, path, depth);
    }
  }

  lemma {:induction false} LastPart(part: Bytes, g: Geometry, root: Inode, inode: Inode, rest: Bytes, path: Bytes, depth: nat)
    requires InodeOk(root) && InodeOk(inode) && g.groupInodes > 0 && depth < 5
    requires path != [] && (rest == [] ==> path[|path| - 1] == 47)
    requires rest != [] ==> rest[0] != 47 && path[|path| - 1] == rest[|rest| - 1]
    ensures Walk(part, g, root, inode, Components(rest), NeedsDirectory(path), depth) ==
            if inode.mode / 0x1000 != 4 then None
            else if rest == [] then Some(inode)
            else Resolve(part, g, root, inode, rest, depth)
  {
    if rest != [] {
      assert SkipSlashes(rest) == rest;
      assert Components(rest) != [];
    }
  }

  /** A file is found where its path leads from the root, if it is a regular file. */
  lemma {:induction false} FileFound(part: Bytes, g: Geometry, root: Inode, path: Bytes, file: Inode)
    requires InodeOk(root) && g.groupInodes > 0
    ensures RegularAt(part, g, root, path) == Some(file) <==>
            Resolve(part, g, root, root, path, 0) == Some(file) && file.mode / 0x1000 == 8
  {
  }
}
