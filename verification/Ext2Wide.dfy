/** When the loader, which computes the addresses of block pointers in 32 bits, sees the file system that is there. */
module Ext2Wide {
  import opened Basics
  import opened Buffers
  import opened Ext2Spec
  import opened Ext2Map

  /** Every pointer block that is met on the way to a block starts in the first 4 GiB of the partition. */
  predicate DescendLow(part: Bytes, g: Geometry, pointer: nat, b: nat, levels: nat)
    decreases levels
  {
    levels == 0 || pointer == 0 ||
    (BaseOf(pointer, g.shift) < WORD32 &&
     DescendLow(part, g, PointerAt(part, Wide(g), pointer, Digit(b, levels - 1, g.shift)), b, levels - 1))
  }

  predicate BlockLow(part: Bytes, g: Geometry, inode: Inode, b: nat)
    requires InodeOk(inode)
  {
    var levels := LevelsOf(b, g.shift);
    levels == 0 || levels == 4 ||
    DescendLow(part, g, inode.indirect[levels - 1], b - FirstOf(levels, g.shift), levels)
  }

  /** The places from which the digit walk reads, in order. */
  function Places(part: Bytes, g: Geometry, pointer: nat, b: nat, levels: nat): seq<nat>
    decreases levels
  {
    if levels == 0 || pointer == 0 then []
    else
      var index := Digit(b, levels - 1, g.shift);
      [PointerPlace(g, pointer, index)] + Places(part, g, PointerAt(part, g, pointer, index), b, levels - 1)
  }

  lemma {:induction false} SamePlace(g: Geometry, pointer: nat, index: nat)
    requires 10 <= g.shift <= 12 && index < Fanout(g.shift) && g.narrow
    ensures PointerPlace(g, pointer, index) == PointerPlace(Wide(g), pointer, index) <==>
            BaseOf(pointer, g.shift) < WORD32
  {
    PointerAddress(pointer, index, g.shift);
  }

  /** The loader reads the pointers of a block where they are if and only if every pointer block it meets starts in
      the first 4 GiB. */
  lemma {:induction false} PlacesExact(part: Bytes, g: Geometry, pointer: nat, b: nat, levels: nat)
    requires 10 <= g.shift <= 12 && g.narrow
    ensures Places(part, g, pointer, b, levels) == Places(part, Wide(g), pointer, b, levels) <==>
            DescendLow(part, g, pointer, b, levels)
    decreases levels
  {
    if levels > 0 && pointer != 0 {
      var index := Digit(b, levels - 1, g.shift);
      SamePlace(g, pointer, index);
      var next, there := PointerAt(part, g, pointer, index), PointerAt(part, Wide(g), pointer, index);
      var xs, ys := Places(part, g, next, b, levels - 1), Places(part, Wide(g), there, b, levels - 1);
      HeadsAndRests(PointerPlace(g, pointer, index), PointerPlace(Wide(g), pointer, index), xs, ys);
      if BaseOf(pointer, g.shift) < WORD32 {
        PlacesExact(part, g, there, b, levels - 1);
      }
    }
  }

  lemma {:induction false} HeadsAndRests(x: nat, y: nat, xs: seq<nat>, ys: seq<nat>)
    ensures [x] + xs == [y] + ys <==> x == y && xs == ys
  {
    assert ([x] + xs)[0] == x && ([y] + ys)[0] == y && ([x] + xs)[1..] == xs && ([y] + ys)[1..] == ys;
  }

  lemma {:induction false} DescendTrue(part: Bytes, g: Geometry, pointer: nat, b: nat, levels: nat)
    requires 10 <= g.shift <= 12 && g.narrow && DescendLow(part, g, pointer, b, levels)
    ensures Descend(part, g, pointer, b, levels) == Descend(part, Wide(g), pointer, b, levels)
    ensures DescendInside(part, g, pointer, b, levels) == DescendInside(part, Wide(g), pointer, b, levels)
    decreases levels
  {
    if levels > 0 && pointer != 0 {
      var index := Digit(b, levels - 1, g.shift);
      SamePlace(g, pointer, index);
      DescendTrue(part, g, PointerAt(part, Wide(g), pointer, index), b, levels - 1);
    }
  }

  lemma {:induction false} BlockByDigits(part: Bytes, g: Geometry, inode: Inode, b: nat, levels: nat, pointer: nat, c: nat)
    requires InodeOk(inode) && 10 <= g.shift <= 12 && levels == LevelsOf(b, g.shift) && 0 < levels < 4
    requires pointer == inode.indirect[levels - 1] && c == b - FirstOf(levels, g.shift)
    ensures VolumeBlock(part, g, inode, b) == Descend(part, g, pointer, c, levels)
    ensures BlockInside(part, g, inode, b) == DescendInside(part, g, pointer, c, levels)
  {
    LevelBounds(b, g.shift);
    DescendIsSlot(part, g, pointer, c, levels);
  }

  /** Then the loader finds the block of the file that is there. */
  lemma {:induction false} BlockTrue(part: Bytes, g: Geometry, inode: Inode, b: nat)
    requires InodeOk(inode) && 10 <= g.shift <= 12 && g.narrow && BlockLow(part, g, inode, b)
    ensures VolumeBlock(part, g, inode, b) == VolumeBlock(part, Wide(g), inode, b)
    ensures BlockInside(part, g, inode, b) == BlockInside(part, Wide(g), inode, b)
  {
    var levels := LevelsOf(b, g.shift);
    if 0 < levels < 4 {
      var pointer := inode.indirect[levels - 1];
      var c := b - FirstOf(levels, g.shift);
      assert DescendLow(part, g, pointer, c, levels);
      BlockByDigits(part, g, inode, b, levels, pointer, c);
      BlockByDigits(part, Wide(g), inode, b, levels, pointer, c);
      DescendTrue(part, g, pointer, c, levels);
    }
  }

  lemma {:induction false} BlockSeen(part: Bytes, g: Geometry, inode: Inode, b: nat)
    requires InodeOk(inode) && 10 <= g.shift <= 12 && g.narrow
    ensures BlockLow(part, g, inode, b) ==> VolumeBlock(part, g, inode, b) == VolumeBlock(part, Wide(g), inode, b)
  {
    if BlockLow(part, g, inode, b) {
      BlockTrue(part, g, inode, b);
    }
  }

  /** In a partition of at most 4 GiB, blocks whose pointers lie inside are found. */
  lemma {:induction false} InsideIsLow(part: Bytes, g: Geometry, pointer: nat, b: nat, levels: nat)
    requires |part| <= WORD32 && DescendInside(part, Wide(g), pointer, b, levels)
    ensures DescendLow(part, g, pointer, b, levels)
    decreases levels
  {
    if levels > 0 && pointer != 0 {
      var index := Digit(b, levels - 1, g.shift);
      InsideIsLow(part, g, PointerAt(part, Wide(g), pointer, index), b, levels - 1);
    }
  }

  lemma {:induction false} SmallPartition(part: Bytes, g: Geometry, inode: Inode, b: nat)
    requires InodeOk(inode) && |part| <= WORD32 && BlockInside(part, Wide(g), inode, b)
    ensures BlockLow(part, g, inode, b)
  {
    var levels := LevelsOf(b, g.shift);
    if levels > 0 {
      InsideIsLow(part, g, inode.indirect[levels - 1], b - FirstOf(levels, g.shift), levels);
    }
  }

  /** Pointer block 0x100000 of 4096 bytes starts at 4 GiB: the loader takes its first pointer from the start of the
      partition. */
  lemma {:induction false} HighPointer(part: Bytes, inode: Inode, g: Geometry)
    requires InodeOk(inode) && inode.indirect[0] == 0x10_0000 && g == Geometry(12, 7, 4096, 8192, true, true, true)
    requires |part| > 0x1_0000_0000 && part[0] == part[1] == part[2] == part[3] == 0 && part[0x1_0000_0000] == 1
    ensures VolumeBlock(part, g, inode, 12) == 0 && VolumeBlock(part, Wide(g), inode, 12) != 0
    ensures !BlockLow(part, g, inode, 12)
  {
    assert LevelsOf(12, 12) == 1 && Quotient(0, 0, 12) == 0 && Digit(0, 0, 12) == 0;
    assert PointerPlace(g, 0x10_0000, 0) == 0 && PointerPlace(Wide(g), 0x10_0000, 0) == 0x1_0000_0000;
    assert Slot(part, g, 0x10_0000, 0, 1) == U32(part, 0);
    assert Slot(part, Wide(g), 0x10_0000, 0, 1) == U32(part, 0x1_0000_0000);
  }

  // ----- files -----

  /** The loader can find the bytes of the file from `pos` on where they are. */
  ghost predicate RangeLow(part: Bytes, g: Geometry, inode: Inode, pos: nat, count: nat)
    requires InodeOk(inode)
  {
    forall k: nat {:trigger ByteLow(part, g, inode, k)} | pos <= k < pos + count :: ByteLow(part, g, inode, k)
  }

  predicate ByteLow(part: Bytes, g: Geometry, inode: Inode, pos: nat)
    requires InodeOk(inode)
  {
    BlockLow(part, g, inode, BlockOf(pos, g.shift))
  }

  lemma {:induction false} ByteTrue(part: Bytes, g: Geometry, inode: Inode, pos: nat)
    requires InodeOk(inode) && 10 <= g.shift <= 12 && g.narrow && ByteLow(part, g, inode, pos)
    ensures FileByte(part, g, inode, pos) == FileByte(part, Wide(g), inode, pos)
    ensures ByteInside(part, g, inode, pos) == ByteInside(part, Wide(g), inode, pos)
  {
    BlockTrue(part, g, inode, BlockOf(pos, g.shift));
  }

  predicate SameByte(part: Bytes, g: Geometry, inode: Inode, k: nat)
    requires InodeOk(inode)
  {
    FileByte(part, g, inode, k) == FileByte(part, Wide(g), inode, k)
  }

  lemma {:induction false} SameBytes(part: Bytes, g: Geometry, inode: Inode, pos: nat, count: nat)
    requires InodeOk(inode) && forall k: nat | pos <= k < pos + count :: SameByte(part, g, inode, k)
    ensures FileBytes(part, g, inode, pos, count) == FileBytes(part, Wide(g), inode, pos, count)
  {
    var a, b := FileBytes(part, g, inode, pos, count), FileBytes(part, Wide(g), inode, pos, count);
    forall i | 0 <= i < count ensures a[i] == b[i] {
      var k := pos + i;
      assert SameByte(part, g, inode, k);
    }
  }

  /** The bytes that the loader finds are those of the file. */
  lemma {:induction false} BytesTrue(part: Bytes, g: Geometry, inode: Inode, pos: nat, count: nat)
    requires InodeOk(inode) && 10 <= g.shift <= 12 && g.narrow && RangeLow(part, g, inode, pos, count)
    ensures FileBytes(part, g, inode, pos, count) == FileBytes(part, Wide(g), inode, pos, count)
  {
    forall k: nat | pos <= k < pos + count ensures SameByte(part, g, inode, k) {
      assert ByteLow(part, g, inode, k);
      ByteTrue(part, g, inode, k);
    }
    SameBytes(part, g, inode, pos, count);
  }

  /** They lie inside the partition as well. */
  lemma {:induction false} InsideTrue(part: Bytes, g: Geometry, inode: Inode, pos: nat, count: nat)
    requires InodeOk(inode) && 10 <= g.shift <= 12 && g.narrow && RangeLow(part, g, inode, pos, count)
    requires BytesInside(part, Wide(g), inode, pos, count)
    ensures BytesInside(part, g, inode, pos, count)
  {
    forall k: nat | pos <= k < pos + count ensures ByteInside(part, g, inode, k) {
      assert ByteLow(part, g, inode, k) && ByteInside(part, Wide(g), inode, k);
      ByteTrue(part, g, inode, k);
    }
  }

  /** A file inside a partition of at most 4 GiB is read as it is. */
  lemma {:induction false} SmallPartitionFile(part: Bytes, g: Geometry, inode: Inode, pos: nat, count: nat)
    requires InodeOk(inode) && |part| <= WORD32 && BytesInside(part, Wide(g), inode, pos, count)
    ensures RangeLow(part, g, inode, pos, count)
  {
    forall k: nat | pos <= k < pos + count ensures ByteLow(part, g, inode, k) {
      assert ByteInside(part, Wide(g), inode, k);
      SmallPartition(part, g, inode, BlockOf(k, g.shift));
    }
  }

  // ----- directories -----

  /** A directory or link that the loader can read as it is. */
  ghost predicate AllLow(part: Bytes, g: Geometry, inode: Inode)
    requires InodeOk(inode)
  {
    RangeLow(part, g, inode, 0, SizeOf(g, inode))
  }

  lemma {:induction false} PartTrue(part: Bytes, g: Geometry, inode: Inode, pos: nat, count: nat)
    requires InodeOk(inode) && 10 <= g.shift <= 12 && g.narrow && AllLow(part, g, inode) && pos + count <= SizeOf(g, inode)
    ensures FileBytes(part, g, inode, pos, count) == FileBytes(part, Wide(g), inode, pos, count)
  {
    BytesTrue(part, g, inode, pos, count);
  }

  /** Two records that look the same to a search: the name of an unused one does not matter. */
  predicate LooksLike(a: Record, b: Record) {
    && a.inode == b.inode && a.size == b.size && a.nameLength == b.nameLength && a.kind == b.kind
    && (a.inode != 0 ==> a.name == b.name)
  }

  lemma {:induction false} HeadTrue(part: Bytes, g: Geometry, dir: Inode, pos: nat)
    requires InodeOk(dir) && 10 <= g.shift <= 12 && g.narrow && AllLow(part, g, dir) && pos + 8 <= SizeOf(g, dir)
    ensures var a, b := RecordAt(part, g, dir, pos), RecordAt(part, Wide(g), dir, pos);
            && a.inode == b.inode && a.size == b.size && a.nameLength == b.nameLength && a.kind == b.kind
            && (pos + 8 + a.nameLength <= SizeOf(g, dir) ==> a.name == b.name)
  {
    PartTrue(part, g, dir, pos, 8);
    var at, n := pos + 8, FileBytes(part, g, dir, pos, 8)[6];
    if at + n <= SizeOf(g, dir) {
      PartTrue(part, g, dir, at, n);
    }
  }

  lemma {:induction false} WellFormedStep(part: Bytes, g: Geometry, dir: Inode, pos: nat, record: Record, next: nat)
    requires InodeOk(dir) && pos < SizeOf(g, dir) && record == RecordAt(part, g, dir, pos) && next == pos + record.size
    ensures WellFormed(part, g, dir, pos) <==>
            record.size >= 8 && next <= SizeOf(g, dir) && (record.inode != 0 ==> 8 + record.nameLength <= record.size) &&
            WellFormed(part, g, dir, next)
  {
  }

  /** A directory that can be read as it is looks well-formed exactly if it is. */
  lemma {:induction false} WellFormedTrue(part: Bytes, g: Geometry, dir: Inode, pos: nat)
    requires InodeOk(dir) && 10 <= g.shift <= 12 && g.narrow && AllLow(part, g, dir) && pos <= SizeOf(g, dir)
    ensures WellFormed(part, g, dir, pos) == WellFormed(part, Wide(g), dir, pos)
    decreases SizeOf(g, dir) - pos
  {
    if pos < SizeOf(g, dir) {
      var a, b := RecordAt(part, g, dir, pos), RecordAt(part, Wide(g), dir, pos);
      var next, next' := pos + a.size, pos + b.size;
      WellFormedStep(part, g, dir, pos, a, next);
      WellFormedStep(part, Wide(g), dir, pos, b, next');
      if pos + 8 <= SizeOf(g, dir) {
        HeadTrue(part, g, dir, pos);
        if a.size >= 8 && next <= SizeOf(g, dir) {
          WellFormedTrue(part, g, dir, next);
        }
      }
    }
  }

  lemma {:induction false} RecordsStep(part: Bytes, g: Geometry, dir: Inode, pos: nat, record: Record, next: nat, name: Bytes)
    requires InodeOk(dir) && SizeOf(g, dir) >= pos + 8 && record == RecordAt(part, g, dir, pos)
    requires next == pos + record.size && record.size > 0
    ensures FirstMatch(g, Records(part, g, dir, pos), name) ==
            if Matches(g, record, name) then Some(record.inode) else FirstMatch(g, Records(part, g, dir, next), name)
  {
    var rest := Records(part, g, dir, next);
    assert Records(part, g, dir, pos) == [record] + rest;
    assert ([record] + rest)[1..] == rest;
  }

  lemma {:induction false} FirstTrue(part: Bytes, g: Geometry, dir: Inode, pos: nat, name: Bytes)
    requires InodeOk(dir) && 10 <= g.shift <= 12 && g.narrow && AllLow(part, g, dir) && WellFormed(part, g, dir, pos)
    ensures FirstMatch(g, Records(part, g, dir, pos), name) == FirstMatch(Wide(g), Records(part, Wide(g), dir, pos), name)
    decreases SizeOf(g, dir) - pos
  {
    if pos < SizeOf(g, dir) {
      var a, b := RecordAt(part, g, dir, pos), RecordAt(part, Wide(g), dir, pos);
      var next := pos + a.size;
      WellFormedStep(part, g, dir, pos, a, next);
      HeadTrue(part, g, dir, pos);
      FirstTrue(part, g, dir, next, name);
      RecordsStep(part, g, dir, pos, a, next, name);
      RecordsStep(part, Wide(g), dir, pos, b, next, name);
      assert LooksLike(a, b);
      assert Matches(g, a, name) == Matches(Wide(g), b, name);
    }
  }

  /** In a directory that can be read as it is, names are found as they are. */
  lemma {:induction false} LookUpTrue(part: Bytes, g: Geometry, dir: Inode, name: Bytes)
    requires InodeOk(dir) && 10 <= g.shift <= 12 && g.narrow && AllLow(part, g, dir) && WellFormed(part, g, dir, 0)
    ensures LookUp(part, g, dir, name) == LookUp(part, Wide(g), dir, name)
  {
    FirstTrue(part, g, dir, 0, name);
  }

  lemma {:induction false} LinkTrue(part: Bytes, g: Geometry, link: Inode)
    requires InodeOk(link) && 10 <= g.shift <= 12 && g.narrow && AllLow(part, g, link)
    ensures LinkPath(part, g, link) == LinkPath(part, Wide(g), link)
  {
    PartTrue(part, g, link, 0, SizeOf(g, link));
  }

  lemma {:induction false} SameInode(part: Bytes, g: Geometry, number: nat)
    requires g.groupInodes > 0
    ensures InodeNumber(part, Wide(g), number) == InodeNumber(part, g, number)
  {
    assert InodePlace(part, Wide(g), number) == InodePlace(part, g, number);
  }

  // ----- paths -----

  /** The loader can read every directory and every link that a path goes through in the file system that is there. */
  ghost predicate ResolveLow(part: Bytes, g: Geometry, root: Inode, at: Inode, path: Bytes, depth: nat)
    requires InodeOk(root) && InodeOk(at) && g.groupInodes > 0 && depth <= MAX_SYMLINKS
    decreases MAX_SYMLINKS - depth, 2, 0
  {
    depth == MAX_SYMLINKS || path == [] ||
    WalkLow(part, g, root, if path[0] == SLASH then root else at, Components(path), depth)
  }

  ghost predicate WalkLow(part: Bytes, g: Geometry, root: Inode, at: Inode, names: seq<Bytes>, depth: nat)
    requires InodeOk(root) && InodeOk(at) && g.groupInodes > 0 && depth < MAX_SYMLINKS
    decreases MAX_SYMLINKS - depth, 1, |names|
  {
    names == [] || TypeOf(at) != TYPE_DIR ||
    (EnterLow(part, g, root, at, names[0], depth) &&
     match Enter(part, Wide(g), root, at, names[0], depth)
     case None => true
     case Some(inode) => WalkLow(part, g, root, inode, names[1..], depth))
  }

  ghost predicate EnterLow(part: Bytes, g: Geometry, root: Inode, at: Inode, name: Bytes, depth: nat)
    requires InodeOk(root) && InodeOk(at) && g.groupInodes > 0 && depth < MAX_SYMLINKS
    decreases MAX_SYMLINKS - depth, 0, 0
  {
    AllLow(part, g, at) &&
    match LookUp(part, Wide(g), at, name)
    case None => true
    case Some(number) =>
      var entry := InodeNumber(part, Wide(g), number);
      TypeOf(entry) == TYPE_SYM ==>
        AllLow(part, g, entry) && ResolveLow(part, g, root, at, LinkPath(part, Wide(g), entry), depth + 1)
  }

  /** The file system looks well-formed to the loader, and so does the inode at which a path starts. */
  ghost predicate LooksFine(part: Bytes, g: Geometry, known: iset<nat>, root: Inode, at: Inode)
    requires g.groupInodes > 0 && InodeOk(root) && InodeOk(at)
  {
    FsFine(part, g, known) && InodeFine(part, g, known, root) && InodeFine(part, g, known, at)
  }

  lemma {:induction false} WalkTrue(part: Bytes, g: Geometry, known: iset<nat>, root: Inode, at: Inode, names: seq<Bytes>,
                                    directory: bool, depth: nat)
    requires InodeOk(root) && InodeOk(at) && GeometryOk(g) && g.narrow && depth < MAX_SYMLINKS
    requires LooksFine(part, g, known, root, at) && WalkLow(part, g, root, at, names, depth)
    ensures var r := Walk(part, g, root, at, names, directory, depth);
            r == Walk(part, Wide(g), root, at, names, directory, depth) && (r.Some? ==> InodeFine(part, g, known, r.value))
    decreases MAX_SYMLINKS - depth, 1, |names|
  {
    if names != [] && TypeOf(at) == TYPE_DIR {
      EnterTrue(part, g, known, root, at, names[0], depth);
      var next := Enter(part, g, root, at, names[0], depth);
      if next.Some? {
        WalkTrue(part, g, known, root, next.value, names[1..], directory, depth);
      }
    }
  }

  lemma {:induction false} EnterTrue(part: Bytes, g: Geometry, known: iset<nat>, root: Inode, at: Inode, name: Bytes,
                                     depth: nat)
    requires InodeOk(root) && InodeOk(at) && GeometryOk(g) && g.narrow && depth < MAX_SYMLINKS
    requires LooksFine(part, g, known, root, at) && TypeOf(at) == TYPE_DIR && EnterLow(part, g, root, at, name, depth)
    ensures var r := Enter(part, g, root, at, name, depth);
            r == Enter(part, Wide(g), root, at, name, depth) && (r.Some? ==> InodeFine(part, g, known, r.value))
    decreases MAX_SYMLINKS - depth, 0, 0
  {
    LookUpTrue(part, g, at, name);
    var number := LookUp(part, g, at, name);
    if number.Some? {
      assert number.value in known;
      SameInode(part, g, number.value);
      var entry := InodeNumber(part, g, number.value);
      var link, next := LinkPath(part, g, entry), depth + 1;
      if TypeOf(entry) == TYPE_SYM {
        LinkTrue(part, g, entry);
        ResolveTrue(part, g, known, root, at, link, next);
        EnterStep(part, Wide(g), root, at, name, depth, number.value, entry, link, next);
      } else {
        EnterPlain(part, Wide(g), root, at, name, depth, number.value, entry);
      }
      EnterStep(part, g, root, at, name, depth, number.value, entry, link, next);
    }
  }

  lemma {:induction false} EnterStep(part: Bytes, g: Geometry, root: Inode, at: Inode, name: Bytes, depth: nat, number: nat,
                                     entry: Inode, link: Bytes, next: nat)
    requires InodeOk(root) && InodeOk(at) && InodeOk(entry) && g.groupInodes > 0 && depth < MAX_SYMLINKS
    requires LookUp(part, g, at, name) == Some(number) && entry == InodeNumber(part, g, number)
    requires link == LinkPath(part, g, entry) && next == depth + 1
    ensures Enter(part, g, root, at, name, depth) ==
            if TypeOf(entry) == TYPE_SYM then Resolve(part, g, root, at, link, next) else Some(entry)
  {
  }

  lemma {:induction false} EnterPlain(part: Bytes, g: Geometry, root: Inode, at: Inode, name: Bytes, depth: nat, number: nat,
                                      entry: Inode)
    requires InodeOk(root) && InodeOk(at) && g.groupInodes > 0 && depth < MAX_SYMLINKS
    requires LookUp(part, g, at, name) == Some(number) && entry == InodeNumber(part, g, number) && TypeOf(entry) != TYPE_SYM
    ensures Enter(part, g, root, at, name, depth) == Some(entry)
  {
  }

  /** A path leads the loader where it leads in the file system that is there, if the directories and links that it goes
      through are in reach. Other files do not matter. */
  lemma {:induction false} ResolveTrue(part: Bytes, g: Geometry, known: iset<nat>, root: Inode, at: Inode, path: Bytes,
                                       depth: nat)
    requires InodeOk(root) && InodeOk(at) && GeometryOk(g) && g.narrow && depth <= MAX_SYMLINKS
    requires LooksFine(part, g, known, root, at) && ResolveLow(part, g, root, at, path, depth)
    ensures var r := Resolve(part, g, root, at, path, depth);
            r == Resolve(part, Wide(g), root, at, path, depth) && (r.Some? ==> InodeFine(part, g, known, r.value))
    decreases MAX_SYMLINKS - depth, 2, 0
  {
    if depth < MAX_SYMLINKS && path != [] {
      WalkTrue(part, g, known, root, if path[0] == SLASH then root else at, Components(path), NeedsDirectory(path), depth);
    }
  }

  lemma {:induction false} ResolveSeen(part: Bytes, g: Geometry, known: iset<nat>, root: Inode, at: Inode, path: Bytes,
                                       depth: nat)
    requires InodeOk(root) && InodeOk(at) && GeometryOk(g) && g.narrow && depth <= MAX_SYMLINKS
    requires LooksFine(part, g, known, root, at)
    ensures ResolveLow(part, g, root, at, path, depth) ==>
              Resolve(part, g, root, at, path, depth) == Resolve(part, Wide(g), root, at, path, depth)
  {
    if ResolveLow(part, g, root, at, path, depth) {
      ResolveTrue(part, g, known, root, at, path, depth);
    }
  }

  // ----- small partitions -----

  lemma {:induction false} SmallInode(part: Bytes, g: Geometry, inode: Inode)
    requires InodeOk(inode) && |part| <= WORD32 && Findable(part, Wide(g), inode)
    ensures TypeOf(inode) == TYPE_DIR || TypeOf(inode) == TYPE_SYM ==> AllLow(part, g, inode)
  {
    if TypeOf(inode) == TYPE_DIR || TypeOf(inode) == TYPE_SYM {
      SmallPartitionFile(part, g, inode, 0, SizeOf(g, inode));
    }
  }

  /** A small partition whose directories and links lie inside, and from where a path starts. */
  ghost predicate SmallFs(part: Bytes, g: Geometry, known: iset<nat>, root: Inode, at: Inode)
    requires g.groupInodes > 0 && InodeOk(root) && InodeOk(at)
  {
    |part| <= WORD32 && FsInside(part, Wide(g), known, root) && Findable(part, Wide(g), at)
  }

  lemma {:induction false} SmallWalk(part: Bytes, g: Geometry, known: iset<nat>, root: Inode, at: Inode, names: seq<Bytes>,
                                     depth: nat)
    requires InodeOk(root) && InodeOk(at) && GeometryOk(g) && g.narrow && depth < MAX_SYMLINKS
    requires LooksFine(part, g, known, root, at) && SmallFs(part, g, known, root, at)
    ensures WalkLow(part, g, root, at, names, depth)
    ensures forall directory: bool :: var r := Walk(part, Wide(g), root, at, names, directory, depth);
              r.Some? ==> Findable(part, Wide(g), r.value)
    decreases MAX_SYMLINKS - depth, 1, |names|
  {
    if names != [] && TypeOf(at) == TYPE_DIR {
      SmallEnter(part, g, known, root, at, names[0], depth);
      EnterTrue(part, g, known, root, at, names[0], depth);
      var next := Enter(part, Wide(g), root, at, names[0], depth);
      if next.Some? {
        SmallWalk(part, g, known, root, next.value, names[1..], depth);
      }
    }
  }

  lemma {:induction false} SmallEnter(part: Bytes, g: Geometry, known: iset<nat>, root: Inode, at: Inode, name: Bytes,
                                      depth: nat)
    requires InodeOk(root) && InodeOk(at) && GeometryOk(g) && g.narrow && depth < MAX_SYMLINKS && TypeOf(at) == TYPE_DIR
    requires LooksFine(part, g, known, root, at) && SmallFs(part, g, known, root, at)
    ensures EnterLow(part, g, root, at, name, depth)
    ensures var r := Enter(part, Wide(g), root, at, name, depth); r.Some? ==> Findable(part, Wide(g), r.value)
    decreases MAX_SYMLINKS - depth, 0, 0
  {
    SmallInode(part, g, at);
    LookUpTrue(part, g, at, name);
    var number := LookUp(part, g, at, name);
    if number.Some? {
      assert number.value in known;
      SameInode(part, g, number.value);
      var entry := InodeNumber(part, Wide(g), number.value);
      var link, next := LinkPath(part, Wide(g), entry), depth + 1;
      SmallInode(part, g, entry);
      if TypeOf(entry) == TYPE_SYM {
        SmallPaths(part, g, known, root, at, link, next);
      }
      EnterStep(part, Wide(g), root, at, name, depth, number.value, entry, link, next);
    }
  }

  /** In a partition of at most 4 GiB whose directories and links lie inside, all paths are in reach. */
  lemma {:induction false} SmallPaths(part: Bytes, g: Geometry, known: iset<nat>, root: Inode, at: Inode, path: Bytes,
                                      depth: nat)
    requires InodeOk(root) && InodeOk(at) && GeometryOk(g) && g.narrow && depth <= MAX_SYMLINKS
    requires LooksFine(part, g, known, root, at) && SmallFs(part, g, known, root, at)
    ensures ResolveLow(part, g, root, at, path, depth)
    ensures var r := Resolve(part, Wide(g), root, at, path, depth); r.Some? ==> Findable(part, Wide(g), r.value)
    decreases MAX_SYMLINKS - depth, 2, 0
  {
    if depth < MAX_SYMLINKS && path != [] {
      SmallWalk(part, g, known, root, if path[0] == SLASH then root else at, Components(path), depth);
    }
  }

  lemma {:induction false} SmallResolves(part: Bytes, g: Geometry, known: iset<nat>, root: Inode, at: Inode, path: Bytes,
                                         depth: nat)
    requires InodeOk(root) && InodeOk(at) && GeometryOk(g) && g.narrow && depth <= MAX_SYMLINKS
    requires LooksFine(part, g, known, root, at)
    ensures SmallFs(part, g, known, root, at) ==> ResolveLow(part, g, root, at, path, depth)
  {
    if SmallFs(part, g, known, root, at) {
      SmallPaths(part, g, known, root, at, path, depth);
    }
  }

  /** There a well-formed file system also looks well-formed. */
  lemma {:induction false} SmallFine(part: Bytes, g: Geometry, known: iset<nat>, inode: Inode)
    requires InodeOk(inode) && 10 <= g.shift <= 12 && g.narrow && |part| <= WORD32 && Findable(part, Wide(g), inode)
    requires InodeFine(part, Wide(g), known, inode)
    ensures InodeFine(part, g, known, inode)
  {
    SmallInode(part, g, inode);
    if TypeOf(inode) == TYPE_DIR {
      WellFormedTrue(part, g, inode, 0);
      forall name: Bytes | LookUp(part, g, inode, name).Some? ensures LookUp(part, g, inode, name).value in known {
        LookUpTrue(part, g, inode, name);
      }
    }
  }

  /** What the loader needs of a small partition can be checked in the file system that is there. */
  lemma {:induction false} SmallLooksFine(part: Bytes, g: Geometry, known: iset<nat>, root: Inode)
    requires InodeOk(root) && GeometryOk(g) && g.narrow && |part| <= WORD32
    requires FsInside(part, Wide(g), known, root) && FsFine(part, Wide(g), known) && InodeFine(part, Wide(g), known, root)
    ensures LooksFine(part, g, known, root, root)
  {
    SmallFine(part, g, known, root);
    forall number: nat | number in known ensures InodeFine(part, g, known, InodeNumber(part, g, number)) {
      SameInode(part, g, number);
      SmallFine(part, g, known, InodeNumber(part, g, number));
    }
  }
}
