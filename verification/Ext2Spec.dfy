/** What an ext2 file system in a partition means: the block map, file contents, directories and paths.

    Reads outside the partition crash the loader; here they give zeros, and the class in module Ext2
    promises these values only for calls that return. */
module Ext2Spec {
  import opened Basics
  import opened Buffers

  /** What the superblock says: `shift` is the binary logarithm of the block size. With `narrow`, a reader computes
      the addresses of block pointers in 32 bits, as the loader does; a file system means what it means without. */
  datatype Geometry = Geometry(shift: nat, inodeShift: nat, descriptors: nat, groupInodes: nat,
                               dirTypes: bool, size64: bool, narrow: bool)

  /** The file system itself, whatever the loader makes of it. */
  function Wide(g: Geometry): Geometry {
    g.(narrow := false)
  }

  /** `struct BiInode`, as far as it is used. */
  datatype Inode = Inode(mode: nat, size: nat, direct: seq<nat>, indirect: seq<nat>, sizeUpper: nat)

  const TYPE_DIR := 4
  const TYPE_REG := 8
  const TYPE_SYM := 10
  const SLASH := 47
  const MAX_SYMLINKS := 5
  const MAX_NAME_LEN := 255

  /** Block sizes for which the 32-bit counts of the block map do not wrap. */
  predicate GeometryOk(g: Geometry) {
    10 <= g.shift <= 12 && 0 < g.groupInodes < WORD32 && g.descriptors < WORD32 && g.inodeShift <= 16
  }

  // ----- arithmetic by powers of two -----

  function BlockSize(shift: nat): nat {
    if shift == 10 then 1024 else if shift == 11 then 2048 else 4096
  }

  /** `position >> shift` */
  function BlockOf(position: nat, shift: nat): nat {
    if shift == 10 then position / 1024 else if shift == 11 then position / 2048 else position / 4096
  }

  /** `position & (BlockSize - 1)` */
  function OffsetOf(position: nat, shift: nat): (r: nat)
    ensures r < BlockSize(shift)
  {
    if shift == 10 then position % 1024 else if shift == 11 then position % 2048 else position % 4096
  }

  /** `block << shift` */
  function BaseOf(block: nat, shift: nat): nat {
    if shift == 10 then block * 1024 else if shift == 11 then block * 2048 else block * 4096
  }

  /** The number of pointers in a block. */
  function Fanout(shift: nat): nat {
    if shift == 10 then 256 else if shift == 11 then 512 else 1024
  }

  /** `blocks << IndirectionShift`, in 32 bits. */
  function Widen(blocks: nat, shift: nat): nat {
    if shift == 10 then blocks * 256 % 0x1_0000_0000
    else if shift == 11 then blocks * 512 % 0x1_0000_0000
    else blocks * 1024 % 0x1_0000_0000
  }

  /** The number of data blocks below `levels` levels of pointer blocks. */
  function Reach(levels: nat, shift: nat): nat {
    if levels == 0 then 1
    else if shift == 10 then (if levels == 1 then 0x100 else if levels == 2 then 0x1_0000 else 0x100_0000)
    else if shift == 11 then (if levels == 1 then 0x200 else if levels == 2 then 0x4_0000 else 0x800_0000)
    else (if levels == 1 then 0x400 else if levels == 2 then 0x10_0000 else 0x4000_0000)
  }

  function Quotient(b: nat, levels: nat, shift: nat): nat {
    if levels == 0 then b
    else if shift == 10 then (if levels == 1 then b / 0x100 else if levels == 2 then b / 0x1_0000 else b / 0x100_0000)
    else if shift == 11 then (if levels == 1 then b / 0x200 else if levels == 2 then b / 0x4_0000 else b / 0x800_0000)
    else (if levels == 1 then b / 0x400 else if levels == 2 then b / 0x10_0000 else b / 0x4000_0000)
  }

  function Remainder(b: nat, levels: nat, shift: nat): nat {
    if levels == 0 then 0
    else if shift == 10 then (if levels == 1 then b % 0x100 else if levels == 2 then b % 0x1_0000 else b % 0x100_0000)
    else if shift == 11 then (if levels == 1 then b % 0x200 else if levels == 2 then b % 0x4_0000 else b % 0x800_0000)
    else (if levels == 1 then b % 0x400 else if levels == 2 then b % 0x10_0000 else b % 0x4000_0000)
  }

  function LowDigit(b: nat, shift: nat): (d: nat)
    ensures d < Fanout(shift)
  {
    if shift == 10 then b % 0x100 else if shift == 11 then b % 0x200 else b % 0x400
  }

  /** `(b >> (IndirectionShift * level)) & IndirectionMask` */
  function Digit(b: nat, level: nat, shift: nat): (d: nat)
    ensures d < Fanout(shift)
  {
    LowDigit(Quotient(b, level, shift), shift)
  }

  // ----- numbers in the partition -----

  function ByteAt(part: Bytes, pos: nat): Byte {
    if pos < |part| then part[pos] else 0
  }

  /** A little-endian 16-bit number. */
  function U16(part: Bytes, pos: nat): (x: nat)
    ensures x < 0x1_0000
  {
    ByteAt(part, pos) as nat + ByteAt(part, pos + 1) as nat * 0x100
  }

  /** A little-endian 32-bit number. */
  function U32(part: Bytes, pos: nat): (x: nat)
    ensures x < WORD32
  {
    U16(part, pos) + U16(part, pos + 2) * 0x1_0000
  }

  // ----- the block map -----

  /** Where the pointer at `index` in a pointer block is, or where the loader looks for it. */
  function PointerPlace(g: Geometry, block: nat, index: nat): nat {
    var place := BaseOf(block, g.shift) + index * 4;
    if g.narrow then place % 0x1_0000_0000 else place
  }

  /** The pointer at `index` in a pointer block. */
  function PointerAt(part: Bytes, g: Geometry, block: nat, index: nat): (x: nat)
    ensures x < WORD32
  {
    U32(part, PointerPlace(g, block, index))
  }

  /** The slot of data block `b` in the radix tree of `levels` levels below `pointer`. */
  function Slot(part: Bytes, g: Geometry, pointer: nat, b: nat, levels: nat): (slot: nat)
    ensures pointer < WORD32 ==> slot < WORD32
    decreases levels
  {
    if levels == 0 || pointer == 0 then pointer
    else
      Slot(part, g, PointerAt(part, g, pointer, Quotient(b, levels - 1, g.shift)),
           Remainder(b, levels - 1, g.shift), levels - 1)
  }

  /** The first logical block that needs `levels` levels. */
  function FirstOf(levels: nat, shift: nat): nat {
    if levels == 0 then 0
    else if levels == 1 then 12
    else if levels == 2 then 12 + Reach(1, shift)
    else if levels == 3 then 12 + Reach(1, shift) + Reach(2, shift)
    else 12 + Reach(1, shift) + Reach(2, shift) + Reach(3, shift)
  }

  /** How many levels logical block `b` needs; 4 stands for a block beyond the map. */
  function LevelsOf(b: nat, shift: nat): (levels: nat)
    ensures levels <= 4
  {
    if b < 12 then 0
    else if b < FirstOf(2, shift) then 1
    else if b < FirstOf(3, shift) then 2
    else if b < FirstOf(4, shift) then 3
    else 4
  }

  /** Fifteen 32-bit block pointers. */
  predicate InodeOk(inode: Inode) {
    && |inode.direct| == 12 && |inode.indirect| == 3
    && (forall i | 0 <= i < 12 :: inode.direct[i] < WORD32)
    && (forall i | 0 <= i < 3 :: inode.indirect[i] < WORD32)
  }

  /** The volume block that holds logical block `b` of a file; 0 is a hole. */
  function VolumeBlock(part: Bytes, g: Geometry, inode: Inode, b: nat): (block: nat)
    requires InodeOk(inode)
    ensures block < WORD32
  {
    var levels := LevelsOf(b, g.shift);
    if levels == 0 then inode.direct[b]
    else if levels == 4 then 0
    else Slot(part, g, inode.indirect[levels - 1], b - FirstOf(levels, g.shift), levels)
  }

  /** The path of a logical block through the map: its level, and the indexes from the top down. */
  function SlotPath(b: nat, shift: nat): seq<nat> {
    var levels := LevelsOf(b, shift);
    if levels == 0 then [0, b]
    else [levels] + Digits(b - FirstOf(levels, shift), levels, shift)
  }

  function Digits(b: nat, levels: nat, shift: nat): seq<nat>
    decreases levels
  {
    if levels == 0 then []
    else [Quotient(b, levels - 1, shift)] + Digits(Remainder(b, levels - 1, shift), levels - 1, shift)
  }

  // ----- files -----

  /** The byte at `pos` of a file. Holes are zeros. */
  function FileByte(part: Bytes, g: Geometry, inode: Inode, pos: nat): Byte
    requires InodeOk(inode)
  {
    var block := VolumeBlock(part, g, inode, BlockOf(pos, g.shift));
    if block == 0 then 0 else ByteAt(part, BaseOf(block, g.shift) + OffsetOf(pos, g.shift))
  }

  /** The bytes of a file from `pos` on. */
  function FileBytes(part: Bytes, g: Geometry, inode: Inode, pos: nat, count: nat): (r: Bytes)
    requires InodeOk(inode)
    ensures |r| == count
  {
    seq<Byte>(count, k requires 0 <= k < count => FileByte(part, g, inode, pos + k))
  }

  function TypeOf(inode: Inode): nat {
    inode.mode / 0x1000
  }

  /** BiInodeSize: the upper half counts only for what is not a directory. */
  function SizeOf(g: Geometry, inode: Inode): nat {
    if g.size64 && TypeOf(inode) != TYPE_DIR then inode.size + inode.sizeUpper * 0x1_0000_0000 else inode.size
  }

  function Pointers(part: Bytes, pos: nat, n: nat): (r: seq<nat>)
    ensures |r| == n && forall k | 0 <= k < n :: r[k] == U32(part, pos + 4 * k)
  {
    seq(n, k requires 0 <= k < n => U32(part, pos + 4 * k))
  }

  function InodeAt(part: Bytes, pos: nat): (inode: Inode)
    ensures InodeOk(inode)
  {
    Inode(U16(part, pos), U32(part, pos + 4), Pointers(part, pos + 40, 12), Pointers(part, pos + 88, 3),
          U32(part, pos + 108))
  }

  /** `number - 1` in 32 bits. */
  function InodeIndex(number: nat): nat {
    if number == 0 then WORD32 - 1 else number - 1
  }

  function Div(a: nat, b: nat): nat
    requires b > 0
  {
    a / b
  }

  function Mod(a: nat, b: nat): nat
    requires b > 0
  {
    a % b
  }

  function Times(a: nat, b: nat): nat {
    a * b
  }

  /** Where the descriptor of the group of inode `number` is. */
  function DescriptorPlace(g: Geometry, number: nat): nat
    requires g.groupInodes > 0
  {
    g.descriptors + Div(InodeIndex(number), g.groupInodes) * 32
  }

  /** Where inode `number` is: the group descriptor gives the block of the group's inode table. */
  function InodePlace(part: Bytes, g: Geometry, number: nat): nat
    requires g.groupInodes > 0
  {
    var table := U32(part, DescriptorPlace(g, number) + 8);
    BaseOf(table, g.shift) + Times(Mod(InodeIndex(number), g.groupInodes), Pow2(g.inodeShift))
  }

  function InodeNumber(part: Bytes, g: Geometry, number: nat): (inode: Inode)
    requires g.groupInodes > 0
    ensures InodeOk(inode)
  {
    InodeAt(part, InodePlace(part, g, number))
  }

  // ----- directories -----

  /** `struct BiEntry` and the name behind it. */
  datatype Record = Record(inode: nat, size: nat, nameLength: nat, kind: nat, name: Bytes)

  function RecordAt(part: Bytes, g: Geometry, dir: Inode, pos: nat): Record
    requires InodeOk(dir)
  {
    var head := FileBytes(part, g, dir, pos, 8);
    var nameLength := head[6];
    Record(U32(head, 0), U16(head, 4), nameLength, head[7], FileBytes(part, g, dir, pos + 8, nameLength))
  }

  /** The records from `pos` on fill the directory exactly. */
  ghost predicate WellFormed(part: Bytes, g: Geometry, dir: Inode, pos: nat)
    requires InodeOk(dir)
    decreases SizeOf(g, dir) - pos
  {
    pos == SizeOf(g, dir) ||
    (var record := RecordAt(part, g, dir, pos);
     record.size >= 8 && pos + record.size <= SizeOf(g, dir) &&
     (record.inode != 0 ==> 8 + record.nameLength <= record.size) && WellFormed(part, g, dir, pos + record.size))
  }

  function Records(part: Bytes, g: Geometry, dir: Inode, pos: nat): seq<Record>
    requires InodeOk(dir)
    decreases SizeOf(g, dir) - pos
  {
    if SizeOf(g, dir) < pos + 8 then []
    else
      var record := RecordAt(part, g, dir, pos);
      [record] + if record.size == 0 then [] else Records(part, g, dir, pos + record.size)
  }

  /** A record in use with this name. Without the type feature, the type byte must be zero. */
  predicate Matches(g: Geometry, record: Record, name: Bytes) {
    (g.dirTypes || record.kind == 0) && record.inode != 0 && record.nameLength == |name| && record.name == name
  }

  /** The inode number of the first record with this name. */
  function FirstMatch(g: Geometry, records: seq<Record>, name: Bytes): Option<nat> {
    if records == [] then None
    else if Matches(g, records[0], name) then Some(records[0].inode)
    else FirstMatch(g, records[1..], name)
  }

  /** The number a name has in a directory. Longer names are never found. */
  function LookUp(part: Bytes, g: Geometry, dir: Inode, name: Bytes): Option<nat>
    requires InodeOk(dir)
  {
    if |name| > MAX_NAME_LEN then None else FirstMatch(g, Records(part, g, dir, 0), name)
  }

  // ----- paths -----

  function SkipSlashes(path: Bytes): (r: Bytes)
    ensures |r| <= |path| && (r != [] ==> r[0] != SLASH)
  {
    if path == [] || path[0] != SLASH then path else SkipSlashes(path[1..])
  }

  /** The length of the first component. */
  function ComponentLength(path: Bytes): (n: nat)
    ensures n <= |path|
    ensures path != [] && path[0] != SLASH ==> n > 0
  {
    if path == [] || path[0] == SLASH then 0 else 1 + ComponentLength(path[1..])
  }

  function Components(path: Bytes): seq<Bytes>
    decreases |path|
  {
    var p := SkipSlashes(path);
    if p == [] then [] else [p[..ComponentLength(p)]] + Components(p[ComponentLength(p)..])
  }

  /** A path that ends in a slash must name a directory. */
  predicate NeedsDirectory(path: Bytes) {
    path != [] && path[|path| - 1] == SLASH
  }

  /** Resolves the components one by one. A link is resolved from the directory that holds it, and at
      most `MAX_SYMLINKS - 1` links deep. */
  function Walk(part: Bytes, g: Geometry, root: Inode, at: Inode, names: seq<Bytes>, directory: bool, depth: nat)
    : (r: Option<Inode>)
    requires InodeOk(root) && InodeOk(at) && g.groupInodes > 0 && depth < MAX_SYMLINKS
    ensures r.Some? ==> InodeOk(r.value)
    decreases MAX_SYMLINKS - depth, 1, |names|
  {
    if names == [] then
      if directory && TypeOf(at) != TYPE_DIR then None else Some(at)
    else if TypeOf(at) != TYPE_DIR then None
    else
      match Enter(part, g, root, at, names[0], depth)
      case None => None
      case Some(inode) => Walk(part, g, root, inode, names[1..], directory, depth)
  }

  /** What a name in a directory leads to, behind any link. */
  function Enter(part: Bytes, g: Geometry, root: Inode, at: Inode, name: Bytes, depth: nat): (r: Option<Inode>)
    requires InodeOk(root) && InodeOk(at) && g.groupInodes > 0 && depth < MAX_SYMLINKS
    ensures r.Some? ==> InodeOk(r.value)
    decreases MAX_SYMLINKS - depth, 0, 0
  {
    match LookUp(part, g, at, name)
    case None => None
    case Some(number) =>
      var entry := InodeNumber(part, g, number);
      if TypeOf(entry) == TYPE_SYM then Resolve(part, g, root, at, LinkPath(part, g, entry), depth + 1)
      else Some(entry)
  }

  function LinkPath(part: Bytes, g: Geometry, link: Inode): Bytes
    requires InodeOk(link)
  {
    FileBytes(part, g, link, 0, SizeOf(g, link))
  }

  /** Resolves a path. An empty path names nothing, and an absolute one starts at the root. */
  function Resolve(part: Bytes, g: Geometry, root: Inode, at: Inode, path: Bytes, depth: nat): (r: Option<Inode>)
    requires InodeOk(root) && InodeOk(at) && g.groupInodes > 0 && depth <= MAX_SYMLINKS
    ensures r.Some? ==> InodeOk(r.value)
    decreases MAX_SYMLINKS - depth, 2, 0
  {
    if depth == MAX_SYMLINKS || path == [] then None
    else
      Walk(part, g, root, if path[0] == SLASH then root else at, Components(path), NeedsDirectory(path), depth)
  }

  function RegularAt(part: Bytes, g: Geometry, root: Inode, path: Bytes): Option<Inode>
    requires InodeOk(root) && g.groupInodes > 0
  {
    match Resolve(part, g, root, root, path, 0)
    case None => None
    case Some(inode) => if TypeOf(inode) == TYPE_REG then Some(inode) else None
  }

  // ----- well-formed file systems -----

  /** Directories are filled with records that name known inodes, and links have a 32-bit length. */
  ghost predicate InodeFine(part: Bytes, g: Geometry, known: iset<nat>, inode: Inode)
    requires InodeOk(inode)
  {
    && (TypeOf(inode) == TYPE_DIR ==> WellFormed(part, g, inode, 0) && NamesKnown(part, g, known, inode))
    && (TypeOf(inode) == TYPE_SYM ==> SizeOf(g, inode) < WORD32)
  }

  ghost predicate NamesKnown(part: Bytes, g: Geometry, known: iset<nat>, dir: Inode)
    requires InodeOk(dir)
  {
    forall name: Bytes {:trigger LookUp(part, g, dir, name)} | LookUp(part, g, dir, name).Some? ::
      LookUp(part, g, dir, name).value in known
  }

  /** The known inodes are well-formed, and so is everything their directories name. */
  ghost predicate FsFine(part: Bytes, g: Geometry, known: iset<nat>)
    requires g.groupInodes > 0
  {
    forall number: nat {:trigger number in known} | number in known :: InodeFine(part, g, known, InodeNumber(part, g, number))
  }

  // ----- reading a file -----

  /** The checks of BlFsFileRead, with the unsigned difference as the code has it. */
  predicate ReadsFile(position: nat, count: nat, size: nat) {
    count != 0 && position <= size &&
    count <= (if position == size then 0 else 0x1_0000_0000_0000_0000 - (size - position))
  }
}
