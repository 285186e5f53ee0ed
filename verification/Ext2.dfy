/** bootloader/filesystem.c on a partition: its loops compute what Ext2Spec says. */
module Ext2 {
  import opened Basics
  import opened Buffers
  import opened Cache
  import opened Ext2Spec
  import opened Ext2Map
  import opened Ext2Wide

  // ----- slices -----

  lemma {:induction false} SliceNumbers(part: Bytes, pos: nat, s: Bytes, k: nat, n: nat)
    requires pos + n <= |part| && s == part[pos..pos + n] && k + 4 <= n
    ensures U32(s, k) == U32(part, pos + k)
  {
    assert s[k] == part[pos + k] && s[k + 1] == part[pos + k + 1];
    assert s[k + 2] == part[pos + k + 2] && s[k + 3] == part[pos + k + 3];
  }

  lemma {:induction false} SliceHalf(part: Bytes, pos: nat, s: Bytes, n: nat)
    requires pos + n <= |part| && s == part[pos..pos + n] && 2 <= n
    ensures U16(s, 0) == U16(part, pos)
  {
    assert s[0] == part[pos] && s[1] == part[pos + 1];
  }

  /** Decoding a copy of an inode is decoding the inode. */
  lemma {:induction false} SliceInode(part: Bytes, pos: nat, s: Bytes)
    requires pos + 128 <= |part| && s == part[pos..pos + 128]
    ensures InodeAt(s, 0) == InodeAt(part, pos)
  {
    SliceHalf(part, pos, s, 128);
    SliceNumbers(part, pos, s, 4, 128);
    SliceNumbers(part, pos, s, 108, 128);
    SlicePointers(part, pos, s, 40, 12);
    SlicePointers(part, pos, s, 88, 3);
  }

  lemma {:induction false} SlicePointers(part: Bytes, pos: nat, s: Bytes, k: nat, n: nat)
    requires pos + 128 <= |part| && s == part[pos..pos + 128] && k + 4 * n <= 128
    ensures Pointers(s, k, n) == Pointers(part, pos + k, n)
  {
    forall i | 0 <= i < n ensures Pointers(s, k, n)[i] == Pointers(part, pos + k, n)[i] {
      SliceNumbers(part, pos, s, k + 4 * i, 128);
      assert pos + (k + 4 * i) == pos + k + 4 * i;
    }
  }

  // ----- chunks -----

  lemma {:induction false} SameBlock(pos: nat, k: nat, shift: nat)
    requires 10 <= shift <= 12 && OffsetOf(pos, shift) + k < BlockSize(shift)
    ensures BlockOf(pos + k, shift) == BlockOf(pos, shift) && OffsetOf(pos + k, shift) == OffsetOf(pos, shift) + k
  {
  }

  lemma {:induction false} SameSector(pos: nat, offset: nat, sectors: nat)
    requires pos == 512 * sectors + offset
    ensures offset % 512 == pos % 512
  {
  }

  lemma {:induction false} OffsetSectors(pos: nat, offset: nat, shift: nat)
    requires 10 <= shift <= 12 && offset == OffsetOf(pos, shift)
    ensures offset % 512 == pos % 512
  {
    var sectors := if shift == 10 then 2 * (pos / 1024) else if shift == 11 then 4 * (pos / 2048) else 8 * (pos / 4096);
    SameSector(pos, offset, sectors);
  }

  lemma {:induction false} BaseSectors(block: nat, offset: nat, from: nat, shift: nat)
    requires 10 <= shift <= 12 && from == BaseOf(block, shift) + offset
    ensures from % 512 == offset % 512
  {
    var base, k := BaseOf(block, shift), if shift == 10 then 2 * block else if shift == 11 then 4 * block else 8 * block;
    WholeBlocks(base, k);
    WholeSectors(base, offset, from);
  }

  lemma {:induction false} WholeBlocks(base: nat, k: nat)
    requires base == 512 * k
    ensures base % 512 == 0
  {
  }

  lemma {:induction false} EndsInside(part: Bytes, g: Geometry, inode: Inode, pos: nat, n: nat, last: nat)
    requires InodeOk(inode) && 0 < n && last == pos + n - 1 && BytesInside(part, g, inode, pos, n)
    ensures ByteInside(part, g, inode, pos) && ByteInside(part, g, inode, last)
  {
  }

  /** What makes the first and the last byte of a chunk findable. */
  lemma {:induction false} ChunkInside(part: Bytes, g: Geometry, inode: Inode, pos: nat, n: nat, last: nat)
    requires InodeOk(inode) && 10 <= g.shift <= 12 && 0 < n && OffsetOf(pos, g.shift) + n <= BlockSize(g.shift)
    requires last == pos + n - 1
    ensures BytesInside(part, g, inode, pos, n) ==> BlockInside(part, g, inode, BlockOf(pos, g.shift))
    ensures BytesInside(part, g, inode, pos, n) && VolumeBlock(part, g, inode, BlockOf(pos, g.shift)) != 0 ==>
              BaseOf(VolumeBlock(part, g, inode, BlockOf(pos, g.shift)), g.shift) + OffsetOf(pos, g.shift) + n <= |part|
  {
    var b := BlockOf(pos, g.shift);
    SameBlock(pos, n - 1, g.shift);
    assert BlockOf(last, g.shift) == b && OffsetOf(last, g.shift) == OffsetOf(pos, g.shift) + (n - 1);
    if BytesInside(part, g, inode, pos, n) {
      EndsInside(part, g, inode, pos, n, last);
      var v := VolumeBlock(part, g, inode, b);
      assert v != 0 ==> BaseOf(v, g.shift) + OffsetOf(last, g.shift) < |part|;
    }
  }

  lemma {:induction false} PartInside(part: Bytes, g: Geometry, inode: Inode, pos: nat, n: nat, sub: nat, m: nat)
    requires InodeOk(inode) && pos <= sub && sub + m <= pos + n
    ensures BytesInside(part, g, inode, pos, n) ==> BytesInside(part, g, inode, sub, m)
  {
  }

  /** The part of a file that lies in one block. */
  lemma {:induction false} ChunkIs(part: Bytes, g: Geometry, inode: Inode, pos: nat, n: nat, block: nat, from: nat)
    requires InodeOk(inode) && 10 <= g.shift <= 12 && OffsetOf(pos, g.shift) + n <= BlockSize(g.shift)
    requires block == VolumeBlock(part, g, inode, BlockOf(pos, g.shift))
    requires from == BaseOf(block, g.shift) + OffsetOf(pos, g.shift)
    ensures block == 0 ==> FileBytes(part, g, inode, pos, n) == Zeros(n)
    ensures block != 0 && from + n <= |part| ==> FileBytes(part, g, inode, pos, n) == part[from..from + n]
  {
    forall k | 0 <= k < n
      ensures FileBytes(part, g, inode, pos, n)[k] == if block == 0 then 0 else ByteAt(part, from + k)
    {
      SameBlock(pos, k, g.shift);
    }
  }

  lemma {:induction false} FileBytesJoin(part: Bytes, g: Geometry, inode: Inode, pos: nat, n: nat, next: nat, m: nat, all: nat)
    requires InodeOk(inode) && next == pos + n && all == n + m
    ensures FileBytes(part, g, inode, pos, all) == FileBytes(part, g, inode, pos, n) + FileBytes(part, g, inode, next, m)
  {
    var a, b := FileBytes(part, g, inode, pos, n), FileBytes(part, g, inode, next, m);
    forall k | 0 <= k < all ensures FileBytes(part, g, inode, pos, all)[k] == (a + b)[k] {
      assert k >= n ==> pos + k == next + (k - n);
    }
  }

  /** A read around the cache needs whole sectors: it fails if it starts or ends inside one that is on the disk. */
  ghost predicate Ragged(part: Bytes, g: Geometry, inode: Inode, position: nat, size: nat)
    requires InodeOk(inode) && size > 0
  {
    (position % 512 != 0 && Present(part, g, inode, position)) ||
    ((position + size) % 512 != 0 && Present(part, g, inode, position + size - 1))
  }

  /** The block of a file that holds `position` is on the disk. */
  ghost predicate Present(part: Bytes, g: Geometry, inode: Inode, position: nat)
    requires InodeOk(inode)
  {
    VolumeBlock(part, g, inode, BlockOf(position, g.shift)) != 0
  }

  /** How much of a read one block serves. */
  function StepIn(position: nat, size: nat, shift: nat): (n: nat)
    ensures n <= size && OffsetOf(position, shift) + n <= BlockSize(shift) && (size > 0 ==> n > 0)
  {
    if size < BlockSize(shift) - OffsetOf(position, shift) then size else BlockSize(shift) - OffsetOf(position, shift)
  }

  /** Between two chunks a read is at the start of a block. */
  predicate AtChunk(position: nat, done: nat, size: nat, shift: nat) {
    done == 0 || done == size || OffsetOf(position + done, shift) == 0
  }

  /** The first `done` bytes have been read, and nothing else was touched. */
  ghost predicate ReadTo(part: Bytes, g: Geometry, inode: Inode, before: Bytes, out: Bytes, at: nat, size: nat,
                         position: nat, done: nat)
    requires InodeOk(inode)
  {
    && done <= size && Only(before, out, at, at + size)
    && Occurs(out, at, FileBytes(part, g, inode, position, done)) && AtChunk(position, done, size, g.shift)
  }

  lemma {:induction false} SectorSum(a: nat, n: nat, sum: nat)
    requires sum == a + n
    ensures a % 512 == 0 ==> sum % 512 == n % 512
    ensures n % 512 == 0 ==> sum % 512 == a % 512
  {
    if a % 512 == 0 {
      SameSector(sum, n, a / 512);
    }
    if n % 512 == 0 {
      SameSector(sum, a, n / 512);
    }
  }

  lemma {:induction false} ChunkEnds(pos: nat, rest: nat, step: nat, shift: nat, next: nat)
    requires 10 <= shift <= 12 && rest > 0 && step == StepIn(pos, rest, shift) && next == pos + step
    ensures step == rest || OffsetOf(next, shift) == 0
    ensures pos % 512 == 0 && step < rest ==> step % 512 == 0
    ensures BlockOf(next - 1, shift) == BlockOf(pos, shift)
  {
    var offset := OffsetOf(pos, shift);
    SameBlock(pos, step - 1, shift);
    if step < rest {
      assert step == BlockSize(shift) - offset;
      NextBlock(pos, offset, next, shift);
      OffsetSectors(pos, offset, shift);
      WholeRest(offset, step, shift);
    }
  }

  lemma {:induction false} NextBlock(pos: nat, offset: nat, next: nat, shift: nat)
    requires 10 <= shift <= 12 && offset == OffsetOf(pos, shift) && next == pos + (BlockSize(shift) - offset)
    ensures OffsetOf(next, shift) == 0
  {
    var q := BlockOf(pos, shift) + 1;
    assert next == q * BlockSize(shift) by {
      assert pos == BlockOf(pos, shift) * BlockSize(shift) + offset;
    }
  }

  lemma {:induction false} WholeRest(offset: nat, step: nat, shift: nat)
    requires 10 <= shift <= 12 && offset <= BlockSize(shift) && step == BlockSize(shift) - offset
    ensures offset % 512 == 0 ==> step % 512 == 0
  {
  }

  /** A chunk that is not made of whole sectors is the first or the last one. */
  lemma {:induction false} ChunkRagged(part: Bytes, g: Geometry, inode: Inode, position: nat, size: nat, done: nat, pos: nat,
                                       rest: nat, step: nat, done': nat)
    requires InodeOk(inode) && 10 <= g.shift <= 12 && done < size && AtChunk(position, done, size, g.shift)
    requires pos == position + done && rest == size - done && step == StepIn(pos, rest, g.shift) && done' == done + step
    ensures Present(part, g, inode, pos) && !Sectors(pos, step) ==> Ragged(part, g, inode, position, size)
    ensures AtChunk(position, done', size, g.shift) && done < done' <= size
  {
    var next := pos + step;
    ChunkEnds(pos, rest, step, g.shift, next);
    SectorSum(pos, step, next);
    if done > 0 {
      OffsetSectors(pos, 0, g.shift);
    }
  }

  /** Nothing ragged has been met at the start of a read. */
  ghost predicate StartServed(part: Bytes, g: Geometry, inode: Inode, position: nat)
    requires InodeOk(inode)
  {
    position % 512 != 0 ==> !Present(part, g, inode, position)
  }

  lemma {:induction false} LastPresent(part: Bytes, g: Geometry, inode: Inode, pos: nat, last: nat)
    requires InodeOk(inode) && BlockOf(last, g.shift) == BlockOf(pos, g.shift)
    ensures Present(part, g, inode, last) == Present(part, g, inode, pos)
  {
  }

  lemma {:induction false} RaggedIs(part: Bytes, g: Geometry, inode: Inode, position: nat, size: nat, end: nat, last: nat)
    requires InodeOk(inode) && size > 0 && end == position + size && last == end - 1
    ensures Ragged(part, g, inode, position, size) <==>
            (position % 512 != 0 && Present(part, g, inode, position)) || (end % 512 != 0 && Present(part, g, inode, last))
  {
  }

  /** Once all chunks were served, the read was not ragged. */
  lemma {:induction false} ChunkServed(part: Bytes, g: Geometry, inode: Inode, position: nat, size: nat, done: nat, pos: nat,
                                       rest: nat, step: nat)
    requires InodeOk(inode) && 10 <= g.shift <= 12 && done < size && AtChunk(position, done, size, g.shift)
    requires pos == position + done && rest == size - done && step == StepIn(pos, rest, g.shift)
    requires Present(part, g, inode, pos) ==> Sectors(pos, step)
    requires done > 0 ==> StartServed(part, g, inode, position)
    ensures StartServed(part, g, inode, position)
    ensures step == rest ==> !Ragged(part, g, inode, position, size)
  {
    var next := pos + step;
    var last := next - 1;
    ChunkEnds(pos, rest, step, g.shift, next);
    SectorSum(pos, step, next);
    LastPresent(part, g, inode, pos, last);
    if step == rest {
      RaggedIs(part, g, inode, position, size, next, last);
    }
  }

  /** Whole sectors. */
  predicate Sectors(position: nat, size: nat) {
    position % 512 == 0 && size % 512 == 0
  }

  lemma {:induction false} ReadToNext(part: Bytes, g: Geometry, inode: Inode, before: Bytes, mid: Bytes, out: Bytes,
                                      at: nat, size: nat, position: nat, done: nat, here: nat, pos: nat, step: nat,
                                      done': nat)
    requires InodeOk(inode) && ReadTo(part, g, inode, before, mid, at, size, position, done) && done' <= size
    requires here == at + done && pos == position + done && done' == done + step && Only(before, out, at, at + size)
    requires Only(mid, out, here, here + step) && Occurs(out, here, FileBytes(part, g, inode, pos, step))
    requires AtChunk(position, done', size, g.shift)
    ensures ReadTo(part, g, inode, before, out, at, size, position, done')
  {
    FileBytesJoin(part, g, inode, position, done, pos, step, done');
    Appended(mid, out, at, FileBytes(part, g, inode, position, done), FileBytes(part, g, inode, pos, step), here,
             here + step);
  }

  class FileSystem {
    const part: Partition
    const g: Geometry
    const root: Inode
    ghost const known: iset<nat>

    ghost function Contents(): Bytes
      requires part.start + part.size <= |part.cache.disk|
    {
      part.Contents()
    }

    /** A mounted file system whose directories are well-formed. */
    ghost predicate Valid()
      reads part.cache, part.cache.data
    {
      && part.Valid() && GeometryOk(g) && g.narrow && InodeOk(root)
      && InodeFine(Contents(), g, known, root) && FsFine(Contents(), g, known)
    }

    /** Everything that path resolution may read is inside the partition, and can be read. */
    ghost predicate Intact()
      requires part.start + part.size <= |part.cache.disk| && g.groupInodes > 0 && InodeOk(root)
    {
      part.Healthy() && FsInside(Contents(), g, known, root)
    }

    constructor (part: Partition, g: Geometry, root: Inode, ghost known: iset<nat>)
      ensures this.part == part && this.g == g && this.root == root && this.known == known
    {
      this.part, this.g, this.root, this.known := part, g, root, known;
    }

    /** A small read through the cache into memory of its own. */
    method ReadBytes(position: nat, count: nat) returns (s: Bytes, crashed: bool)
      requires Valid() && position < WRAP && count < WORD32
      modifies part.cache, part.cache.data
      ensures crashed ==> !part.Healthy() || position + count > |Contents()|
      ensures !crashed ==> Valid() && position + count <= |Contents()| && s == Contents()[position..position + count]
    {
      var buffer := new Byte[count];
      crashed := part.Read(buffer, 0, position, count, false);
      s := buffer[..];
      assert buffer[0..count] == s;
    }

    /** BiReadFromPointerBlock: the address is computed in 32 bits. */
    method ReadFromPointerBlock(block: nat, index: nat) returns (value: nat, crashed: bool)
      requires Valid() && block < WORD32 && index < Fanout(g.shift)
      modifies part.cache, part.cache.data
      ensures crashed ==> !part.Healthy() || !PointerInside(Contents(), g, block, index)
      ensures !crashed ==> Valid() && value == PointerAt(Contents(), g, block, index)
    {
      var position := (BaseOf(block, g.shift) + index * 4) % 0x1_0000_0000;
      assert position == PointerPlace(g, block, index);
      var s;
      s, crashed := ReadBytes(position, 4);
      if !crashed {
        SliceNumbers(Contents(), position, s, 0, 4);
      }
      value := U32(s, 0);
    }

    /** The level search of BiGetInodeBlockBase. */
    method FindLevel(block: nat) returns (b: nat, level: nat)
      requires GeometryOk(g) && block >= 12
      ensures level <= 3 && LevelsOf(block, g.shift) == level + 1
      ensures level < 3 ==> b == block - FirstOf(level + 1, g.shift) && b < Reach(level + 1, g.shift)
    {
      b, level := block - 12, 0;
      var blocks := Fanout(g.shift);
      while level < 3
        invariant level <= 3 && b + FirstOf(level + 1, g.shift) == block
        invariant level < 3 ==> blocks == Reach(level + 1, g.shift)
      {
        if b < blocks {
          break;
        }
        b := b - blocks;
        blocks := Widen(blocks, g.shift);
        level := level + 1;
        assert level < 3 ==> blocks == Reach(level + 1, g.shift) by {
          if level < 3 {
            WidenIsReach(level, g.shift);
          }
        }
      }
    }

    /** BiGetInodeBlockBase: the level search and the digit walk read the slot of the radix tree. */
    method GetInodeBlockBase(inode: Inode, block: nat) returns (base: nat, crashed: bool)
      requires Valid() && InodeOk(inode)
      modifies part.cache, part.cache.data
      ensures !crashed ==> Valid() && base == VolumeBlock(Contents(), g, inode, block)
      ensures !crashed && BlockLow(Contents(), g, inode, block) ==> base == VolumeBlock(Contents(), Wide(g), inode, block)
      ensures LevelsOf(block, g.shift) == 4 ==> crashed
      ensures crashed ==> !part.Healthy() || !BlockInside(Contents(), g, inode, block)
    {
      BlockSeen(Contents(), g, inode, block);
      if block < 12 {
        return inode.direct[block], false;
      }
      var b, level := FindLevel(block);
      if level >= 3 {
        return 0, true;
      }
      var top, levels := inode.indirect[level], level + 1;
      BlockByDigits(Contents(), g, inode, block, levels, top, b);
      base, crashed := WalkDigits(top, b, levels);
    }

    /** The digit walk, from the top level down. */
    method WalkDigits(top: nat, b: nat, levels: nat) returns (pointer: nat, crashed: bool)
      requires Valid() && top < WORD32
      modifies part.cache, part.cache.data
      ensures crashed ==> !part.Healthy() || !DescendInside(Contents(), g, top, b, levels)
      ensures !crashed ==> Valid() && pointer == Descend(Contents(), g, top, b, levels)
    {
      var level: nat := levels;
      pointer, crashed := top, false;
      while level > 0
        invariant level <= levels && Valid() && pointer < WORD32
        invariant Descend(Contents(), g, pointer, b, level) == Descend(Contents(), g, top, b, levels)
        invariant DescendInside(Contents(), g, top, b, levels) ==> DescendInside(Contents(), g, pointer, b, level)
      {
        if pointer == 0 {
          break;
        }
        level := level - 1;
        pointer, crashed := ReadFromPointerBlock(pointer, Digit(b, level, g.shift));
        if crashed {
          return;
        }
      }
    }

    /** Why reading from a file may crash. */
    ghost predicate Unreadable(inode: Inode, position: nat, size: nat, bypassCache: bool)
      requires InodeOk(inode) && part.start + part.size <= |part.cache.disk|
    {
      || !part.Healthy() || !BytesInside(Contents(), g, inode, position, size)
      || (bypassCache && size > 0 && Ragged(Contents(), g, inode, position, size))
    }

    /** BiReadFromInode: fills the buffer with exactly that slice of the file, holes as zeros. On a file that lies
        inside a readable partition it crashes exactly if it is to read parts of sectors around the cache. */
    method ReadFromInode(inode: Inode, out: array<Byte>, at: nat, size: nat, position: nat, bypassCache: bool)
      returns (crashed: bool)
      requires Valid() && InodeOk(inode) && out != part.cache.data && at + size <= out.Length && size < WORD32
      modifies part.cache, part.cache.data, out
      ensures Only(old(out[..]), out[..], at, at + size)
      ensures crashed ==> Unreadable(inode, position, size, bypassCache)
      ensures bypassCache && size > 0 && Ragged(Contents(), g, inode, position, size) ==> crashed
      ensures !crashed ==> Valid() && Occurs(out[..], at, FileBytes(Contents(), g, inode, position, size))
      ensures !crashed && RangeLow(Contents(), g, inode, position, size) ==>
                Occurs(out[..], at, FileBytes(Contents(), Wide(g), inode, position, size))
    {
      ghost var before := out[..];
      var done := 0;
      while done < size
        invariant Valid() && ReadTo(Contents(), g, inode, before, out[..], at, size, position, done)
        invariant bypassCache && done > 0 ==> StartServed(Contents(), g, inode, position)
        invariant bypassCache && 0 < done == size ==> !Ragged(Contents(), g, inode, position, size)
        decreases size - done
      {
        done, crashed := ReadMore(inode, out, at, size, position, bypassCache, done, before);
        if crashed {
          return;
        }
      }
      crashed := false;
      if RangeLow(Contents(), g, inode, position, size) {
        BytesTrue(Contents(), g, inode, position, size);
      }
    }

    method ReadMore(inode: Inode, out: array<Byte>, at: nat, size: nat, position: nat, bypassCache: bool, done: nat,
                    ghost before: Bytes)
      returns (done': nat, crashed: bool)
      requires Valid() && InodeOk(inode) && out != part.cache.data && at + size <= out.Length && size < WORD32
      requires ReadTo(Contents(), g, inode, before, out[..], at, size, position, done) && done < size
      requires bypassCache && done > 0 ==> StartServed(Contents(), g, inode, position)
      modifies part.cache, part.cache.data, out
      ensures Only(before, out[..], at, at + size)
      ensures crashed ==> Unreadable(inode, position, size, bypassCache)
      ensures !crashed ==> Valid() && done < done' && ReadTo(Contents(), g, inode, before, out[..], at, size, position, done')
      ensures !crashed && bypassCache ==> StartServed(Contents(), g, inode, position)
      ensures !crashed && bypassCache && done' == size ==> !Ragged(Contents(), g, inode, position, size)
    {
      var here, pos, rest := at + done, position + done, size - done;
      ghost var mid := out[..];
      var step;
      step, crashed := ReadChunk(inode, out, here, rest, pos, bypassCache);
      done' := done + step;
      ChunkRagged(Contents(), g, inode, position, size, done, pos, rest, step, done');
      PartInside(Contents(), g, inode, position, size, pos, step);
      ghost var top := at + size;
      OnlyWider(mid, out[..], here, here + step, at, top);
      OnlyTrans(before, mid, out[..], at, top);
      if crashed {
        return;
      }
      if bypassCache {
        ChunkServed(Contents(), g, inode, position, size, done, pos, rest, step);
      }
      ReadToNext(Contents(), g, inode, before, mid, out[..], at, size, position, done, here, pos, step, done');
    }

    /** One round of the loop: the rest of one block. */
    method ReadChunk(inode: Inode, out: array<Byte>, at: nat, size: nat, position: nat, bypassCache: bool)
      returns (step: nat, crashed: bool)
      requires Valid() && InodeOk(inode) && out != part.cache.data && at + size <= out.Length && 0 < size < WORD32
      modifies part.cache, part.cache.data, out
      ensures step == StepIn(position, size, g.shift) && Only(old(out[..]), out[..], at, at + step)
      ensures crashed ==> || !part.Healthy() || !BytesInside(Contents(), g, inode, position, step)
                          || (bypassCache && Present(Contents(), g, inode, position) && !Sectors(position, step))
      ensures bypassCache && Present(Contents(), g, inode, position) && !Sectors(position, step) ==> crashed
      ensures !crashed ==> Valid() && Occurs(out[..], at, FileBytes(Contents(), g, inode, position, step))
    {
      var block, offset := BlockOf(position, g.shift), OffsetOf(position, g.shift);
      step := if size < BlockSize(g.shift) - offset then size else BlockSize(g.shift) - offset;
      var volume;
      OffsetSectors(position, offset, g.shift);
      ghost var last := position + step - 1;
      ChunkInside(Contents(), g, inode, position, step, last);
      volume, crashed := GetInodeBlockBase(inode, block);
      if crashed {
        return;
      }
      var from := BaseOf(volume, g.shift) + offset;
      BaseSectors(volume, offset, from, g.shift);
      ChunkIs(Contents(), g, inode, position, step, volume, from);
      if volume != 0 {
        crashed := part.Read(out, at, from, step, bypassCache);
      } else {
        CopyMemory(out, at, Zeros(step));
      }
    }

    /** A small read from a file into memory of its own. */
    method ReadFileBytes(inode: Inode, position: nat, count: nat) returns (s: Bytes, crashed: bool)
      requires Valid() && InodeOk(inode) && count < WORD32
      modifies part.cache, part.cache.data
      ensures crashed ==> !part.Healthy() || !BytesInside(Contents(), g, inode, position, count)
      ensures !crashed ==> Valid() && s == FileBytes(Contents(), g, inode, position, count)
    {
      var buffer := new Byte[count];
      crashed := ReadFromInode(inode, buffer, 0, count, position, false);
      s := buffer[..];
      assert buffer[0..count] == s;
    }

    /** BiReadInode */
    method ReadInode(number: nat) returns (inode: Inode, crashed: bool)
      requires Valid() && number < WORD32
      modifies part.cache, part.cache.data
      ensures InodeOk(inode)
      ensures crashed ==> !part.Healthy() || !InodeInside(Contents(), g, number)
      ensures !crashed ==> Valid() && inode == InodeNumber(Contents(), g, number)
    {
      var place, index := DescriptorPlace(g, number), Mod(InodeIndex(number), g.groupInodes);
      var descriptor, raw;
      DescriptorBound(g, number);
      descriptor, crashed := ReadBytes(place, 20);
      if crashed {
        return root, true;
      }
      var table := U32(descriptor, 8);
      SliceNumbers(Contents(), place, descriptor, 8, 20);
      var location := BaseOf(table, g.shift) + Times(index, Pow2(g.inodeShift));
      PlaceFits(Contents(), g, number, place, index, table, location);
      raw, crashed := ReadBytes(location, 128);
      if !crashed {
        SliceInode(Contents(), location, raw);
      }
      inode := InodeAt(raw, 0);
    }

    // ----- directories -----

    /** BiFindEntryInDirectory: the inode number of the first record with the name. */
    method FindEntryInDirectory(dir: Inode, name: Bytes) returns (found: Option<nat>, crashed: bool)
      requires Valid() && InodeOk(dir) && WellFormed(Contents(), g, dir, 0)
      modifies part.cache, part.cache.data
      ensures crashed ==> !part.Healthy() || !BytesInside(Contents(), g, dir, 0, SizeOf(g, dir))
      ensures !crashed ==> Valid() && found == LookUp(Contents(), g, dir, name)
      ensures !crashed && AllLow(Contents(), g, dir) ==> found == LookUp(Contents(), Wide(g), dir, name)
      ensures !crashed && found.Some? ==> found.value < WORD32
    {
      if |name| > MAX_NAME_LEN {
        return None, false;
      }
      var offset: nat, total := 0, SizeOf(g, dir);
      ghost var expected := LookUp(Contents(), g, dir, name);
      if AllLow(Contents(), g, dir) {
        LookUpTrue(Contents(), g, dir, name);
      }
      while total - offset >= 8
        invariant Valid() && Searching(Contents(), g, dir, offset, name, expected)
        decreases total - offset
      {
        var inode, size, matches;
        inode, size, matches, crashed := TryRecord(dir, offset, name);
        if crashed {
          return None, true;
        }
        var next := offset + size;
        SearchStep(Contents(), g, dir, offset, name, expected, next);
        if matches {
          return Some(inode), false;
        }
        offset := next;
      }
      SearchEnds(Contents(), g, dir, offset, name, expected);
      return None, false;
    }

    /** Reads one record, and its name when it may match. */
    method TryRecord(dir: Inode, offset: nat, name: Bytes)
      returns (inode: nat, size: nat, matches: bool, crashed: bool)
      requires Valid() && InodeOk(dir) && |name| <= MAX_NAME_LEN
      requires WellFormed(Contents(), g, dir, offset) && offset + 8 <= SizeOf(g, dir)
      modifies part.cache, part.cache.data
      ensures crashed ==> !part.Healthy() || !BytesInside(Contents(), g, dir, 0, SizeOf(g, dir))
      ensures !crashed ==> Valid() && inode == RecordAt(Contents(), g, dir, offset).inode
                           && size == RecordAt(Contents(), g, dir, offset).size
                           && matches == Matches(g, RecordAt(Contents(), g, dir, offset), name)
      ensures inode < WORD32
    {
      var head, buffer;
      PartInside(Contents(), g, dir, 0, SizeOf(g, dir), offset, 8);
      head, crashed := ReadFileBytes(dir, offset, 8);
      inode, size, matches := U32(head, 0), U16(head, 4), false;
      if crashed {
        return;
      }
      if g.dirTypes || head[7] == 0 {
        if inode != 0 && head[6] == |name| {
          PartInside(Contents(), g, dir, 0, SizeOf(g, dir), offset + 8, |name|);
          buffer, crashed := ReadFileBytes(dir, offset + 8, |name|);
          matches := buffer == name;
        }
      }
    }

    // ----- paths -----

    /** An inode the walk may stand at. */
    ghost predicate Usable(inode: Inode)
      requires part.start + part.size <= |part.cache.disk|
    {
      InodeOk(inode) && InodeFine(Contents(), g, known, inode)
    }

    /** Looks a name up, and follows it when it is a link. */
    method EnterName(dir: Inode, name: Bytes, depth: nat) returns (next: Option<Inode>, crashed: bool)
      requires Valid() && Usable(dir) && TypeOf(dir) == TYPE_DIR && depth < MAX_SYMLINKS
      modifies part.cache, part.cache.data
      ensures crashed ==> !Intact() || !Findable(Contents(), g, dir)
      ensures !crashed ==> Valid() && next == Enter(Contents(), g, root, dir, name, depth)
      ensures !crashed && next.Some? ==> Usable(next.value) && (Intact() && Findable(Contents(), g, dir) ==> Findable(Contents(), g, next.value))
      decreases MAX_SYMLINKS - depth, 0
    {
      var number, inode;
      number, crashed := FindEntryInDirectory(dir, name);
      if crashed || number.None? {
        return None, crashed;
      }
      inode, crashed := ReadInode(number.value);
      if crashed {
        return None, true;
      }
      assert InodeFine(Contents(), g, known, InodeNumber(Contents(), g, number.value));
      if TypeOf(inode) != TYPE_SYM {
        return Some(inode), false;
      }
      var link;
      link, crashed := ReadFileBytes(inode, 0, SizeOf(g, inode));
      if crashed {
        return None, true;
      }
      next, crashed := FindInode(dir, link, depth + 1);
    }

    /** BiFindInode: terminates, and finds exactly what resolving the path component by component finds. */
    method FindInode(start: Inode, path: Bytes, depth: nat) returns (found: Option<Inode>, crashed: bool)
      requires Valid() && Usable(start) && depth <= MAX_SYMLINKS
      modifies part.cache, part.cache.data
      ensures crashed ==> !Intact() || !Findable(Contents(), g, start)
      ensures !crashed ==> Valid() && found == Resolve(Contents(), g, root, start, path, depth)
      ensures !crashed && ResolveLow(Contents(), g, root, start, path, depth) ==>
                found == Resolve(Contents(), Wide(g), root, start, path, depth)
      ensures !crashed && found.Some? ==> Usable(found.value) && (Intact() && Findable(Contents(), g, start) ==> Findable(Contents(), g, found.value))
      decreases MAX_SYMLINKS - depth, 1
    {
      ResolveSeen(Contents(), g, known, root, start, path, depth);
      if depth == MAX_SYMLINKS || path == [] {
        return None, false;
      }
      var inode, rest := if path[0] == SLASH then root else start, path;
      ghost var expected := Resolve(Contents(), g, root, start, path, depth);
      while |rest| > 0
        invariant Valid() && Usable(inode) && Ahead(Contents(), g, root, inode, rest, depth, expected)
        invariant Intact() && Findable(Contents(), g, start) ==> Findable(Contents(), g, inode)
        decreases |rest|
      {
        if TypeOf(inode) != TYPE_DIR {
          NotDirectory(Contents(), g, root, inode, rest, depth, expected);
          return None, false;
        }
        var name, next;
        name, rest := TakeComponent(rest, Contents(), g, root, inode, depth, expected);
        if name == [] {
          return Some(inode), false;
        }
        next, crashed := EnterName(inode, name, depth);
        if crashed || next.None? {
          return None, crashed;
        }
        inode := next.value;
      }
      return Some(inode), false;
    }

    /** BlFsFind: a path from the root that ends at a regular file. */
    method Find(path: Bytes) returns (file: Option<Inode>, crashed: bool)
      requires Valid()
      modifies part.cache, part.cache.data
      ensures crashed ==> !Intact()
      ensures !crashed ==> Valid() && file == RegularAt(Contents(), g, root, path)
      ensures !crashed && ResolveLow(Contents(), g, root, root, path, 0) ==> file == RegularAt(Contents(), Wide(g), root, path)
      ensures !crashed && |Contents()| <= WORD32 && FsInside(Contents(), Wide(g), known, root) ==>
                file == RegularAt(Contents(), Wide(g), root, path)
    {
      SmallResolves(Contents(), g, known, root, root, path, 0);
      file, crashed := FindInode(root, path, 0);
      if !crashed && file.Some? && TypeOf(file.value) != TYPE_REG {
        file := None;
      }
    }

    /** BlFsFileRead: the checks decide whether anything is read, and then all of it is. */
    method FileRead(file: Inode, out: array<Byte>, at: nat, count: nat, position: nat, bypassCache: bool)
      returns (crashed: bool)
      requires Valid() && InodeOk(file) && out != part.cache.data && at + count <= out.Length && count < WORD32
      requires SizeOf(g, file) < WRAP
      modifies part.cache, part.cache.data, out
      ensures !crashed ==> Valid()
      ensures !crashed && ReadsFile(position, count, SizeOf(g, file)) ==>
                && Occurs(out[..], at, FileBytes(Contents(), g, file, position, count))
                && Only(old(out[..]), out[..], at, at + count)
      ensures !crashed && ReadsFile(position, count, SizeOf(g, file)) && RangeLow(Contents(), g, file, position, count) ==>
                Occurs(out[..], at, FileBytes(Contents(), Wide(g), file, position, count))
      ensures !ReadsFile(position, count, SizeOf(g, file)) ==> !crashed && out[..] == old(out[..])
      ensures crashed ==> Unreadable(file, position, count, bypassCache)
      ensures ReadsFile(position, count, SizeOf(g, file)) && bypassCache && Ragged(Contents(), g, file, position, count) ==> crashed
    {
      if count == 0 {
        return false;
      }
      var fileSize := SizeOf(g, file);
      if position > fileSize {
        return false;
      }
      var avail := if position < fileSize then position - fileSize + 0x1_0000_0000_0000_0000 else position - fileSize;
      if count > avail {
        return false;
      }
      crashed := ReadFromInode(file, out, at, count, position, bypassCache);
    }
  }

  /** What is left of the path leads from `at` to what the whole path leads to. */
  ghost predicate Ahead(part: Bytes, g: Geometry, root: Inode, at: Inode, rest: Bytes, depth: nat, expected: Option<Inode>)
    requires InodeOk(root) && InodeOk(at) && g.groupInodes > 0 && depth < MAX_SYMLINKS
  {
    expected == Walk(part, g, root, at, Components(rest), NeedsDirectory(rest), depth)
  }

  /** The path can be followed through `name` and then on along `rest`. */
  ghost predicate Behind(part: Bytes, g: Geometry, root: Inode, at: Inode, name: Bytes, rest: Bytes, depth: nat,
                         expected: Option<Inode>)
    requires InodeOk(root) && InodeOk(at) && g.groupInodes > 0 && depth < MAX_SYMLINKS
  {
    match Enter(part, g, root, at, name, depth)
    case None => expected == None
    case Some(inode) => Ahead(part, g, root, inode, rest, depth, expected)
  }

  lemma {:induction false} SlashesOnly(path: Bytes)
    requires path != [] && SkipSlashes(path) == []
    ensures NeedsDirectory(path)
  {
    if |path| > 1 {
      SlashesOnly(path[1..]);
    }
  }

  lemma {:induction false} SameEnd(path: Bytes, n: nat)
    requires n < |path|
    ensures NeedsDirectory(path[n..]) == NeedsDirectory(path)
  {
  }

  lemma {:induction false} SkipKeepsEnd(path: Bytes)
    requires SkipSlashes(path) != []
    ensures NeedsDirectory(SkipSlashes(path)) == NeedsDirectory(path)
  {
    if path[0] == SLASH {
      SkipKeepsEnd(path[1..]);
      SameEnd(path, 1);
    }
  }

  lemma {:induction false} NotDirectory(part: Bytes, g: Geometry, root: Inode, at: Inode, rest: Bytes, depth: nat,
                                        expected: Option<Inode>)
    requires InodeOk(root) && InodeOk(at) && g.groupInodes > 0 && depth < MAX_SYMLINKS
    requires Ahead(part, g, root, at, rest, depth, expected) && rest != [] && TypeOf(at) != TYPE_DIR
    ensures expected == None
  {
    if SkipSlashes(rest) == [] {
      SlashesOnly(rest);
    }
  }

  lemma {:induction false} NoName(part: Bytes, g: Geometry, root: Inode, at: Inode, rest: Bytes, depth: nat,
                                  expected: Option<Inode>)
    requires InodeOk(root) && InodeOk(at) && g.groupInodes > 0 && depth < MAX_SYMLINKS
    requires Ahead(part, g, root, at, rest, depth, expected) && TypeOf(at) == TYPE_DIR && SkipSlashes(rest) == []
    ensures expected == Some(at)
  {
  }

  lemma {:induction false} OneName(part: Bytes, g: Geometry, root: Inode, at: Inode, rest: Bytes, depth: nat,
                                   expected: Option<Inode>, p: Bytes, n: nat)
    requires InodeOk(root) && InodeOk(at) && g.groupInodes > 0 && depth < MAX_SYMLINKS
    requires Ahead(part, g, root, at, rest, depth, expected) && TypeOf(at) == TYPE_DIR
    requires p == SkipSlashes(rest) && p != [] && n == ComponentLength(p)
    ensures Behind(part, g, root, at, p[..n], p[n..], depth, expected)
  {
    SkipKeepsEnd(rest);
    var names := Components(rest);
    assert names == [p[..n]] + Components(p[n..]) && names[1..] == Components(p[n..]);
    if n < |p| {
      SameEnd(p, n);
    } else {
      ComponentEnd(p);
    }
  }

  /** A component that ends the path does not end in a slash. */
  lemma {:induction false} ComponentEnd(p: Bytes)
    requires p != [] && ComponentLength(p) == |p|
    ensures !NeedsDirectory(p)
  {
    if |p| > 1 {
      ComponentEnd(p[1..]);
    }
  }

  /** The two inner loops of BiFindInode: leading slashes, then the length of the component. */
  method TakeComponent(path: Bytes, ghost part: Bytes, ghost g: Geometry, ghost root: Inode, ghost at: Inode,
                       ghost depth: nat, ghost expected: Option<Inode>)
    returns (name: Bytes, rest: Bytes)
    requires InodeOk(root) && InodeOk(at) && g.groupInodes > 0 && depth < MAX_SYMLINKS && TypeOf(at) == TYPE_DIR
    requires Ahead(part, g, root, at, path, depth, expected) && path != []
    ensures name == [] ==> expected == Some(at)
    ensures name != [] ==> |rest| < |path| && Behind(part, g, root, at, name, rest, depth, expected)
  {
    var p := path;
    while |p| > 0 && p[0] == SLASH
      invariant |p| <= |path| && SkipSlashes(p) == SkipSlashes(path)
    {
      p := p[1..];
    }
    if |p| == 0 {
      NoName(part, g, root, at, path, depth, expected);
      return [], [];
    }
    var n := 0;
    while n < |p| && p[n] != SLASH
      invariant n <= |p| && ComponentLength(p) == n + ComponentLength(p[n..])
    {
      n := n + 1;
    }
    OneName(part, g, root, at, path, depth, expected, p, n);
    return p[..n], p[n..];
  }

  /** The group number and the place of an inode fit their types. */
  lemma {:induction false} GroupBound(number: nat, n: nat)
    requires 0 < n && number < WORD32
    ensures Div(InodeIndex(number), n) < WORD32
  {
    var a := InodeIndex(number);
    var q := a / n;
    assert a == q * n + a % n;
    Stretch(q, n);
  }

  lemma {:induction false} DescriptorBound(g: Geometry, number: nat)
    requires GeometryOk(g) && number < WORD32
    ensures DescriptorPlace(g, number) < WRAP
  {
    GroupBound(number, g.groupInodes);
  }

  /** The location that BiReadInode computes is the place of the inode, and fits 64 bits. */
  lemma {:induction false} PlaceFits(part: Bytes, g: Geometry, number: nat, place: nat, index: nat, table: nat, location: nat)
    requires GeometryOk(g) && number < WORD32 && place == DescriptorPlace(g, number)
    requires index == Mod(InodeIndex(number), g.groupInodes) && table == U32(part, place + 8)
    requires location == BaseOf(table, g.shift) + Times(index, Pow2(g.inodeShift))
    ensures location == InodePlace(part, g, number) < WRAP
  {
    IndexBound(number, g.groupInodes);
    OffsetBound(index, g.inodeShift);
  }

  lemma {:induction false} IndexBound(number: nat, n: nat)
    requires 0 < n < WORD32
    ensures Mod(InodeIndex(number), n) < WORD32
  {
  }

  lemma {:induction false} Stretch(q: nat, n: nat)
    requires n > 0
    ensures q * n >= q
  {
    assert q * n == q + q * (n - 1);
  }

  lemma {:induction false} Pow2Grows(n: nat, m: nat)
    requires n <= m
    ensures Pow2(n) <= Pow2(m)
  {
    if n < m {
      Pow2Grows(n, m - 1);
    }
  }

  lemma {:induction false} OffsetBound(index: nat, shift: nat)
    requires index < WORD32 && shift <= 16
    ensures Times(index, Pow2(shift)) < 0x1_0000_0000_0000
  {
    Pow2Grows(shift, 16);
    assert Pow2(4) == 0x10 && Pow2(8) == 0x100 && Pow2(12) == 0x1000 && Pow2(16) == 0x1_0000;
    Product(index, Pow2(shift), 0x1_0000);
  }

  lemma {:induction false} Product(a: nat, b: nat, c: nat)
    requires b <= c
    ensures a * b <= a * c
  {
    assert a * c == a * b + a * (c - b);
  }

  /** The search is at `pos`, and what it finds from there on is what is to be found. */
  ghost predicate Searching(part: Bytes, g: Geometry, dir: Inode, pos: nat, name: Bytes, expected: Option<nat>)
    requires InodeOk(dir)
  {
    && pos <= SizeOf(g, dir) && WellFormed(part, g, dir, pos)
    && FirstMatch(g, Records(part, g, dir, pos), name) == expected
  }

  /** One round of the search in a well-formed directory. */
  lemma {:induction false} SearchStep(part: Bytes, g: Geometry, dir: Inode, pos: nat, name: Bytes, expected: Option<nat>,
                                      next: nat)
    requires InodeOk(dir) && Searching(part, g, dir, pos, name, expected) && pos + 8 <= SizeOf(g, dir)
    requires next == pos + RecordAt(part, g, dir, pos).size
    ensures Matches(g, RecordAt(part, g, dir, pos), name) ==> expected == Some(RecordAt(part, g, dir, pos).inode)
    ensures !Matches(g, RecordAt(part, g, dir, pos), name) ==> Searching(part, g, dir, next, name, expected)
    ensures next >= pos + 8
  {
    var record := RecordAt(part, g, dir, pos);
    var rest := Records(part, g, dir, next);
    assert ([record] + rest)[1..] == rest;
  }

  lemma {:induction false} SearchEnds(part: Bytes, g: Geometry, dir: Inode, pos: nat, name: Bytes, expected: Option<nat>)
    requires InodeOk(dir) && Searching(part, g, dir, pos, name, expected) && SizeOf(g, dir) < pos + 8
    ensures expected == None
  {
  }
}
