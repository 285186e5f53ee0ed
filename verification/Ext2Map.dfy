/** Properties of the block map, of file reads and of path resolution. */
module Ext2Map {
  import opened Basics
  import opened Buffers
  import opened Ext2Spec

  // ----- digits -----

  lemma {:induction false} QuotientRemainder(b: nat, levels: nat, shift: nat)
    requires 10 <= shift <= 12 && levels < 3
    ensures b == Quotient(b, levels, shift) * Reach(levels, shift) + Remainder(b, levels, shift)
    ensures Remainder(b, levels, shift) < Reach(levels, shift)
  {
  }

  lemma {:induction false} TopDigit(b: nat, levels: nat, shift: nat)
    requires 10 <= shift <= 12 && 0 < levels <= 3 && b < Reach(levels, shift)
    ensures Digit(b, levels - 1, shift) == Quotient(b, levels - 1, shift) < Fanout(shift)
  {
  }

  lemma {:induction false} By8Bits(b: nat, q: nat, r: nat)
    requires b == q * 0x100 + r && r < 0x100
    ensures b / 0x100 == q && b % 0x100 == r
  {
  }

  lemma {:induction false} By16Bits(b: nat, q: nat, r: nat)
    requires b == q * 0x1_0000 + r && r < 0x1_0000
    ensures b / 0x1_0000 == q && b % 0x1_0000 == r
  {
  }

  lemma {:induction false} TwoDigits10(b: nat, q: nat, s: nat, t: nat)
    requires b == q * 0x1_0000 + s * 0x100 + t && s < 0x100 && t < 0x100
    ensures b % 0x1_0000 / 0x100 % 0x100 == b / 0x100 % 0x100
    ensures b % 0x1_0000 % 0x100 == b % 0x100
  {
    By16Bits(b, q, s * 0x100 + t);
    By8Bits(b, q * 0x100 + s, t);
    By8Bits(q * 0x100 + s, q, s);
    By8Bits(s * 0x100 + t, s, t);
    By8Bits(s, 0, s);
  }

  lemma {:induction false} By9Bits(b: nat, q: nat, r: nat)
    requires b == q * 0x200 + r && r < 0x200
    ensures b / 0x200 == q && b % 0x200 == r
  {
  }

  lemma {:induction false} By18Bits(b: nat, q: nat, r: nat)
    requires b == q * 0x4_0000 + r && r < 0x4_0000
    ensures b / 0x4_0000 == q && b % 0x4_0000 == r
  {
  }

  lemma {:induction false} TwoDigits11(b: nat, q: nat, s: nat, t: nat)
    requires b == q * 0x4_0000 + s * 0x200 + t && s < 0x200 && t < 0x200
    ensures b % 0x4_0000 / 0x200 % 0x200 == b / 0x200 % 0x200
    ensures b % 0x4_0000 % 0x200 == b % 0x200
  {
    By18Bits(b, q, s * 0x200 + t);
    By9Bits(b, q * 0x200 + s, t);
    By9Bits(q * 0x200 + s, q, s);
    By9Bits(s * 0x200 + t, s, t);
    By9Bits(s, 0, s);
  }

  lemma {:induction false} By10Bits(b: nat, q: nat, r: nat)
    requires b == q * 0x400 + r && r < 0x400
    ensures b / 0x400 == q && b % 0x400 == r
  {
  }

  lemma {:induction false} By20Bits(b: nat, q: nat, r: nat)
    requires b == q * 0x10_0000 + r && r < 0x10_0000
    ensures b / 0x10_0000 == q && b % 0x10_0000 == r
  {
  }

  lemma {:induction false} TwoDigits12(b: nat, q: nat, s: nat, t: nat)
    requires b == q * 0x10_0000 + s * 0x400 + t && s < 0x400 && t < 0x400
    ensures b % 0x10_0000 / 0x400 % 0x400 == b / 0x400 % 0x400
    ensures b % 0x10_0000 % 0x400 == b % 0x400
  {
    By20Bits(b, q, s * 0x400 + t);
    By10Bits(b, q * 0x400 + s, t);
    By10Bits(q * 0x400 + s, q, s);
    By10Bits(s * 0x400 + t, s, t);
    By10Bits(s, 0, s);
  }

  /** Masking after shifting does not see what the higher digits are. */
  lemma {:induction false} LowerDigit(b: nat, level: nat, levels: nat, shift: nat)
    requires 10 <= shift <= 12 && level < levels <= 2
    ensures Digit(Remainder(b, levels, shift), level, shift) == Digit(b, level, shift)
  {
    if levels == 1 {
      OneDigit(b, shift);
    } else {
      QuotientRemainder(b, 2, shift);
      var q, r := Quotient(b, 2, shift), Remainder(b, 2, shift);
      QuotientRemainder(r, 1, shift);
      TwoDigits(b, q, Quotient(r, 1, shift), Remainder(r, 1, shift), level, shift);
    }
  }

  lemma {:induction false} OneDigit(b: nat, shift: nat)
    requires 10 <= shift <= 12
    ensures Digit(Remainder(b, 1, shift), 0, shift) == Digit(b, 0, shift)
  {
  }

  lemma {:induction false} TwoDigits(b: nat, q: nat, s: nat, t: nat, level: nat, shift: nat)
    requires 10 <= shift <= 12 && level < 2 && s < Fanout(shift) && t < Fanout(shift)
    requires b == q * Reach(2, shift) + (s * Reach(1, shift) + t)
    ensures Digit(Remainder(b, 2, shift), level, shift) == Digit(b, level, shift)
  {
    if shift == 10 {
      TwoDigits10(b, q, s, t);
    } else if shift == 11 {
      TwoDigits11(b, q, s, t);
    } else {
      TwoDigits12(b, q, s, t);
    }
  }

  // ----- distinct blocks take distinct paths -----

  lemma {:induction false} DigitsInjective(a: nat, b: nat, levels: nat, shift: nat)
    requires 10 <= shift <= 12 && levels <= 3 && a < Reach(levels, shift) && b < Reach(levels, shift)
    requires Digits(a, levels, shift) == Digits(b, levels, shift)
    ensures a == b
    decreases levels
  {
    if levels > 0 {
      var x, y := Digits(a, levels, shift), Digits(b, levels, shift);
      assert x[0] == y[0] && x[1..] == y[1..];
      QuotientRemainder(a, levels - 1, shift);
      QuotientRemainder(b, levels - 1, shift);
      DigitsInjective(Remainder(a, levels - 1, shift), Remainder(b, levels - 1, shift), levels - 1, shift);
    }
  }

  lemma {:induction false} LevelBounds(b: nat, shift: nat)
    requires 10 <= shift <= 12 && 0 < LevelsOf(b, shift) < 4
    ensures FirstOf(LevelsOf(b, shift), shift) <= b
    ensures b - FirstOf(LevelsOf(b, shift), shift) < Reach(LevelsOf(b, shift), shift)
  {
  }

  /** No two logical blocks of a file share a slot. */
  lemma {:induction false} SlotPathsDistinct(a: nat, b: nat, shift: nat)
    requires 10 <= shift <= 12 && LevelsOf(a, shift) < 4 && LevelsOf(b, shift) < 4
    ensures SlotPath(a, shift) == SlotPath(b, shift) <==> a == b
  {
    if SlotPath(a, shift) == SlotPath(b, shift) {
      var levels := LevelsOf(a, shift);
      assert SlotPath(a, shift)[0] == levels && SlotPath(b, shift)[0] == LevelsOf(b, shift);
      if levels == 0 {
        assert SlotPath(a, shift)[1] == a && SlotPath(b, shift)[1] == b;
      } else {
        LevelBounds(a, shift);
        LevelBounds(b, shift);
        assert SlotPath(a, shift)[1..] == Digits(a - FirstOf(levels, shift), levels, shift);
        assert SlotPath(b, shift)[1..] == Digits(b - FirstOf(levels, shift), levels, shift);
        DigitsInjective(a - FirstOf(levels, shift), b - FirstOf(levels, shift), levels, shift);
      }
    }
  }

  /** The 32-bit address of a pointer is right exactly when the pointer is in the first 4 GiB. */
  lemma {:induction false} PointerAddress(block: nat, index: nat, shift: nat)
    requires 10 <= shift <= 12 && index < Fanout(shift)
    ensures (BaseOf(block, shift) + index * 4) % 0x1_0000_0000 == BaseOf(block, shift) + index * 4 <==>
            BaseOf(block, shift) < WORD32
  {
  }

  /** The counts of the level search do not wrap while they matter. */
  lemma {:induction false} WidenIsReach(levels: nat, shift: nat)
    requires 10 <= shift <= 12 && 0 < levels < 3
    ensures Widen(Reach(levels, shift), shift) == Reach(levels + 1, shift) < WORD32
  {
  }

  // ----- the digit walk -----

  /** What the digit walk of the code computes: digits of one number instead of remainders. */
  function Descend(part: Bytes, g: Geometry, pointer: nat, b: nat, levels: nat): nat
    decreases levels
  {
    if levels == 0 || pointer == 0 then pointer
    else Descend(part, g, PointerAt(part, g, pointer, Digit(b, levels - 1, g.shift)), b, levels - 1)
  }

  lemma {:induction false} DescendSame(part: Bytes, g: Geometry, pointer: nat, b: nat, c: nat, levels: nat)
    requires 10 <= g.shift <= 12 && levels <= 2 && c == Remainder(b, levels, g.shift)
    ensures Descend(part, g, pointer, b, levels) == Descend(part, g, pointer, c, levels)
    decreases levels
  {
    if levels > 0 && pointer != 0 {
      LowerDigit(b, levels - 1, levels, g.shift);
      var next := PointerAt(part, g, pointer, Digit(b, levels - 1, g.shift));
      if levels == 2 {
        LowerDigit(b, 0, 2, g.shift);
        assert Descend(part, g, next, b, 1) == Descend(part, g, next, c, 1);
      }
    }
  }

  /** The digit walk finds the radix-tree slot. */
  lemma {:induction false} DescendIsSlot(part: Bytes, g: Geometry, pointer: nat, b: nat, levels: nat)
    requires 10 <= g.shift <= 12 && levels <= 3 && b < Reach(levels, g.shift)
    ensures Descend(part, g, pointer, b, levels) == Slot(part, g, pointer, b, levels)
    decreases levels
  {
    if levels > 0 && pointer != 0 {
      TopDigit(b, levels, g.shift);
      var next := PointerAt(part, g, pointer, Digit(b, levels - 1, g.shift));
      var c := Remainder(b, levels - 1, g.shift);
      QuotientRemainder(b, levels - 1, g.shift);
      DescendSame(part, g, next, b, c, levels - 1);
      DescendIsSlot(part, g, next, c, levels - 1);
    }
  }

  // ----- what has to lie inside the partition -----

  predicate PointerInside(part: Bytes, g: Geometry, block: nat, index: nat) {
    PointerPlace(g, block, index) + 4 <= |part|
  }

  /** Every pointer the digit walk reads is inside. */
  predicate DescendInside(part: Bytes, g: Geometry, pointer: nat, b: nat, levels: nat)
    decreases levels
  {
    levels == 0 || pointer == 0 ||
    (var index := Digit(b, levels - 1, g.shift);
     PointerInside(part, g, pointer, index) && DescendInside(part, g, PointerAt(part, g, pointer, index), b, levels - 1))
  }

  /** A logical block within the map, all of whose pointers are inside. */
  predicate BlockInside(part: Bytes, g: Geometry, inode: Inode, b: nat)
    requires InodeOk(inode)
  {
    var levels := LevelsOf(b, g.shift);
    levels == 0 || (levels < 4 && DescendInside(part, g, inode.indirect[levels - 1], b - FirstOf(levels, g.shift), levels))
  }

  predicate ByteInside(part: Bytes, g: Geometry, inode: Inode, pos: nat)
    requires InodeOk(inode)
  {
    var b := BlockOf(pos, g.shift);
    BlockInside(part, g, inode, b) &&
    (VolumeBlock(part, g, inode, b) != 0 ==> BaseOf(VolumeBlock(part, g, inode, b), g.shift) + OffsetOf(pos, g.shift) < |part|)
  }

  /** The bytes of a file from `pos` on can be found. */
  ghost predicate BytesInside(part: Bytes, g: Geometry, inode: Inode, pos: nat, count: nat)
    requires InodeOk(inode)
  {
    forall k: nat {:trigger ByteInside(part, g, inode, k)} | pos <= k < pos + count :: ByteInside(part, g, inode, k)
  }

  predicate InodeInside(part: Bytes, g: Geometry, number: nat)
    requires g.groupInodes > 0
  {
    DescriptorPlace(g, number) + 20 <= |part| && InodePlace(part, g, number) + 128 <= |part|
  }

  /** What path resolution reads of an inode: the whole of a directory or a link. */
  ghost predicate Findable(part: Bytes, g: Geometry, inode: Inode)
    requires InodeOk(inode)
  {
    TypeOf(inode) == TYPE_DIR || TypeOf(inode) == TYPE_SYM ==> BytesInside(part, g, inode, 0, SizeOf(g, inode))
  }

  /** All known inodes, and all directories and links among them, lie inside the partition. */
  ghost predicate FsInside(part: Bytes, g: Geometry, known: iset<nat>, root: Inode)
    requires g.groupInodes > 0 && InodeOk(root)
  {
    Findable(part, g, root) &&
    forall number: nat {:trigger number in known} | number in known ::
      InodeInside(part, g, number) && Findable(part, g, InodeNumber(part, g, number))
  }

  // ----- reading files -----

  /** The read check of BlFsFileRead lets through exactly the requests that start inside the file: it
      does not look at where they end. */
  lemma {:induction false} ReadsFileExact(position: nat, count: nat, size: nat)
    requires count < WORD32 && size < 0x8000_0000_0000_0000
    ensures ReadsFile(position, count, size) <==> count != 0 && position < size
    ensures (ReadsFile(position, count, size) <==> count != 0 && position + count <= size) <==>
            !(position < size < position + count)
  {
  }

  /** A request for four bytes of a one-byte file is let through. */
  lemma {:induction false} ReadsBeyondEnd()
    ensures ReadsFile(0, 4, 1)
  {
  }
}
