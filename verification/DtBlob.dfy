/** The whole blob: header, empty memory reservation block, structure block and strings block. */
module DtBlob {
  import opened Basics
  import opened Buffers
  import opened DtSpec
  import opened DtParse
  import opened DtWriter

  const MAGIC := 0xd00dfeed
  const VERSION := 17
  const COMPATIBLE := 16
  const HEADER_SIZE := 40
  const STRUCTURE_AT := 56

  /** The first five words of `struct BlFdtHeader`. */
  function HeaderStart(total: nat, stringsAt: nat): (r: Bytes)
    ensures |r| == 20
  {
    BE32(MAGIC) + BE32(total) + BE32(STRUCTURE_AT) + BE32(stringsAt) + BE32(HEADER_SIZE)
  }

  /** The last five words of `struct BlFdtHeader`. */
  function HeaderEnd(whami: nat, stringsSize: nat, structSize: nat): (r: Bytes)
    ensures |r| == 20
  {
    BE32(VERSION) + BE32(COMPATIBLE) + BE32(whami) + BE32(stringsSize) + BE32(structSize)
  }

  // ----- the reader: Devicetree Specification, sections 5.2 and 5.3 -----

  function Field(b: Bytes, pos: nat): nat {
    match Word(b, pos)
    case Some(x) => x
    case None => 0
  }

  /** The memory reservation block ends with an entry of zeros. */
  predicate ReservationsEnd(b: Bytes, pos: nat)
    decreases |b| - pos
  {
    pos + 16 <= |b| && ((forall i | pos <= i < pos + 16 :: b[i] == 0) || ReservationsEnd(b, pos + 16))
  }

  /** Ten words: the magic number 0xd00dfeed, the size of the blob, where the structure, strings and
      reservation blocks start, version 17, the version 16 it is compatible with, the booting processor,
      and the sizes of the strings and structure blocks. */
  predicate HeaderOk(b: Bytes) {
    && |b| >= 40 && Field(b, 0) == 0xd00dfeed && Field(b, 4) == |b|
    && Field(b, 20) == 17 && Field(b, 24) == 16
    && Field(b, 8) % 4 == 0 && Field(b, 8) + Field(b, 36) <= |b|
    && Field(b, 12) + Field(b, 32) <= |b|
    && Field(b, 16) % 8 == 0 && ReservationsEnd(b, Field(b, 16))
  }

  /** A block of the blob, by the header fields that give its place and size. */
  function Block(b: Bytes, at: nat, size: nat): Bytes {
    if at + size <= |b| then b[at..at + size] else []
  }

  function BootProcessor(b: Bytes): nat {
    Field(b, 28)
  }

  function ParseBlob(b: Bytes): Option<Tree> {
    if !HeaderOk(b) then None
    else ParseStructure(Block(b, Field(b, 8), Field(b, 36)), Block(b, Field(b, 12), Field(b, 32)))
  }

  // ----- reading back -----

  lemma {:induction false} FiveWords(b: Bytes, pos: nat, u: nat, v: nat, x: nat, y: nat, z: nat)
    requires Occurs(b, pos, BE32(u) + BE32(v) + BE32(x) + BE32(y) + BE32(z))
    requires u < WORD32 && v < WORD32 && x < WORD32 && y < WORD32 && z < WORD32
    ensures Field(b, pos) == u && Field(b, pos + 4) == v && Field(b, pos + 8) == x
    ensures Field(b, pos + 12) == y && Field(b, pos + 16) == z
  {
    OccursSplitAt(b, pos, BE32(u) + BE32(v) + BE32(x) + BE32(y), BE32(z), pos + 16);
    OccursSplitAt(b, pos, BE32(u) + BE32(v) + BE32(x), BE32(y), pos + 12);
    OccursSplitAt(b, pos, BE32(u) + BE32(v), BE32(x), pos + 8);
    OccursSplitAt(b, pos, BE32(u), BE32(v), pos + 4);
    OccursWord(b, pos, u);
    OccursWord(b, pos + 4, v);
    OccursWord(b, pos + 8, x);
    OccursWord(b, pos + 12, y);
    OccursWord(b, pos + 16, z);
  }

  lemma {:induction false} StartRead(b: Bytes, total: nat, stringsAt: nat)
    requires total < WORD32 && stringsAt < WORD32 && Occurs(b, 0, HeaderStart(total, stringsAt))
    ensures Field(b, 0) == MAGIC && Field(b, 4) == total && Field(b, 8) == STRUCTURE_AT
    ensures Field(b, 12) == stringsAt && Field(b, 16) == HEADER_SIZE
  {
    FiveWords(b, 0, MAGIC, total, STRUCTURE_AT, stringsAt, HEADER_SIZE);
  }

  lemma {:induction false} EndRead(b: Bytes, whami: nat, stringsSize: nat, structSize: nat)
    requires whami < WORD32 && stringsSize < WORD32 && structSize < WORD32
    requires Occurs(b, 20, HeaderEnd(whami, stringsSize, structSize))
    ensures Field(b, 20) == VERSION && Field(b, 24) == COMPATIBLE && BootProcessor(b) == whami
    ensures Field(b, 32) == stringsSize && Field(b, 36) == structSize
  {
    FiveWords(b, 20, VERSION, COMPATIBLE, whami, stringsSize, structSize);
  }

  lemma {:induction false} HeaderGood(b: Bytes, stringsAt: nat, stringsSize: nat, structSize: nat)
    requires Field(b, 0) == MAGIC && Field(b, 4) == |b| && Field(b, 8) == STRUCTURE_AT
    requires Field(b, 12) == stringsAt && Field(b, 16) == HEADER_SIZE && Field(b, 20) == VERSION
    requires Field(b, 24) == COMPATIBLE && Field(b, 32) == stringsSize && Field(b, 36) == structSize
    requires stringsAt == STRUCTURE_AT + structSize && |b| == stringsAt + stringsSize
    requires Occurs(b, HEADER_SIZE, Zeros(16))
    ensures HeaderOk(b)
  {
    forall i | HEADER_SIZE <= i < HEADER_SIZE + 16 ensures b[i] == 0 {
      assert b[i] == b[HEADER_SIZE..HEADER_SIZE + 16][i - HEADER_SIZE];
    }
    assert ReservationsEnd(b, HEADER_SIZE);
  }

  /** A blob with these parts in these places reads back as the tree in its structure block. */
  lemma {:induction false} BlobRead(b: Bytes, structure: Bytes, strings: Bytes, whami: nat,
                                    stringsAt: nat, structSize: nat, stringsSize: nat)
    requires structSize == |structure| && stringsSize == |strings| && stringsAt == STRUCTURE_AT + structSize
    requires |b| == stringsAt + stringsSize < WORD32 && whami < WORD32
    requires Occurs(b, 0, HeaderStart(|b|, stringsAt)) && Occurs(b, 20, HeaderEnd(whami, stringsSize, structSize))
    requires Occurs(b, HEADER_SIZE, Zeros(16))
    requires Occurs(b, STRUCTURE_AT, structure) && Occurs(b, stringsAt, strings)
    ensures ParseBlob(b) == ParseStructure(structure, strings) && BootProcessor(b) == whami
  {
    StartRead(b, |b|, stringsAt);
    EndRead(b, whami, stringsSize, structSize);
    HeaderGood(b, stringsAt, stringsSize, structSize);
    BlockIs(b, STRUCTURE_AT, structSize, structure);
    BlockIs(b, stringsAt, stringsSize, strings);
  }

  lemma {:induction false} BlockIs(b: Bytes, at: nat, size: nat, s: Bytes)
    requires Occurs(b, at, s) && size == |s|
    ensures Block(b, at, size) == s
  {
  }

  /** The header and the reservation block are in place. */
  ghost predicate FrontOk(b: Bytes, total: nat, stringsAt: nat, whami: nat, stringsSize: nat, structSize: nat) {
    && Occurs(b, 0, HeaderStart(total, stringsAt)) && Occurs(b, 20, HeaderEnd(whami, stringsSize, structSize))
    && Occurs(b, HEADER_SIZE, Zeros(16))
  }

  lemma {:induction false} FrontKept(b: Bytes, b': Bytes, total: nat, stringsAt: nat, whami: nat, stringsSize: nat,
                                     structSize: nat, lo: nat, hi: nat)
    requires FrontOk(b, total, stringsAt, whami, stringsSize, structSize) && Only(b, b', lo, hi) && STRUCTURE_AT <= lo
    ensures FrontOk(b', total, stringsAt, whami, stringsSize, structSize)
  {
    OnlyElsewhere(b, b', lo, hi, 0, HeaderStart(total, stringsAt));
    OnlyElsewhere(b, b', lo, hi, 20, HeaderEnd(whami, stringsSize, structSize));
    OnlyElsewhere(b, b', lo, hi, HEADER_SIZE, Zeros(16));
  }
}
