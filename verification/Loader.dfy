/** bootloader/main.c: the kernel image in virtual memory, and the window of the device tree blob. */
module Loader {
  import opened Basics
  import opened Buffers
  import opened Cache
  import opened Ext2Spec
  import opened Ext2Map
  import opened Ext2Wide
  import opened Ext2
  import L = Ext2Layout
  import opened Paging

  /** The last page would end beyond 32 bits. */
  const TOP_PAGE := 0xffff_f000

  /** The byte that belongs at address `a`: file bytes at the image address, zeros around them. */
  function ImageByte(start: nat, file: Bytes, a: nat): Byte {
    if start <= a < start + |file| then file[a - start] else 0
  }

  function ImagePage(start: nat, file: Bytes, page: nat): (r: Bytes)
    ensures |r| == 4096
  {
    seq<Byte>(4096, k requires 0 <= k < 4096 => ImageByte(start, file, page * 4096 + k))
  }

  // ----- what the four kinds of pages hold -----

  /** `s` is a page with the bytes of the image. */
  ghost predicate IsImage(s: Bytes, start: nat, file: Bytes, page: nat) {
    |s| == 4096 && forall k | 0 <= k < 4096 :: s[k] == ImageByte(start, file, page * 4096 + k)
  }

  lemma {:induction false} ImageIs(s: Bytes, start: nat, file: Bytes, page: nat)
    requires IsImage(s, start, file, page)
    ensures s == ImagePage(start, file, page)
  {
    var p := ImagePage(start, file, page);
    forall k | 0 <= k < 4096 ensures s[k] == p[k] {
    }
  }

  lemma {:induction false} HeadPage(start: nat, file: Bytes, page: nat, head: nat, read: nat)
    requires start == page * 4096 + head && head <= 4096
    requires read <= |file| && (read == |file| || head + read == 4096) && head + read <= 4096
    ensures Zeros(head) + file[..read] + Zeros(4096 - head - read) == ImagePage(start, file, page)
  {
    ImageIs(Zeros(head) + file[..read] + Zeros(4096 - head - read), start, file, page);
  }

  lemma {:induction false} InnerPage(start: nat, file: Bytes, page: nat, pos: nat)
    requires page * 4096 == start + pos && pos + 4096 <= |file|
    ensures file[pos..pos + 4096] == ImagePage(start, file, page)
  {
    ImageIs(file[pos..pos + 4096], start, file, page);
  }

  lemma {:induction false} LastPage(start: nat, file: Bytes, page: nat, pos: nat)
    requires page * 4096 == start + pos && pos <= |file| <= pos + 4096
    ensures file[pos..] + Zeros(4096 - (|file| - pos)) == ImagePage(start, file, page)
  {
    ImageIs(file[pos..] + Zeros(4096 - (|file| - pos)), start, file, page);
  }

  lemma {:induction false} ZeroPage(start: nat, file: Bytes, page: nat)
    requires start + |file| <= page * 4096
    ensures Zeros(4096) == ImagePage(start, file, page)
  {
    ImageIs(Zeros(4096), start, file, page);
  }

  /** BL_ALIGN_UP to pages, in 32 bits. */
  function AlignUpPage(x: nat): nat {
    (x + 4095) % 0x1_0000_0000 / 4096 * 4096
  }

  /** The end of the image is the end of its last page exactly when that does not wrap. */
  lemma {:induction false} EndExact(end: nat)
    requires end < WORD32
    ensures end <= TOP_PAGE <==> end <= AlignUpPage(end)
    ensures end <= TOP_PAGE ==> AlignUpPage(end) < end + 4096 && AlignUpPage(end) % 4096 == 0
  {
  }

  lemma {:induction false} ByteAt(part: Bytes, g: Geometry, inode: Inode, pos: nat, count: nat, k: nat, i: nat)
    requires InodeOk(inode) && k < count && i == pos + k
    ensures FileBytes(part, g, inode, pos, count)[k] == FileByte(part, g, inode, i)
  {
  }

  predicate SameAt(a: Bytes, b: Bytes, i: nat, k: nat) {
    i < |a| && k < |b| && a[i] == b[k]
  }

  lemma {:induction false} SliceAt(all: Bytes, some: Bytes, pos: nat, count: nat)
    requires pos + count <= |all| && |some| == count
    requires forall k: nat, i: nat | k < count && i == pos + k :: SameAt(all, some, i, k)
    ensures some == all[pos..pos + count]
  {
    var slice := all[pos..pos + count];
    forall k | 0 <= k < count ensures some[k] == slice[k] {
      var i := pos + k;
      assert SameAt(all, some, i, k) && slice[k] == all[i];
    }
  }

  /** The slice of the file that a read delivers. */
  lemma {:induction false} FileSlice(part: Bytes, g: Geometry, inode: Inode, size: nat, pos: nat, count: nat)
    requires InodeOk(inode) && pos + count <= size
    ensures FileBytes(part, g, inode, pos, count) == FileBytes(part, g, inode, 0, size)[pos..pos + count]
  {
    var all, some := FileBytes(part, g, inode, 0, size), FileBytes(part, g, inode, pos, count);
    forall k, i: nat | 0 <= k < count && i == pos + k ensures SameAt(all, some, i, k) {
      ByteAt(part, g, inode, pos, count, k, i);
      ByteAt(part, g, inode, 0, size, i, i);
    }
    SliceAt(all, some, pos, count);
  }

  // ----- pages that are in place -----

  /** Reading virtual page `page` through the page table gives the bytes of the image. */
  predicate PageShown(view: map<nat, nat>, pages: map<nat, Bytes>, start: nat, file: Bytes, page: nat) {
    page in view && view[page] in pages && pages[view[page]] == ImagePage(start, file, page)
  }

  ghost predicate Shown(view: map<nat, nat>, pages: map<nat, Bytes>, start: nat, file: Bytes, first: nat, end: nat) {
    forall page {:trigger PageShown(view, pages, start, file, page)} | first <= page < end ::
      PageShown(view, pages, start, file, page)
  }

  /** Adding one page in new memory. */
  lemma {:induction false} ShownMore(view: map<nat, nat>, pages: map<nat, Bytes>, start: nat, file: Bytes,
                                     first: nat, page: nat, frame: nat, content: Bytes)
    requires Shown(view, pages, start, file, first, page) && frame !in pages && content == ImagePage(start, file, page)
    ensures Shown(view[page := frame], pages[frame := content], start, file, first, page + 1)
  {
    var view', pages' := view[page := frame], pages[frame := content];
    forall p | first <= p < page + 1 ensures PageShown(view', pages', start, file, p) {
      assert p < page ==> PageShown(view, pages, start, file, p);
    }
  }

  /** The page numbers from `first` up to `end`. */
  function Range(first: nat, end: nat): (r: seq<nat>) {
    if first >= end then [] else Range(first, end - 1) + [end - 1]
  }

  // ----- the device tree window -----

  /** BiRangesOverlap */
  predicate RangesOverlap(a0: nat, a1: nat, b0: nat, b1: nat) {
    a0 <= b1 && b0 <= a1
  }

  /** The page belongs to both the kernel image and the window of the blob. */
  predicate SharedPage(start: nat, size: nat, dtb: nat, total: nat, page: nat) {
    && start / 4096 <= page <= (start + size - 1) / 4096
    && dtb / 4096 <= page <= (dtb + total - 1) / 4096
  }

  /** After the overlap check, mapping the blob leaves the kernel's pages alone exactly when the blob does
      not end in the page where the kernel starts. */
  lemma {:induction false} WindowExact(start: nat, size: nat, dtb: nat, maxEnd: nat, total: nat)
    requires 0 < size && 0 < total && dtb % 4096 == 0 && dtb + total - 1 <= maxEnd
    requires !RangesOverlap(start, start + size - 1, dtb, maxEnd)
    ensures (forall page {:trigger SharedPage(start, size, dtb, total, page)} :: !SharedPage(start, size, dtb, total, page))
            <==> (dtb + total - 1) / 4096 != start / 4096
  {
    if (dtb + total - 1) / 4096 == start / 4096 {
      assert SharedPage(start, size, dtb, total, start / 4096);
    }
  }

  /** With a page-aligned kernel that is always so. */
  lemma {:induction false} AlignedWindow(start: nat, size: nat, dtb: nat, maxEnd: nat, total: nat)
    requires 0 < size && 0 < total && dtb % 4096 == 0 && dtb + total - 1 <= maxEnd && start % 4096 == 0
    requires !RangesOverlap(start, start + size - 1, dtb, maxEnd)
    ensures (dtb + total - 1) / 4096 != start / 4096
  {
  }

  /** A kernel that starts in the middle of a page can lose it to a blob the check lets through. */
  lemma {:induction false} UnalignedWindow()
    ensures !RangesOverlap(0x1800, 0x1800 + 0x1000 - 1, 0x1000, 0x17ff)
    ensures SharedPage(0x1800, 0x1000, 0x1000, 0x100, 1)
  {
  }

  // ----- loading -----

  const MAGIC := 0x584c_5258
  const MAJOR := 2
  const HEADER_SIZE := 32

  /** `struct BiKernelHeader` */
  datatype Header = Header(magic: nat, major: nat, virtualAddr: nat, msize: nat, entry: nat, mapDtb: bool,
                           dtbAddress: nat, maxDtbEnd: nat)

  /** The little-endian fields of a header. */
  function DecodeHeader(b: Bytes): Header {
    Header(U32(b, 0), U16(b, 6), U32(b, 8), U32(b, 12), U32(b, 16), U32(b, 20) % 2 == 1, U32(b, 24), U32(b, 28))
  }

  /** The 32 bytes of a header as the boot protocol has them: magic number, minor and major version, address, size,
      entry point, flags with MapDtb as the lowest one, and start and limit of the area for the device tree. */
  function EncodeHeader(h: Header, minor: nat, flags: nat): (r: Bytes)
    ensures |r| == 32
  {
    L.LE32(h.magic) + L.LE16(minor) + L.LE16(h.major) + L.LE32(h.virtualAddr) + L.LE32(h.msize) + L.LE32(h.entry)
    + L.LE32(flags) + L.LE32(h.dtbAddress) + L.LE32(h.maxDtbEnd)
  }

  predicate WordsFit(h: Header) {
    h.magic < WORD32 && h.major < 0x1_0000 && h.virtualAddr < WORD32 && h.msize < WORD32 && h.entry < WORD32 &&
    h.dtbAddress < WORD32 && h.maxDtbEnd < WORD32
  }

  /** A header is read back from its bytes, whatever the minor version and the other flags. */
  lemma {:induction false} HeaderRoundTrip(b: Bytes, h: Header, minor: nat, flags: nat)
    requires WordsFit(h) && flags < WORD32 && (h.mapDtb <==> flags % 2 == 1) && b == EncodeHeader(h, minor, flags)
    ensures DecodeHeader(b) == h
  {
    var m, n, j, v, s := L.LE32(h.magic), L.LE16(minor), L.LE16(h.major), L.LE32(h.virtualAddr), L.LE32(h.msize);
    var e, f, d, x := L.LE32(h.entry), L.LE32(flags), L.LE32(h.dtbAddress), L.LE32(h.maxDtbEnd);
    assert Occurs(b, 0, m + n + j + v + s + e + f + d + x);
    OccursSplitAt(b, 0, m + n + j + v + s + e + f + d, x, 28);
    OccursSplitAt(b, 0, m + n + j + v + s + e + f, d, 24);
    OccursSplitAt(b, 0, m + n + j + v + s + e, f, 20);
    OccursSplitAt(b, 0, m + n + j + v + s, e, 16);
    OccursSplitAt(b, 0, m + n + j + v, s, 12);
    OccursSplitAt(b, 0, m + n + j, v, 8);
    OccursSplitAt(b, 0, m + n, j, 6);
    OccursSplitAt(b, 0, m, n, 4);
    L.Reads32(b, 0, h.magic);
    L.Reads16(b, 6, h.major);
    L.Reads32(b, 8, h.virtualAddr);
    L.Reads32(b, 12, h.msize);
    L.Reads32(b, 16, h.entry);
    L.Reads32(b, 20, flags);
    L.Reads32(b, 24, h.dtbAddress);
    L.Reads32(b, 28, h.maxDtbEnd);
  }

  /** The header that the loader finds in a file of `size` bytes; it stays zero if nothing is read. */
  function HeaderAt(part: Bytes, g: Geometry, file: Inode, size: nat): Header
    requires InodeOk(file)
  {
    DecodeHeader(if ReadsFile(0, HEADER_SIZE, size) then FileBytes(part, g, file, 0, HEADER_SIZE) else Zeros(HEADER_SIZE))
  }

  /** The checks of BiLoadKernel on the header. */
  predicate HeaderAccepted(h: Header) {
    && h.magic == MAGIC && h.major == MAJOR
    && h.virtualAddr <= h.entry < h.virtualAddr + h.msize
    && (h.mapDtb ==>
          && AlignUpPage(h.dtbAddress) < h.maxDtbEnd
          && !RangesOverlap(h.virtualAddr, W32(h.virtualAddr + h.msize - 1), AlignUpPage(h.dtbAddress), h.maxDtbEnd))
  }

  /** The address belongs to the image and to the area for the device tree. */
  predicate InBoth(start: nat, size: nat, area: nat, limit: nat, a: nat) {
    start <= a < start + size && area <= a <= limit
  }

  /** A kernel is accepted exactly if magic number and major version are those of the protocol, the entry point is in
      the image, and an area for the device tree, from its first whole page on, is more than one byte and shares no
      address with the image. */
  lemma {:induction false} AcceptedExact(h: Header, area: nat)
    requires WordsFit(h) && h.virtualAddr + h.msize <= WORD32
    requires area % 4096 == 0 && h.dtbAddress <= area < h.dtbAddress + 4096 && area < WORD32
    ensures HeaderAccepted(h) <==>
      && h.magic == 0x584c_5258 && h.major == 2 && h.virtualAddr <= h.entry < h.virtualAddr + h.msize
      && (h.mapDtb ==>
            area < h.maxDtbEnd && forall a: nat :: !InBoth(h.virtualAddr, h.msize, area, h.maxDtbEnd, a))
  {
    assert AlignUpPage(h.dtbAddress) == area;
    if h.msize > 0 && area < h.maxDtbEnd {
      var last := h.virtualAddr + h.msize - 1;
      assert W32(last) == last;
      ShareAddress(h.virtualAddr, h.msize, last, area, h.maxDtbEnd);
    }
  }

  lemma {:induction false} ShareAddress(start: nat, size: nat, last: nat, area: nat, limit: nat)
    requires size > 0 && last == start + size - 1 && area <= limit
    ensures RangesOverlap(start, last, area, limit) <==> exists a: nat :: InBoth(start, size, area, limit, a)
  {
    if RangesOverlap(start, last, area, limit) {
      assert InBoth(start, size, area, limit, if start < area then area else start);
    }
  }

  /** What the protocol document asks of the area for the device tree. */
  predicate AreaAllowed(h: Header) {
    AlignUpPage(h.dtbAddress) <= h.maxDtbEnd
  }

  /** The loader refuses an area that the document allows exactly when it ends where it starts. */
  lemma {:induction false} AreaExact(h: Header)
    requires h.mapDtb && AreaAllowed(h)
    ensures AlignUpPage(h.dtbAddress) < h.maxDtbEnd <==> h.maxDtbEnd != AlignUpPage(h.dtbAddress)
    ensures h.maxDtbEnd == AlignUpPage(h.dtbAddress) ==> !HeaderAccepted(h)
  {
  }

  /** An area of one byte is refused. */
  lemma {:induction false} AreaOfOneByte()
    ensures var h := Header(MAGIC, MAJOR, 0x10_0000, 0x1000, 0x10_0000, true, 0x20_0000, 0x20_0000);
            AreaAllowed(h) && !HeaderAccepted(h) && HeaderAccepted(h.(maxDtbEnd := 0x20_0001))
  {
  }

  // ----- pages read around the cache -----

  /** A page inside the file that would take parts of sectors from the disk: an image that does not start on a sector
      boundary shifts the page against the sectors, and one end of it is in a block on the disk. */
  ghost predicate TornPage(part: Bytes, g: Geometry, file: Inode, start: nat, page: nat)
    requires InodeOk(file)
  {
    && start % 512 != 0 && start <= page * 4096 && page * 4096 + 4096 <= start + SizeOf(g, file)
    && (Present(part, g, file, page * 4096 - start) || Present(part, g, file, page * 4096 - start + 4095))
  }

  ghost predicate Torn(part: Bytes, g: Geometry, file: Inode, start: nat)
    requires InodeOk(file)
  {
    exists page: nat :: TornPage(part, g, file, start, page)
  }

  /** No page below `next` is torn. */
  ghost predicate WholeTo(part: Bytes, g: Geometry, file: Inode, start: nat, next: nat)
    requires InodeOk(file)
  {
    forall page: nat | page < next / 4096 :: !TornPage(part, g, file, start, page)
  }

  lemma {:induction false} WholeNext(part: Bytes, g: Geometry, file: Inode, start: nat, current: nat, page: nat)
    requires InodeOk(file) && page == current / 4096 && WholeTo(part, g, file, start, current)
    ensures TornPage(part, g, file, start, page) ==> Torn(part, g, file, start)
    ensures !TornPage(part, g, file, start, page) ==> WholeTo(part, g, file, start, current + 4096)
  {
    assert (current + 4096) / 4096 == page + 1;
  }

  lemma {:induction false} RaggedPage(part: Bytes, g: Geometry, file: Inode, position: nat, last: nat)
    requires InodeOk(file) && last == position + 4095
    ensures Ragged(part, g, file, position, 4096) <==>
            position % 512 != 0 && (Present(part, g, file, position) || Present(part, g, file, last))
  {
    var end := position + 4096;
    SectorSum(position, 4096, end);
    assert end - 1 == last;
  }

  lemma {:induction false} TornIsRagged(part: Bytes, g: Geometry, file: Inode, start: nat, current: nat, page: nat,
                                        position: nat)
    requires InodeOk(file) && current % 4096 == 0 && page == current / 4096 && start <= current
    requires current + 4096 <= start + SizeOf(g, file) && position == current - start
    ensures TornPage(part, g, file, start, page) <==> Ragged(part, g, file, position, 4096)
  {
    var last := position + 4095;
    assert page * 4096 == current;
    PositionSectors(start, current, position);
    RaggedPage(part, g, file, position, last);
  }

  /** The first bytes of a kernel of two pages at 0x1010. */
  const TORN_HEADER: Bytes := [0x58, 0x52, 0x4c, 0x58, 0, 0, 2, 0, 0x10, 0x10, 0, 0, 0, 0x20, 0, 0, 0x10, 0x10, 0, 0] + Zeros(12)

  /** Such a kernel, with two full pages in its file and its first block on the disk: its header is accepted, and it is
      torn. */
  lemma {:induction false} TornKernel(part: Bytes, file: Inode, g: Geometry)
    requires InodeOk(file) && file.direct[0] == 1 && file.size == 0x2000 && file.sizeUpper == 0 && file.mode == 0x8000
    requires g == Geometry(12, 7, 4096, 8192, true, true, true)
    requires FileBytes(part, g, file, 0, HEADER_SIZE) == TORN_HEADER
    ensures var h := HeaderAt(part, g, file, SizeOf(g, file));
            && h == Header(MAGIC, MAJOR, 0x1010, 0x2000, 0x1010, false, 0, 0) && HeaderAccepted(h)
            && TornPage(part, g, file, h.virtualAddr, 2) && Torn(part, g, file, h.virtualAddr)
  {
    TornHeader();
    FirstBlockTorn(part, file, g, 0x1010);
  }

  lemma {:induction false} FirstBlockTorn(part: Bytes, file: Inode, g: Geometry, start: nat)
    requires InodeOk(file) && file.direct[0] == 1 && SizeOf(g, file) == 0x2000 && g.shift == 12 && start == 0x1010
    ensures TornPage(part, g, file, start, 2) && Torn(part, g, file, start)
  {
    assert VolumeBlock(part, g, file, BlockOf(0xff0, 12)) == 1;
    assert TornPage(part, g, file, start, 2);
  }

  lemma {:induction false} TornHeader()
    ensures DecodeHeader(TORN_HEADER) == Header(MAGIC, MAJOR, 0x1010, 0x2000, 0x1010, false, 0, 0)
  {
  }

  // ----- counting pages -----

  /** The number of pages from `current` to the one that `end` is in or ends. */
  function PagesTo(current: nat, end: nat): nat {
    if end <= current then 0 else (end - current + 4095) / 4096
  }

  /** The number of pages of the image. */
  function ImagePages(h: Header): nat {
    PagesTo(h.virtualAddr / 4096 * 4096, h.virtualAddr + h.msize)
  }

  /** Those are the pages from the first one, where `current` is, to the one with the last byte. */
  lemma {:induction false} PagesAre(current: nat, end: nat)
    requires current % 4096 == 0 && current < end
    ensures PagesTo(current, end) == (end - 1) / 4096 - current / 4096 + 1
  {
  }

  /** A loop over pages from `current` stops at `next`, the first page boundary not below `end`. */
  predicate Reached(current: nat, end: nat, next: nat) {
    next % 4096 == current % 4096 && current <= next && end <= next && (next == current || next <= end)
  }

  lemma {:induction false} RoundsLeft(current: nat, end: nat, n: nat, next: nat)
    requires next == current + 4096 * n && next < end
    ensures n + 1 <= PagesTo(current, end)
  {
  }

  lemma {:induction false} InnerRound(current: nat, fileEnd: nat, aligned: nat, n: nat, next: nat)
    requires current % 4096 == 0 && next == current + 4096 * n && aligned == fileEnd / 4096 * 4096 && next < aligned
    ensures next + 4096 <= aligned <= fileEnd
  {
    assert next == 4096 * (current / 4096 + n);
  }

  lemma {:induction false} RoundsDone(current: nat, n: nat, next: nat)
    requires next == current + 4096 * n
    ensures (next - current) / 4096 == n && next % 4096 == current % 4096
  {
  }

  lemma {:induction false} LastPageEnds(current: nat, fileEnd: nat, next: nat, behind: nat)
    requires current % 4096 == 0 && Reached(current, fileEnd / 4096 * 4096, next) && behind == next + 4096
    ensures fileEnd <= behind && (next == current || next < fileEnd + 4096)
    ensures (behind - current) / 4096 == (next - current) / 4096 + 1
    ensures next < fileEnd ==> (next - current) / 4096 + 1 <= PagesTo(current, fileEnd)
  {
    var n := (next - current) / 4096;
    assert next == current + 4096 * n;
  }

  lemma {:induction false} Multiple(x: nat, k: int)
    requires x == 512 * k
    ensures x % 512 == 0
  {
  }

  lemma {:induction false} PositionSectors(start: nat, current: nat, position: nat)
    requires current % 4096 == 0 && start <= current && position == current - start
    ensures position % 512 == 0 <==> start % 512 == 0
  {
    var q := current / 4096;
    if position % 512 == 0 {
      Multiple(start, 8 * q - position / 512);
    }
    if start % 512 == 0 {
      Multiple(position, 8 * q - start / 512);
    }
  }

  /** The pages of the image before `current` and from there on, for any end within the image. */
  lemma {:induction false} PagesSplit(first: nat, current: nat, end: nat, last: nat)
    requires current % 4096 == 0 && first * 4096 <= current && end <= last && current < last + 4096
    ensures PagesTo(current, end) + (current / 4096 - first) <= PagesTo(first * 4096, last)
    ensures first * 4096 < last ==> PagesTo(first * 4096, last) >= 1
  {
    var d := current / 4096 - first;
    assert current == 4096 * (first + d);
  }

  lemma {:induction false} PagesBetween(first: nat, current: nat, next: nat)
    requires current % 4096 == 0 && next % 4096 == 0 && first <= current / 4096 && current <= next
    ensures (next - current) / 4096 + (current / 4096 - first) == next / 4096 - first
  {
    assert current == 4096 * (current / 4096) && next == 4096 * (next / 4096);
  }

  lemma {:induction false} ImageSplit(first: nat, next: nat, imageEnd: nat, end: nat)
    requires next % 4096 == 0 && first <= next / 4096 && next <= end
    requires end % 4096 == 0 && imageEnd <= end < imageEnd + 4096 && first * 4096 < imageEnd
    ensures PagesTo(next, end) + (next / 4096 - first) <= PagesTo(first * 4096, imageEnd)
  {
    assert next == 4096 * (next / 4096) && end == 4096 * (end / 4096);
  }

  // ----- the blob and the page tables -----

  /** None of these addresses is a page table or a free page. */
  ghost predicate AreaApart(tables: map<nat, Table>, free: seq<nat>, phys: nat, total: nat) {
    forall p {:trigger p in tables} | phys <= p < phys + total :: p !in tables && p !in free
  }

  lemma {:induction false} AreaStays(tables: map<nat, Table>, free: seq<nat>, tables': map<nat, Table>, free': seq<nat>,
                                     phys: nat, total: nat)
    requires AreaApart(tables, free, phys, total) && OnlyFromFree(tables, free, tables', free')
    ensures AreaApart(tables', free', phys, total)
  {
    forall p | phys <= p < phys + total ensures p !in tables' && p !in free' {
      assert p !in tables && p !in free;
    }
  }

  class KernelLoader {
    const fs: FileSystem
    const paging: PageTables
    var pages: map<nat, Bytes>
    ghost var mapped: seq<nat>

    constructor (fs: FileSystem, paging: PageTables)
      ensures this.fs == fs && this.paging == paging && pages == map[] && mapped == []
    {
      this.fs, this.paging := fs, paging;
      pages, mapped := map[], [];
    }

    /** Pages with kernel bytes are neither page tables nor free. */
    ghost predicate DataApart()
      reads this, paging
    {
      forall p | p in pages :: p !in paging.tables && p !in paging.free
    }

    ghost predicate Valid()
      reads this, paging, fs.part.cache, fs.part.cache.data
    {
      fs.Valid() && paging.Valid() && DataApart()
    }

    /** The file as the loader sees it. */
    ghost function FileOf(file: Inode): Bytes
      requires InodeOk(file) && fs.part.start + fs.part.size <= |fs.part.cache.disk|
    {
      FileBytes(fs.Contents(), fs.g, file, 0, SizeOf(fs.g, file))
    }

    /** The file that is there. */
    ghost function TrueFile(file: Inode): Bytes
      requires InodeOk(file) && fs.part.start + fs.part.size <= |fs.part.cache.disk|
    {
      FileBytes(fs.Contents(), Wide(fs.g), file, 0, SizeOf(fs.g, file))
    }

    /** The two are the same. */
    ghost predicate Seen(file: Inode)
      requires InodeOk(file) && fs.part.start + fs.part.size <= |fs.part.cache.disk|
    {
      RangeLow(fs.Contents(), fs.g, file, 0, SizeOf(fs.g, file))
    }

    /** The header that the loader finds. */
    ghost function HeaderOf(file: Inode): Header
      requires InodeOk(file) && fs.part.start + fs.part.size <= |fs.part.cache.disk|
    {
      HeaderAt(fs.Contents(), fs.g, file, SizeOf(fs.g, file))
    }

    /** A whole page of memory in no use. */
    ghost predicate Spare(page: nat)
      reads this, paging
    {
      && 0 < page < WORD32 && page % 4096 == 0
      && page !in paging.tables && page !in paging.free && page !in pages
    }

    /** The image is in place up to `current`, each page mapped once and in order. */
    ghost predicate Loaded(start: nat, file: Bytes, first: nat, current: nat)
      reads this, paging
    {
      && current % 4096 == 0 && first <= current / 4096
      && Shown(paging.view, pages, start, file, first, current / 4096) && mapped == Range(first, current / 4096)
    }

    method NewPage() returns (page: nat, crashed: bool)
      requires Valid()
      modifies paging
      ensures crashed <==> old(paging.free) == []
      ensures !crashed ==> Valid() && Spare(page) && paging.view == old(paging.view)
      ensures !crashed ==> |paging.free| + 1 == |old(paging.free)|
    {
      ghost var free := paging.free;
      page, crashed := paging.AllocatePage();
      if !crashed {
        assert page in free;
        forall p | p in pages ensures p !in paging.free {
          assert p !in free;
        }
      }
    }

    /** A filled page becomes the next page of the image. */
    method Install(current: nat, page: nat, content: Bytes, ghost start: nat, ghost file: Bytes, ghost first: nat)
      returns (crashed: bool)
      requires Valid() && Spare(page) && Loaded(start, file, first, current) && current < WORD32
      requires content == ImagePage(start, file, current / 4096)
      modifies this, paging
      ensures crashed ==> old(paging.free) == []
      ensures !crashed ==> Valid() && Loaded(start, file, first, current + 4096)
      ensures !crashed ==> |paging.free| + 1 >= |old(paging.free)|
    {
      ghost var view, tables, free, vpn := paging.view, paging.tables, paging.free, current / 4096;
      crashed := paging.MapPage(current, page);
      if crashed {
        return;
      }
      ShownMore(view, pages, start, file, first, vpn, page, content);
      pages := pages[page := content];
      mapped := mapped + [vpn];
      assert (current + 4096) / 4096 == vpn + 1 && page / 4096 * 4096 == page;
    }

    /** The kernel file lies inside the partition, on a disk that can be read. */
    ghost predicate Intact(file: Inode)
      requires InodeOk(file) && fs.part.start + fs.part.size <= |fs.part.cache.disk|
    {
      fs.part.Healthy() && BytesInside(fs.Contents(), fs.g, file, 0, SizeOf(fs.g, file))
    }

    /** The page in which the image starts, when it does not start on a page boundary. */
    method LoadHead(file: Inode, start: nat, current: nat) returns (crashed: bool)
      requires Valid() && InodeOk(file) && current < start < current + 4096 <= TOP_PAGE && start + SizeOf(fs.g, file) < WORD32
      requires Loaded(start, FileOf(file), current / 4096, current)
      modifies this, paging, fs.part.cache, fs.part.cache.data
      ensures crashed ==> !Intact(file) || |old(paging.free)| < 2
      ensures !crashed ==> |paging.free| + 2 >= |old(paging.free)|
      ensures !crashed ==> Valid() && Loaded(start, FileOf(file), current / 4096, current + 4096)
    {
      var page;
      page, crashed := NewPage();
      if crashed {
        return;
      }
      var fileSize, headCount := SizeOf(fs.g, file), start - current;
      var tailCount := 4096 - headCount;
      var readCount := if tailCount < fileSize then tailCount else fileSize;
      var content;
      content, crashed := ReadPart(file, 0, readCount, false);
      if crashed {
        return;
      }
      HeadPage(start, FileOf(file), current / 4096, headCount, readCount);
      crashed := Install(current, page, Zeros(headCount) + content + Zeros(tailCount - readCount),
                         start, FileOf(file), current / 4096);
    }

    /** BlFsFileRead of a part that lies inside the file. */
    method ReadPart(file: Inode, position: nat, count: nat, bypassCache: bool) returns (content: Bytes, crashed: bool)
      requires fs.Valid() && InodeOk(file) && position + count <= SizeOf(fs.g, file) < WORD32 && count <= 4096
      modifies fs.part.cache, fs.part.cache.data
      ensures crashed ==> !Intact(file) || (bypassCache && count > 0 && Ragged(fs.Contents(), fs.g, file, position, count))
      ensures bypassCache && count > 0 && Ragged(fs.Contents(), fs.g, file, position, count) ==> crashed
      ensures !crashed ==> fs.Valid() && content == FileOf(file)[position..position + count]
    {
      var buffer := new Byte[count];
      assert count > 0 ==> ReadsFile(position, count, SizeOf(fs.g, file));
      PartInside(fs.Contents(), fs.g, file, 0, SizeOf(fs.g, file), position, count);
      crashed := fs.FileRead(file, buffer, 0, count, position, bypassCache);
      content := buffer[..];
      if !crashed {
        FileSlice(fs.Contents(), fs.g, file, SizeOf(fs.g, file), position, count);
        assert buffer[0..count] == content;
      }
    }

    /** A page inside the file, read around the cache. */
    method LoadInner(file: Inode, start: nat, current: nat, ghost first: nat) returns (crashed: bool)
      requires Valid() && InodeOk(file) && start <= current && current + 4096 <= start + SizeOf(fs.g, file) < WORD32
      requires Loaded(start, FileOf(file), first, current)
      modifies this, paging, fs.part.cache, fs.part.cache.data
      ensures crashed ==> !Intact(file) || |old(paging.free)| < 2 || TornPage(fs.Contents(), fs.g, file, start, current / 4096)
      ensures TornPage(fs.Contents(), fs.g, file, start, current / 4096) ==> crashed
      ensures !crashed ==> |paging.free| + 2 >= |old(paging.free)|
      ensures !crashed ==> Valid() && Loaded(start, FileOf(file), first, current + 4096)
    {
      var page, content;
      var position := current - start;
      TornIsRagged(fs.Contents(), fs.g, file, start, current, current / 4096, position);
      page, crashed := NewPage();
      if crashed {
        return;
      }
      content, crashed := ReadPart(file, position, 4096, true);
      if crashed {
        return;
      }
      InnerPage(start, FileOf(file), current / 4096, position);
      crashed := Install(current, page, content, start, FileOf(file), first);
    }

    /** The page in which the file ends. */
    method LoadLast(file: Inode, start: nat, current: nat, ghost first: nat) returns (crashed: bool)
      requires Valid() && InodeOk(file) && start <= current < start + SizeOf(fs.g, file) <= current + 4096
      requires start + SizeOf(fs.g, file) < WORD32 && Loaded(start, FileOf(file), first, current)
      modifies this, paging, fs.part.cache, fs.part.cache.data
      ensures crashed ==> !Intact(file) || |old(paging.free)| < 2
      ensures !crashed ==> |paging.free| + 2 >= |old(paging.free)|
      ensures !crashed ==> Valid() && Loaded(start, FileOf(file), first, current + 4096)
    {
      var page, content;
      page, crashed := NewPage();
      if crashed {
        return;
      }
      var position, headCount := current - start, start + SizeOf(fs.g, file) - current;
      content, crashed := ReadPart(file, position, headCount, false);
      if crashed {
        return;
      }
      LastPage(start, FileOf(file), current / 4096, position);
      assert FileOf(file)[position..position + headCount] == FileOf(file)[position..];
      crashed := Install(current, page, content + Zeros(4096 - headCount), start, FileOf(file), first);
    }

    /** A page behind the file. */
    method LoadZeros(start: nat, current: nat, ghost file: Bytes, ghost first: nat) returns (crashed: bool)
      requires Valid() && start + |file| <= current < WORD32 && Loaded(start, file, first, current)
      modifies this, paging
      ensures crashed ==> |old(paging.free)| < 2
      ensures !crashed ==> |paging.free| + 2 >= |old(paging.free)|
      ensures !crashed ==> Valid() && Loaded(start, file, first, current + 4096)
    {
      var page;
      page, crashed := NewPage();
      if crashed {
        return;
      }
      ZeroPage(start, file, current / 4096);
      crashed := Install(current, page, Zeros(4096), start, file, first);
    }

    ghost predicate Whole(file: Inode, start: nat, next: nat)
      requires InodeOk(file) && fs.part.start + fs.part.size <= |fs.part.cache.disk|
    {
      WholeTo(fs.Contents(), fs.g, file, start, next)
    }

    method LoadNext(file: Inode, start: nat, current: nat, ghost first: nat) returns (crashed: bool)
      requires Valid() && InodeOk(file) && start <= current && current + 4096 <= start + SizeOf(fs.g, file) < WORD32
      requires Loaded(start, FileOf(file), first, current) && Whole(file, start, current)
      modifies this, paging, fs.part.cache, fs.part.cache.data
      ensures crashed ==> !Intact(file) || |old(paging.free)| < 2 || Torn(fs.Contents(), fs.g, file, start)
      ensures !crashed ==> |paging.free| + 2 >= |old(paging.free)|
      ensures !crashed ==> Valid() && Loaded(start, FileOf(file), first, current + 4096) && Whole(file, start, current + 4096)
    {
      WholeNext(fs.Contents(), fs.g, file, start, current, current / 4096);
      crashed := LoadInner(file, start, current, first);
    }

    /** The second phase: whole pages of the file. */
    method LoadInners(file: Inode, start: nat, current: nat, fileEnd: nat, ghost first: nat)
      returns (next: nat, crashed: bool)
      requires Valid() && InodeOk(file) && start <= current < start + 4096
      requires fileEnd == start + SizeOf(fs.g, file) <= TOP_PAGE && Loaded(start, FileOf(file), first, current)
      modifies this, paging, fs.part.cache, fs.part.cache.data
      ensures !crashed ==> Valid() && Reached(current, fileEnd / 4096 * 4096, next) && Loaded(start, FileOf(file), first, next)
      ensures !crashed ==> |paging.free| + 2 * ((next - current) / 4096) >= |old(paging.free)|
      ensures crashed ==> || !Intact(file) || Torn(fs.Contents(), fs.g, file, start)
                          || |old(paging.free)| < 2 * PagesTo(current, fileEnd)
      ensures Torn(fs.Contents(), fs.g, file, start) ==> crashed
    {
      ghost var n := 0;
      var alignedFileEnd := fileEnd / 4096 * 4096;
      next, crashed := current, false;
      BeforeFirst(fs.Contents(), fs.g, file, start, current);
      while next < alignedFileEnd
        invariant Valid() && next == current + 4096 * n && Loaded(start, FileOf(file), first, next)
        invariant next == current || next <= alignedFileEnd
        invariant |paging.free| + 2 * n >= |old(paging.free)| && Whole(file, start, next)
        decreases alignedFileEnd - next
      {
        RoundsLeft(current, fileEnd, n, next);
        InnerRound(current, fileEnd, alignedFileEnd, n, next);
        crashed := LoadNext(file, start, next, first);
        if crashed {
          return;
        }
        next, n := next + 4096, n + 1;
      }
      RoundsDone(current, n, next);
      NoneTorn(fs.Contents(), fs.g, file, start, next, fileEnd);
    }

    /** The second and third phase: what is left of the file. */
    method LoadFile(file: Inode, start: nat, current: nat, fileEnd: nat, ghost first: nat) returns (next: nat, crashed: bool)
      requires Valid() && InodeOk(file) && start <= current < start + 4096
      requires fileEnd == start + SizeOf(fs.g, file) <= TOP_PAGE && Loaded(start, FileOf(file), first, current)
      modifies this, paging, fs.part.cache, fs.part.cache.data
      ensures !crashed ==> Valid() && current <= next && Loaded(start, FileOf(file), first, next)
      ensures !crashed ==> fileEnd <= next && (next == current || next < fileEnd + 4096)
      ensures !crashed ==> |paging.free| + 2 * ((next - current) / 4096) >= |old(paging.free)|
      ensures crashed ==> || !Intact(file) || Torn(fs.Contents(), fs.g, file, start)
                          || |old(paging.free)| < 2 * PagesTo(current, fileEnd)
      ensures Torn(fs.Contents(), fs.g, file, start) ==> crashed
    {
      next, crashed := LoadInners(file, start, current, fileEnd, first);
      if crashed {
        return;
      }
      var behind := next + 4096;
      LastPageEnds(current, fileEnd, next, behind);
      if next < fileEnd {
        crashed := LoadLast(file, start, next, first);
        next := behind;
      }
    }

    /** The last phase: zeros up to the end of the image. */
    method LoadRest(start: nat, current: nat, end: nat, ghost file: Bytes, ghost first: nat) returns (crashed: bool)
      requires Valid() && start + |file| <= current && end <= WORD32 && end % 4096 == 0
      requires Loaded(start, file, first, current)
      modifies this, paging
      ensures !crashed ==> Valid() && Loaded(start, file, first, if current < end then end else current)
      ensures crashed ==> |old(paging.free)| < 2 * PagesTo(current, end)
    {
      ghost var n := 0;
      var next := current;
      crashed := false;
      while next < end
        invariant Valid() && next == current + 4096 * n && (next == current || next <= end) && Loaded(start, file, first, next)
        invariant |paging.free| + 2 * n >= |old(paging.free)|
        decreases end - next
      {
        RoundsLeft(current, end, n, next);
        crashed := LoadZeros(start, next, file, first);
        if crashed {
          return;
        }
        next := next + 4096;
        n := n + 1;
      }
    }

    /** The first phase: nothing to do when the image starts on a page boundary. */
    method LoadStart(file: Inode, start: nat, ghost first: nat) returns (current: nat, crashed: bool)
      requires Valid() && InodeOk(file) && start + SizeOf(fs.g, file) <= TOP_PAGE && start < TOP_PAGE
      requires first == start / 4096 && mapped == []
      modifies this, paging, fs.part.cache, fs.part.cache.data
      ensures !crashed ==> Valid() && start <= current < start + 4096 && current % 4096 == 0
      ensures !crashed ==> current == AlignUpPage(start)
      ensures !crashed ==> Loaded(start, FileOf(file), first, current)
      ensures !crashed ==> |paging.free| + 2 * (current / 4096 - first) >= |old(paging.free)|
      ensures crashed ==> !Intact(file) || |old(paging.free)| < 2
    {
      current, crashed := start / 4096 * 4096, false;
      if current < start {
        crashed := LoadHead(file, start, current);
        current := current + 4096;
      }
    }

    /** The first three phases: everything that holds file bytes. */
    method LoadContents(file: Inode, start: nat, fileEnd: nat, ghost imageEnd: nat, ghost first: nat)
      returns (next: nat, crashed: bool)
      requires Valid() && InodeOk(file) && fileEnd == start + SizeOf(fs.g, file) <= imageEnd <= TOP_PAGE && start < imageEnd
      requires first == start / 4096 && mapped == []
      modifies this, paging, fs.part.cache, fs.part.cache.data
      ensures crashed ==> || !Intact(file) || Torn(fs.Contents(), fs.g, file, start)
                          || |old(paging.free)| < 2 * PagesTo(first * 4096, imageEnd)
      ensures Torn(fs.Contents(), fs.g, file, start) ==> crashed
      ensures !crashed ==> Valid() && Loaded(start, FileOf(file), first, next) && fileEnd <= next
      ensures !crashed ==> next < fileEnd + 4096 || next < start + 4096
      ensures !crashed ==> |paging.free| + 2 * (next / 4096 - first) >= |old(paging.free)|
    {
      var current;
      current, crashed := LoadStart(file, start, first);
      next := current;
      if crashed {
        PagesSplit(first, start / 4096 * 4096, imageEnd, imageEnd);
        return;
      }
      PagesSplit(first, current, fileEnd, imageEnd);
      next, crashed := LoadFile(file, start, current, fileEnd, first);
      if !crashed {
        PagesBetween(first, current, next);
      }
    }

    /** The four phases. Behind the file, an image that does not fit below the last page gets nothing. */
    method LoadImage(file: Inode, start: nat, msize: nat, ghost first: nat) returns (crashed: bool)
      requires Valid() && InodeOk(file) && 0 < msize < WORD32 && SizeOf(fs.g, file) <= msize
      requires start + SizeOf(fs.g, file) <= TOP_PAGE && start < TOP_PAGE
      requires first == start / 4096 && mapped == []
      modifies this, paging, fs.part.cache, fs.part.cache.data
      ensures crashed ==> || !Intact(file) || Torn(fs.Contents(), fs.g, file, start)
                          || |old(paging.free)| < 2 * PagesTo(first * 4096, start + msize)
      ensures Torn(fs.Contents(), fs.g, file, start) ==> crashed
      ensures !crashed ==> Valid() && Loaded(start, FileOf(file), first, ImageTop(start, msize, SizeOf(fs.g, file)))
    {
      var fileEnd, imageEnd := start + SizeOf(fs.g, file), start + msize;
      var next, end := 0, AlignUpPage(imageEnd);
      ghost var bound := if imageEnd <= TOP_PAGE then imageEnd else TOP_PAGE;
      MorePages(first, bound, imageEnd);
      next, crashed := LoadContents(file, start, fileEnd, bound, first);
      if crashed {
        return;
      }
      EndOfImage(start, msize, SizeOf(fs.g, file), first, next, end);
      crashed := LoadRest(start, next, end, FileOf(file), first);
    }

    /** The beginning of BiLoadKernel: the header is read through the cache, whatever the size of the file. */
    method ReadHeader(file: Inode) returns (h: Header, crashed: bool)
      requires Valid() && InodeOk(file) && SizeOf(fs.g, file) < WRAP
      modifies fs.part.cache, fs.part.cache.data
      ensures crashed ==> !fs.part.Healthy() || !BytesInside(fs.Contents(), fs.g, file, 0, HEADER_SIZE)
      ensures !crashed ==> Valid() && h == HeaderOf(file)
    {
      var buffer := new Byte[HEADER_SIZE](_ => 0);
      crashed := fs.FileRead(file, buffer, 0, HEADER_SIZE, 0, false);
      assert buffer[0..HEADER_SIZE] == buffer[..];
      assert !ReadsFile(0, HEADER_SIZE, SizeOf(fs.g, file)) ==> buffer[..] == Zeros(HEADER_SIZE);
      h := DecodeHeader(buffer[..]);
    }

    /** BiLoadKernel: if it returns, the image is zeros, the file and zeros, seen through the page table. With a good
        header, a readable file and enough pages it crashes exactly if some page inside the file is torn. */
    method LoadKernel(file: Inode) returns (crashed: bool)
      requires Valid() && InodeOk(file) && SizeOf(fs.g, file) < WRAP
      requires HeaderAccepted(HeaderOf(file)) ==> HeaderOf(file).virtualAddr + SizeOf(fs.g, file) <= TOP_PAGE
      modifies this, paging, fs.part.cache, fs.part.cache.data
      ensures !HeaderAccepted(HeaderOf(file)) || SizeOf(fs.g, file) > HeaderOf(file).msize ==> crashed
      ensures Torn(fs.Contents(), fs.g, file, HeaderOf(file).virtualAddr) ==> crashed
      ensures crashed ==> || !HeaderAccepted(HeaderOf(file)) || SizeOf(fs.g, file) > HeaderOf(file).msize || !Intact(file)
                          || !BytesInside(fs.Contents(), fs.g, file, 0, HEADER_SIZE)
                          || Torn(fs.Contents(), fs.g, file, HeaderOf(file).virtualAddr)
                          || |old(paging.free)| < 2 * ImagePages(HeaderOf(file))
      ensures !crashed ==> Valid() && LoadedImage(HeaderOf(file), FileOf(file))
      ensures !crashed && Seen(file) ==> LoadedImage(HeaderOf(file), TrueFile(file))
    {
      var h;
      SeenFile(fs.Contents(), fs.g, file, SizeOf(fs.g, file));
      HeaderFits(fs.Contents(), fs.g, file, SizeOf(fs.g, file));
      h, crashed := ReadHeader(file);
      if crashed || !HeaderAccepted(h) || SizeOf(fs.g, file) > h.msize {
        return true;
      }
      crashed := LoadChecked(file, h);
    }

    /** The rest of BiLoadKernel, after the checks. */
    method LoadChecked(file: Inode, h: Header) returns (crashed: bool)
      requires Valid() && InodeOk(file) && 0 < h.msize && SizeOf(fs.g, file) <= h.msize
      requires h.msize < WORD32 && h.virtualAddr + SizeOf(fs.g, file) <= TOP_PAGE && h.virtualAddr < TOP_PAGE
      modifies this, paging, fs.part.cache, fs.part.cache.data
      ensures Torn(fs.Contents(), fs.g, file, h.virtualAddr) ==> crashed
      ensures crashed ==> || !Intact(file) || Torn(fs.Contents(), fs.g, file, h.virtualAddr)
                          || |old(paging.free)| < 2 * ImagePages(h)
      ensures !crashed ==> Valid() && LoadedImage(h, FileOf(file))
    {
      mapped := [];
      crashed := LoadImage(file, h.virtualAddr, h.msize, h.virtualAddr / 4096);
    }

    /** The image of a kernel is in place, as far as it is mapped. */
    ghost predicate LoadedImage(h: Header, file: Bytes)
      reads this, paging
    {
      Loaded(h.virtualAddr, file, h.virtualAddr / 4096, ImageTop(h.virtualAddr, h.msize, |file|))
    }

    // ----- the device tree -----

    /** The pages of the blob are in no page table, and not free. */
    ghost predicate BlobApart(phys: nat, total: nat)
      reads paging
    {
      AreaApart(paging.tables, paging.free, phys, total)
    }

    /** BlDtBuildBlob before it writes the blob: a blob that does not fit its area is refused, otherwise it is mapped. */
    method MapBlob(h: Header, phys: nat, total: nat) returns (crashed: bool)
      requires Valid() && h.mapDtb && phys % 4096 == 0 && 0 < total && phys + total <= WORD32
      requires AlignUpPage(h.dtbAddress) + total <= WORD32 && BlobApart(phys, total)
      modifies paging
      ensures AlignUpPage(h.dtbAddress) + (total - 1) > h.maxDtbEnd ==> crashed && paging.view == old(paging.view)
      ensures crashed ==> AlignUpPage(h.dtbAddress) + (total - 1) > h.maxDtbEnd || |old(paging.free)| < PagesTo(0, total)
      ensures !crashed ==> Valid() && BlobApart(phys, total)
      ensures !crashed ==> Windowed(old(paging.view), paging.view, AlignUpPage(h.dtbAddress) / 4096, phys, PagesTo(0, total))
    {
      var dtb := AlignUpPage(h.dtbAddress);
      if W32(dtb + (total - 1)) > h.maxDtbEnd {
        return true;
      }
      crashed := MapWindow(dtb, phys, total);
    }

    /** The mapping loop of BlDtBuildBlob: a contiguous window of virtual pages on the blob. */
    method MapWindow(dtb: nat, phys: nat, total: nat) returns (crashed: bool)
      requires Valid() && dtb % 4096 == 0 && phys % 4096 == 0 && dtb + total <= WORD32 && phys + total <= WORD32
      requires BlobApart(phys, total)
      modifies paging
      ensures crashed ==> |old(paging.free)| < PagesTo(0, total)
      ensures !crashed ==> Valid() && BlobApart(phys, total)
      ensures !crashed ==> Windowed(old(paging.view), paging.view, dtb / 4096, phys, PagesTo(0, total))
    {
      var offset := 0;
      ghost var before, n := paging.view, 0;
      while offset < total
        invariant offset == n * 4096 && Valid() && BlobApart(phys, total) && n <= PagesTo(0, total)
        invariant Windowed(before, paging.view, dtb / 4096, phys, n) && |paging.free| + n >= |old(paging.free)|
        decreases total - offset
      {
        RoundsLeft(0, total, n, offset);
        ghost var view := paging.view;
        crashed := MapOne(dtb + offset, phys + offset, phys, total);
        if crashed {
          return;
        }
        WindowGrows(before, view, paging.view, dtb, phys, n, offset);
        offset, n := offset + 4096, n + 1;
      }
      AllPages(total, n);
      crashed := false;
    }

    /** Tables are made of free pages only, so neither kernel pages nor the blob become tables. */
    method MapOne(virt: nat, frame: nat, ghost phys: nat, ghost total: nat) returns (crashed: bool)
      requires Valid() && virt < WORD32 && frame < WORD32 && BlobApart(phys, total)
      modifies paging
      ensures crashed ==> old(paging.free) == []
      ensures !crashed ==> Valid() && BlobApart(phys, total) && |paging.free| + 1 >= |old(paging.free)|
      ensures !crashed ==> paging.view == old(paging.view)[virt / 4096 := frame / 4096 * 4096]
    {
      ghost var tables, free := paging.tables, paging.free;
      crashed := paging.MapPage(virt, frame);
      AreaStays(tables, free, paging.tables, paging.free, phys, total);
      forall p | p in pages ensures p !in paging.tables && p !in paging.free {
        assert p !in tables && p !in free;
      }
    }
  }

  /** In 32 bits the end of the blob may wrap. The area is refused when it should be exactly if it does not, or if
      what is left is beyond the limit as well. */
  lemma {:induction false} RefusalExact(dtb: nat, total: nat, maxEnd: nat)
    requires dtb < WORD32 && 0 < total < WORD32 && maxEnd < WORD32
    ensures (W32(dtb + (total - 1)) > maxEnd <==> dtb + (total - 1) > maxEnd) <==>
            (dtb + (total - 1) < WORD32 || W32(dtb + (total - 1)) > maxEnd)
  {
  }

  /** A blob of two pages in the last page of the address space is let through. */
  lemma {:induction false} WrappedEnd()
    ensures W32(0xffff_f000 + (0x2000 - 1)) <= 0xffff_ffff < 0xffff_f000 + (0x2000 - 1)
  {
  }

  lemma {:induction false} BeforeFirst(part: Bytes, g: Geometry, file: Inode, start: nat, current: nat)
    requires InodeOk(file) && current % 4096 == 0 && current < start + 4096
    ensures WholeTo(part, g, file, start, current)
  {
    forall page: nat | page < current / 4096 ensures !TornPage(part, g, file, start, page) {
      assert page * 4096 + 4096 <= current;
    }
  }

  lemma {:induction false} NoneTorn(part: Bytes, g: Geometry, file: Inode, start: nat, next: nat, fileEnd: nat)
    requires InodeOk(file) && fileEnd == start + SizeOf(g, file) && next % 4096 == 0 && fileEnd / 4096 * 4096 <= next
    requires WholeTo(part, g, file, start, next)
    ensures !Torn(part, g, file, start)
  {
    forall page: nat ensures !TornPage(part, g, file, start, page) {
      assert page * 4096 + 4096 <= fileEnd ==> page + 1 <= fileEnd / 4096;
    }
  }

  /** A file whose pointers are all seen as they are is the file that is there. */
  lemma {:induction false} SeenFile(part: Bytes, g: Geometry, file: Inode, size: nat)
    requires InodeOk(file) && 10 <= g.shift <= 12 && g.narrow
    ensures RangeLow(part, g, file, 0, size) ==> FileBytes(part, g, file, 0, size) == FileBytes(part, Wide(g), file, 0, size)
  {
    if RangeLow(part, g, file, 0, size) {
      BytesTrue(part, g, file, 0, size);
    }
  }

  lemma {:induction false} AllPages(total: nat, n: nat)
    requires total <= n * 4096 && n <= PagesTo(0, total)
    ensures n == PagesTo(0, total)
  {
  }

  lemma {:induction false} WindowGrows(before: map<nat, nat>, view: map<nat, nat>, after: map<nat, nat>, dtb: nat,
                                       phys: nat, n: nat, offset: nat)
    requires dtb % 4096 == 0 && phys % 4096 == 0 && offset == n * 4096
    requires Windowed(before, view, dtb / 4096, phys, n)
    requires after == view[(dtb + offset) / 4096 := (phys + offset) / 4096 * 4096]
    ensures Windowed(before, after, dtb / 4096, phys, n + 1)
  {
    assert (dtb + offset) / 4096 == dtb / 4096 + n && (phys + offset) / 4096 * 4096 == phys + n * 4096;
  }

  /** The end of the last page that is mapped. If the image does not fit below the last page, the end of the image
      wraps to zero, and only the pages of the file are mapped. */
  function ImageTop(start: nat, msize: nat, size: nat): nat {
    if start + msize <= TOP_PAGE then AlignUpPage(start + msize) else AlignUpPage(start + size)
  }

  /** The whole image is mapped if and only if it fits. */
  lemma {:induction false} TopExact(start: nat, msize: nat, size: nat)
    requires size <= msize && start + size <= TOP_PAGE
    ensures start + msize <= ImageTop(start, msize, size) <==> start + msize <= TOP_PAGE
    ensures start + size <= ImageTop(start, msize, size)
  {
    EndExact(start + size);
    if start + msize <= TOP_PAGE {
      EndExact(start + msize);
    }
  }

  /** An accepted kernel of two pages whose file is one page long: of its second page, the last one of the address
      space, nothing is mapped. */
  lemma {:induction false} LateKernel()
    ensures HeaderAccepted(Header(MAGIC, MAJOR, 0xffff_e000, 0x2000, 0xffff_e000, false, 0, 0))
    ensures AlignUpPage(0xffff_e000 + 0x2000) == 0
    ensures ImageTop(0xffff_e000, 0x2000, 0x1000) == 0xffff_f000
  {
  }

  lemma {:induction false} EndIsBehind(start: nat, imageEnd: nat, fileEnd: nat, next: nat, end: nat)
    requires start < imageEnd && fileEnd <= imageEnd <= TOP_PAGE && end == AlignUpPage(imageEnd)
    requires next % 4096 == 0 && (next < fileEnd + 4096 || next < start + 4096)
    ensures next <= end <= WORD32 && end % 4096 == 0 && imageEnd <= end < imageEnd + 4096
  {
    EndExact(imageEnd);
    assert next == 4096 * (next / 4096) && end == 4096 * (end / 4096);
  }

  lemma {:induction false} EndIsBefore(start: nat, imageEnd: nat, fileEnd: nat, next: nat, end: nat)
    requires start <= fileEnd <= TOP_PAGE < imageEnd < start + WORD32 && end == AlignUpPage(imageEnd)
    requires next % 4096 == 0 && fileEnd <= next < fileEnd + 4096
    ensures end <= next && end <= WORD32 && end % 4096 == 0 && next == AlignUpPage(fileEnd)
  {
    var rest := imageEnd + 4095 - WORD32;
    assert rest < WORD32 && rest < start + 4095;
    assert end == rest / 4096 * 4096;
    assert next == 4096 * (next / 4096);
    EndExact(fileEnd);
  }

  /** Where the loop over the pages behind the file ends. */
  lemma {:induction false} EndOfImage(start: nat, msize: nat, size: nat, first: nat, next: nat, end: nat)
    requires 0 < msize < WORD32 && size <= msize && start + size <= TOP_PAGE && end == AlignUpPage(start + msize)
    requires first == start / 4096 && next % 4096 == 0 && first <= next / 4096
    requires start + size <= next && (next < start + size + 4096 || next < start + 4096)
    ensures end <= WORD32 && end % 4096 == 0
    ensures (if next < end then end else next) == ImageTop(start, msize, size)
    ensures next < end ==> PagesTo(next, end) + (next / 4096 - first) <= PagesTo(first * 4096, start + msize)
    ensures next >= end ==> PagesTo(next, end) == 0
  {
    var imageEnd, fileEnd := start + msize, start + size;
    if imageEnd <= TOP_PAGE {
      EndIsBehind(start, imageEnd, fileEnd, next, end);
      ImageSplit(first, next, imageEnd, end);
    } else {
      EndIsBefore(start, imageEnd, fileEnd, next, end);
    }
  }

  lemma {:induction false} MorePages(first: nat, bound: nat, end: nat)
    requires bound <= end
    ensures PagesTo(first * 4096, bound) <= PagesTo(first * 4096, end)
  {
  }

  /** An accepted header is not empty, and its fields are words. */
  lemma {:induction false} HeaderFits(part: Bytes, g: Geometry, file: Inode, size: nat)
    requires InodeOk(file)
    ensures var h := HeaderAt(part, g, file, size); HeaderAccepted(h) ==> size > 0 && 0 < h.msize < WORD32
  {
    if size == 0 {
      assert U32(Zeros(HEADER_SIZE), 0) == 0;
    }
  }

  /** `n` pages from page `first` on are mapped to consecutive frames, and the other pages are as before. */
  ghost predicate Windowed(before: map<nat, nat>, after: map<nat, nat>, first: nat, phys: nat, n: nat) {
    forall page: nat {:trigger page in after} ::
      if first <= page < first + n then page in after && after[page] == phys + (page - first) * 4096
      else (page in after <==> page in before) && (page in before ==> after[page] == before[page])
  }

  /** A window that shares no page with the kernel leaves the image in place. */
  lemma {:induction false} WindowKeepsImage(before: map<nat, nat>, after: map<nat, nat>, pages: map<nat, Bytes>, file: Bytes,
                                            start: nat, size: nat, dtb: nat, phys: nat, total: nat, end: nat)
    requires 0 < size && 0 < total && dtb % 4096 == 0 && end == (start + size - 1) / 4096 + 1
    requires Windowed(before, after, dtb / 4096, phys, PagesTo(0, total))
    requires forall page {:trigger SharedPage(start, size, dtb, total, page)} :: !SharedPage(start, size, dtb, total, page)
    requires Shown(before, pages, start, file, start / 4096, end)
    ensures Shown(after, pages, start, file, start / 4096, end)
  {
    forall page | start / 4096 <= page < end ensures PageShown(after, pages, start, file, page) {
      assert PageShown(before, pages, start, file, page) && !SharedPage(start, size, dtb, total, page);
      assert page in before;
      assert !(dtb / 4096 <= page < dtb / 4096 + PagesTo(0, total));
      assert page in after;
    }
  }

  /** Every address of the image reads its byte through the page table. */
  lemma {:induction false} ImageReads(view: map<nat, nat>, pages: map<nat, Bytes>, start: nat, file: Bytes,
                                      first: nat, end: nat, a: nat)
    requires Shown(view, pages, start, file, first, end) && first * 4096 <= a < end * 4096
    ensures a / 4096 in view && view[a / 4096] in pages && |pages[view[a / 4096]]| == 4096
    ensures pages[view[a / 4096]][a % 4096] == if start <= a < start + |file| then file[a - start] else 0
  {
    var page, k := a / 4096, a % 4096;
    assert PageShown(view, pages, start, file, page) && page * 4096 + k == a;
    assert ImagePage(start, file, page)[k] == ImageByte(start, file, page * 4096 + k);
  }

  /** No page number is listed twice, and none is missing. */
  lemma {:induction false} RangeOnce(first: nat, end: nat, i: nat)
    requires i < |Range(first, end)|
    ensures first <= end && |Range(first, end)| == end - first && Range(first, end)[i] == first + i
  {
    if i < |Range(first, end)| - 1 {
      RangeOnce(first, end - 1, i);
    } else if first < end - 1 {
      RangeOnce(first, end - 1, 0);
    }
  }
}
