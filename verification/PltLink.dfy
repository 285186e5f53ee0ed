/** Who puts the table there: the linker, which sizes and writes .plt, .got.plt and .rela.plt, and the dynamic
    linker, which prepares .got.plt of a loaded object. Sections are arrays of 32-bit words. */
module PltLink {
  import opened Basics
  import opened Xr17032
  import opened Plt

  const MINUS_ONE := 0xffff_ffff
  const R_IRELATIVE := 3
  const R_JUMP_SLOT := 4

  function PltSize(n: nat): nat {
    if n == 0 then 0 else PLT_HEADER_SIZE + PLT_ENTRY_SIZE * n
  }

  /** ELF32_R_INFO of a JUMP_SLOT. */
  function JumpSlotInfo(dynindx: nat): nat {
    dynindx * 256 + R_JUMP_SLOT
  }

  /** ELF32_R_TYPE */
  function TypeOf(info: nat): nat {
    info % 256
  }

  lemma {:induction false} InfoIsJumpSlot(dynindx: nat)
    ensures JumpSlotInfo(dynindx) / 256 == dynindx && JumpSlotInfo(dynindx) % 256 == 4
  {
  }

  /** `words` holds the instructions `code`, from index `at` on. */
  predicate Holds(words: seq<nat>, at: nat, code: seq<Insn>) {
    at + |code| <= |words| && forall k | 0 <= k < |code| :: words[at + k] == Encode(code[k])
  }

  /** What the linker leaves for entry `i`: four instructions, a slot that leads to the header, and a relocation
      for that slot and the symbol. */
  predicate EntryLinked(plt: seq<nat>, got: seq<nat>, rel: seq<nat>, pltAt: nat, gotAt: nat, i: nat, dynindx: nat) {
    |got| > 2 + i && |rel| >= 3 * i + 3 &&
    Holds(plt, 7 + 4 * i, EntryCode(Delta(EntryAddress(pltAt, i), SlotAddress(gotAt, i))) + [NOP]) &&
    got[2 + i] == pltAt &&
    rel[3 * i] == SlotAddress(gotAt, i) && rel[3 * i + 1] == JumpSlotInfo(dynindx) && rel[3 * i + 2] == 0
  }

  /** The header, if there are entries, and the two reserved words. */
  predicate HeaderLinked(plt: seq<nat>, got: seq<nat>, pltAt: nat, gotAt: nat, n: nat) {
    (n > 0 ==> Holds(plt, 0, HeaderCode(Delta(pltAt, gotAt)))) && |got| >= 2 && got[0] == MINUS_ONE && got[1] == 0
  }

  /** The three sections of an object whose PLT symbols have the indices `dynindxs`. */
  ghost predicate Linked(plt: seq<nat>, got: seq<nat>, rel: seq<nat>, pltAt: nat, gotAt: nat, dynindxs: seq<nat>) {
    |plt| == PltSize(|dynindxs|) / 4 && |got| == 2 + |dynindxs| && |rel| == 3 * |dynindxs| &&
    HeaderLinked(plt, got, pltAt, gotAt, |dynindxs|) &&
    forall i | 0 <= i < |dynindxs| :: EntryLinked(plt, got, rel, pltAt, gotAt, i, dynindxs[i])
  }

  /** Sections fit the address space and are aligned to words. */
  predicate Placed(pltAt: nat, gotAt: nat, n: nat) {
    0 < pltAt && pltAt % 4 == 0 && gotAt % 4 == 0 && EntryAddress(pltAt, n) <= WORD32 && SlotAddress(gotAt, n) < WORD32
  }

  lemma {:induction false} EntryFrame(plt: seq<nat>, got: seq<nat>, rel: seq<nat>, plt': seq<nat>, got': seq<nat>,
                                      rel': seq<nat>, pltAt: nat, gotAt: nat, i: nat, dynindx: nat)
    requires EntryLinked(plt, got, rel, pltAt, gotAt, i, dynindx)
    requires |plt'| == |plt| && |got'| == |got| && |rel'| == |rel|
    requires forall k | 7 + 4 * i <= k < 11 + 4 * i :: k < |plt| ==> plt'[k] == plt[k]
    requires got'[2 + i] == got[2 + i]
    requires forall k | 3 * i <= k < 3 * i + 3 :: k < |rel| ==> rel'[k] == rel[k]
    ensures EntryLinked(plt', got', rel', pltAt, gotAt, i, dynindx)
  {
  }

  lemma {:induction false} HoldsMoved(entry: seq<nat>, words: seq<nat>, at: nat, code: seq<Insn>)
    requires Holds(entry, 0, code) && at + |code| <= |words|
    requires forall k | 0 <= k < |code| :: words[at + k] == entry[k]
    ensures Holds(words, at, code)
  {
    forall k | 0 <= k < |code| ensures words[at + k] == Encode(code[k]) {
      assert entry[0 + k] == Encode(code[k]);
    }
  }

  /** The loop over bfd_putl32. */
  method PutWords(words: array<nat>, at: nat, entry: seq<nat>)
    requires at + |entry| <= words.Length
    modifies words
    ensures forall k | 0 <= k < |entry| :: words[at + k] == entry[k]
    ensures forall k | 0 <= k < words.Length && !(at <= k < at + |entry|) :: words[k] == old(words[k])
  {
    var k := 0;
    while k < |entry|
      invariant k <= |entry|
      invariant forall j | 0 <= j < k :: words[at + j] == entry[j]
      invariant forall j | 0 <= j < words.Length && !(at <= j < at + |entry|) :: words[j] == old(words[j])
    {
      words[at + k] := entry[k];
      k := k + 1;
    }
  }

  class Linker {
    const pltAt: nat
    const gotAt: nat
    var pltSize: nat
    var gotSize: nat
    var relSize: nat
    var plt: array<nat>
    var got: array<nat>
    var rel: array<nat>

    /** .got.plt starts with its two reserved words. */
    constructor (pltAt: nat, gotAt: nat)
      ensures Sized(0) && this.pltAt == pltAt && this.gotAt == gotAt
    {
      this.pltAt, this.gotAt := pltAt, gotAt;
      pltSize, gotSize, relSize := 0, GOTPLT_HEADER_SIZE, 0;
      plt, got, rel := new nat[0], new nat[0], new nat[0];
    }

    /** The sections have room for `n` symbols. */
    ghost predicate Sized(n: nat)
      reads this
    {
      pltSize == PltSize(n) && gotSize == GOTPLT_HEADER_SIZE + GOT_ENTRY_SIZE * n && relSize == RELA_SIZE * n
    }

    /** The contents of the sections have been allocated. */
    ghost predicate Allocated(n: nat)
      reads this
    {
      Sized(n) && plt.Length == PltSize(n) / 4 && got.Length == 2 + n && rel.Length == 3 * n &&
      plt != got && plt != rel && got != rel && Placed(pltAt, gotAt, n)
    }

    /** allocate_dynrelocs: room for one more symbol; its entry starts at `offset`. */
    method AllocateDynRelocs(ghost n: nat) returns (offset: nat)
      requires Sized(n)
      modifies `pltSize, `gotSize, `relSize
      ensures Sized(n + 1) && offset == PLT_HEADER_SIZE + PLT_ENTRY_SIZE * n
    {
      if pltSize == 0 {
        pltSize := PLT_HEADER_SIZE;
      }
      offset := pltSize;
      pltSize := pltSize + PLT_ENTRY_SIZE;
      gotSize := gotSize + GOT_ENTRY_SIZE;
      relSize := relSize + RELA_SIZE;
    }

    method AllocateContents(ghost n: nat)
      requires Sized(n) && Placed(pltAt, gotAt, n)
      modifies `plt, `got, `rel
      ensures Allocated(n) && fresh(plt) && fresh(got) && fresh(rel)
    {
      plt, got, rel := new nat[pltSize / 4], new nat[gotSize / 4], new nat[relSize / 4];
    }

    /** xr17032_make_plt_entry. */
    method MakePltEntry(slot: nat, at: nat) returns (entry: seq<nat>)
      ensures |entry| == 4 && Holds(entry, 0, EntryCode(Delta(at, slot)) + [NOP])
      ensures entry[0] == 0x130 + Delta(at, slot) / 0x1_0000 * 0x1_0000
      ensures entry[1] == 0x212b + Delta(at, slot) % 0x1_0000 / 4 * 0x1_0000
      ensures entry[2] == 0x20b8 && entry[3] == 0x3c
    {
      var x := Delta(at, slot);
      entry := [EncodeI16P(OPCODE_ADR, T3, High(x)), EncodeI2(OPCODE_LL, T3, T3, Low(x)),
                EncodeI2(OPCODE_JALR, T1, T3, 0), EncodeI(OPCODE_ADDI, ZERO, ZERO, 0)];
    }

    /** xr17032_make_plt_header. */
    method MakePltHeader(slot: nat, at: nat) returns (entry: seq<nat>)
      ensures |entry| == 7 && Holds(entry, 0, HeaderCode(Delta(at, slot)))
      ensures entry[0] == 0xf0 + Delta(at, slot) / 0x1_0000 * 0x1_0000 && entry[1] == 0x6004_10b9
      ensures entry[2] == 0x192b + Delta(at, slot) % 0x1_0000 / 4 * 0x1_0000 && entry[3] == 0x28_10b4
      ensures entry[4] == 0x7442_00b9 && entry[5] == 0x186b + (Delta(at, slot) % 0x1_0000 + 4) / 4 * 0x1_0000
      ensures entry[6] == 0x2038
    {
      var x := Delta(at, slot);
      entry := [EncodeI16P(OPCODE_ADR, T2, High(x)), EncodeR(FUNCTION_SUB, T1, T1, T3, Lsh, 0),
                EncodeI2(OPCODE_LL, T3, T2, Low(x)), EncodeI(OPCODE_SUBI, T1, T1, PLT_HEADER_SIZE + 12),
                EncodeR(FUNCTION_ADD, T1, ZERO, T1, Rsh, 2), EncodeI2(OPCODE_LL, T0, T2, Low(x) + 4),
                EncodeI2(OPCODE_JALR, ZERO, T3, 0)];
    }

    /** The PLT part of xr17032_elf_finish_dynamic_symbol, for a symbol whose entry starts at `offset`. */
    method FinishDynamicSymbol(offset: nat, dynindx: nat, ghost n: nat, ghost i: nat)
      requires Allocated(n) && i < n && offset == PLT_HEADER_SIZE + PLT_ENTRY_SIZE * i
      modifies plt, got, rel
      ensures EntryLinked(plt[..], got[..], rel[..], pltAt, gotAt, i, dynindx)
      ensures forall k | 0 <= k < plt.Length && !(7 + 4 * i <= k < 11 + 4 * i) :: plt[k] == old(plt[k])
      ensures forall k | 0 <= k < got.Length && k != 2 + i :: got[k] == old(got[k])
      ensures forall k | 0 <= k < rel.Length && !(3 * i <= k < 3 * i + 3) :: rel[k] == old(rel[k])
    {
      var index := (offset - PLT_HEADER_SIZE) / PLT_ENTRY_SIZE;
      var gotOffset := GOTPLT_HEADER_SIZE + index * GOT_ENTRY_SIZE;
      assert index == i && gotOffset / 4 == 2 + index;
      var slot := gotAt + gotOffset;
      WriteEntry(slot, offset, i);
      got[gotOffset / 4] := pltAt;
      WriteRela(index * 3, slot, dynindx);
    }

    /** Fills in the PLT entry itself. */
    method WriteEntry(slot: nat, offset: nat, ghost i: nat)
      requires offset == PLT_HEADER_SIZE + PLT_ENTRY_SIZE * i && 11 + 4 * i <= plt.Length
      modifies plt
      ensures Holds(plt[..], 7 + 4 * i, EntryCode(Delta(pltAt + offset, slot)) + [NOP])
      ensures forall k | 0 <= k < plt.Length && !(7 + 4 * i <= k < 11 + 4 * i) :: plt[k] == old(plt[k])
    {
      var entry := MakePltEntry(slot, pltAt + offset);
      var loc := offset / 4;
      assert loc == 7 + 4 * i;
      PutWords(plt, loc, entry);
      HoldsMoved(entry, plt[..], loc, EntryCode(Delta(pltAt + offset, slot)) + [NOP]);
    }

    /** Fills in the entry in .rela.plt. */
    method WriteRela(record: nat, slot: nat, dynindx: nat)
      requires record + 2 < rel.Length
      modifies rel
      ensures rel[record] == slot && rel[record + 1] == JumpSlotInfo(dynindx) && rel[record + 2] == 0
      ensures forall k | 0 <= k < rel.Length && !(record <= k < record + 3) :: rel[k] == old(rel[k])
    {
      rel[record] := slot;
      rel[record + 1] := JumpSlotInfo(dynindx);
      rel[record + 2] := 0;
    }

    /** The parts of xr17032_elf_finish_dynamic_sections that write .plt and .got.plt. */
    method FinishDynamicSections(ghost n: nat)
      requires Allocated(n)
      modifies plt, got
      ensures HeaderLinked(plt[..], got[..], pltAt, gotAt, n)
      ensures forall k | 7 <= k < plt.Length :: plt[k] == old(plt[k])
      ensures forall k | 2 <= k < got.Length :: got[k] == old(got[k])
    {
      if pltSize > 0 {
        var header := MakePltHeader(gotAt, pltAt);
        PutWords(plt, 0, header);
        HoldsMoved(header, plt[..], 0, HeaderCode(Delta(pltAt, gotAt)));
      }
      if gotSize > 0 {
        got[0], got[1] := MINUS_ONE, 0;
      }
    }

    /** Sizing, then writing, for the PLT symbols with the dynamic indices `dynindxs`. */
    method Link(dynindxs: seq<nat>) returns (offsets: seq<nat>)
      requires Sized(0) && Placed(pltAt, gotAt, |dynindxs|)
      modifies this
      ensures Linked(plt[..], got[..], rel[..], pltAt, gotAt, dynindxs)
      ensures |offsets| == |dynindxs|
      ensures forall i | 0 <= i < |offsets| :: EntryAddress(pltAt, i) == pltAt + offsets[i]
    {
      ghost var n := |dynindxs|;
      offsets := [];
      while |offsets| < |dynindxs|
        modifies `pltSize, `gotSize, `relSize
        invariant |offsets| <= |dynindxs| && Sized(|offsets|)
        invariant forall i | 0 <= i < |offsets| :: offsets[i] == PLT_HEADER_SIZE + PLT_ENTRY_SIZE * i
      {
        var offset := AllocateDynRelocs(|offsets|);
        offsets := offsets + [offset];
      }
      AllocateContents(n);
      var i := 0;
      while i < |dynindxs|
        modifies plt, got, rel
        invariant i <= |dynindxs| && Allocated(n)
        invariant forall j | 0 <= j < i :: EntryLinked(plt[..], got[..], rel[..], pltAt, gotAt, j, dynindxs[j])
      {
        FinishNext(dynindxs, offsets[i], i);
        i := i + 1;
      }
      ghost var p, g, r := plt[..], got[..], rel[..];
      FinishDynamicSections(n);
      forall j | 0 <= j < n ensures EntryLinked(plt[..], got[..], rel[..], pltAt, gotAt, j, dynindxs[j]) {
        assert EntryLinked(p, g, r, pltAt, gotAt, j, dynindxs[j]);
        EntryFrame(p, g, r, plt[..], got[..], rel[..], pltAt, gotAt, j, dynindxs[j]);
      }
    }

    method FinishNext(dynindxs: seq<nat>, offset: nat, i: nat)
      requires Allocated(|dynindxs|) && i < |dynindxs| && offset == PLT_HEADER_SIZE + PLT_ENTRY_SIZE * i
      requires forall j | 0 <= j < i :: EntryLinked(plt[..], got[..], rel[..], pltAt, gotAt, j, dynindxs[j])
      modifies plt, got, rel
      ensures forall j | 0 <= j <= i :: EntryLinked(plt[..], got[..], rel[..], pltAt, gotAt, j, dynindxs[j])
    {
      ghost var p, g, r := plt[..], got[..], rel[..];
      FinishDynamicSymbol(offset, dynindxs[i], |dynindxs|, i);
      forall j | 0 <= j < i ensures EntryLinked(plt[..], got[..], rel[..], pltAt, gotAt, j, dynindxs[j]) {
        assert EntryLinked(p, g, r, pltAt, gotAt, j, dynindxs[j]);
        EntryFrame(p, g, r, plt[..], got[..], rel[..], pltAt, gotAt, j, dynindxs[j]);
      }
    }
  }

  // ----- the loaded object -----

  /** Words `words` lie in memory from `at` on. */
  predicate Mapped(m: Memory, at: nat, words: seq<nat>) {
    forall k | 0 <= k < |words| :: Load(m, at + 4 * k) == words[k]
  }

  class LinkMap {
    const address: nat
    const base: nat
    var plt: nat
    var mem: Memory

    /** l_mach.plt is zero until the prelinked address is found. */
    constructor (address: nat, base: nat, mem: Memory)
      ensures this.address == address && this.base == base && this.mem == mem && plt == 0
    {
      this.address, this.base, this.mem, plt := address, base, mem, 0;
    }

    /** elf_machine_runtime_setup for an object with a PLT whose .got.plt is at `gotplt`. */
    method RuntimeSetup(gotplt: nat, resolver: nat, profiler: nat, profile: bool)
      requires resolver < WORD32 && profiler < WORD32 && address < WORD32
      modifies this
      ensures Load(mem, gotplt) == (if profile then profiler else resolver) && Load(mem, gotplt + 4) == address
      ensures forall a: nat :: a != gotplt && a != gotplt + 4 ==> Load(mem, a) == old(Load(mem, a))
      ensures plt == if old(Load(mem, gotplt + 4)) != 0 then W32(old(Load(mem, gotplt + 4)) + base) else old(plt)
    {
      var saved := Load(mem, gotplt + 4);
      if saved != 0 {
        plt := W32(saved + base);
      }
      mem := mem[gotplt := if profile then profiler else resolver];
      mem := mem[gotplt + 4 := address];
    }

    /** elf_machine_lazy_rel for one relocation; `invoke` stands for calling the resolver of an indirect function.
        Other types than the two are refused. */
    method LazyRel(offset: nat, info: nat, addend: nat, skipIfunc: bool, invoke: nat -> nat) returns (bad: bool)
      modifies `mem
      ensures bad <==> info % 256 != 4 && info % 256 != 3
      ensures bad ==> mem == old(mem)
      ensures info % 256 == 4 ==>
                Load(mem, W32(base + offset)) ==
                if plt == 0 then W32(old(Load(mem, W32(base + offset))) + base) else W32(plt)
      ensures info % 256 == 3 ==>
                Load(mem, W32(base + offset)) ==
                if skipIfunc then W32(base + addend) else W32(invoke(W32(base + addend)))
      ensures forall a: nat :: a != W32(base + offset) ==> Load(mem, a) == old(Load(mem, a))
    {
      var at := W32(base + offset);
      bad := false;
      if TypeOf(info) == R_JUMP_SLOT {
        if plt == 0 {
          if base != 0 {
            mem := mem[at := W32(Load(mem, at) + base)];
          }
        } else {
          mem := mem[at := W32(plt)];
        }
      } else if TypeOf(info) == R_IRELATIVE {
        var value := W32(base + addend);
        if !skipIfunc {
          value := W32(invoke(value));
        }
        mem := mem[at := value];
      } else {
        bad := true;
      }
    }

    /** Setup without profiling, then every relocation of .rela.plt, for an object linked at `gotAt` with `n` PLT symbols. */
    method Prepare(gotAt: nat, gotplt: nat, resolver: nat, n: nat, pltAt: nat, dynindxs: seq<nat>)
      requires resolver < WORD32 && address < WORD32 && plt == 0 && |dynindxs| == n
      requires gotplt == W32(gotAt + base) && SlotAddress(gotplt, n) < WORD32 && base < WORD32
      requires W32(pltAt + base) != 0
      requires Load(mem, gotplt + 4) == 0 || Load(mem, gotplt + 4) == pltAt
      requires Load(mem, gotplt + 4) == 0 ==> forall i | 0 <= i < n :: Load(mem, SlotAddress(gotplt, i)) == pltAt
      modifies this
      ensures Load(mem, gotplt) == resolver && Load(mem, gotplt + 4) == address
      ensures forall i | 0 <= i < n :: Load(mem, SlotAddress(gotplt, i)) == W32(pltAt + base)
      ensures forall a: nat :: !(gotplt <= a < SlotAddress(gotplt, n)) ==> Load(mem, a) == old(Load(mem, a))
    {
      RuntimeSetup(gotplt, resolver, 0, false);
      var i := 0;
      while i < n
        modifies `mem
        invariant i <= n && (plt == 0 || plt == W32(pltAt + base))
        invariant Load(mem, gotplt) == resolver && Load(mem, gotplt + 4) == address
        invariant forall j | 0 <= j < i :: Load(mem, SlotAddress(gotplt, j)) == W32(pltAt + base)
        invariant plt == 0 ==> forall j | i <= j < n :: Load(mem, SlotAddress(gotplt, j)) == pltAt
        invariant forall a: nat :: !(gotplt <= a < SlotAddress(gotplt, n)) ==> Load(mem, a) == old(Load(mem, a))
      {
        var offset := SlotAddress(gotAt, i);
        SlotMoves(gotAt, gotplt, base, i, offset);
        InfoIsJumpSlot(dynindxs[i]);
        var bad := LazyRel(offset, JumpSlotInfo(dynindxs[i]), 0, false, x => x);
        i := i + 1;
      }
    }
  }

  lemma {:induction false} SlotMoves(gotAt: nat, gotplt: nat, base: nat, i: nat, offset: nat)
    requires gotplt == W32(gotAt + base) && offset == SlotAddress(gotAt, i) && SlotAddress(gotplt, i) < WORD32
    ensures W32(base + offset) == SlotAddress(gotplt, i)
  {
  }

  lemma {:induction false} DeltaMoves(at: nat, to: nat, base: nat, at': nat, to': nat)
    requires at' == W32(at + base) && to' == W32(to + base)
    ensures Delta(at', to') == Delta(at, to)
  {
    var q, q' := (at + base) / 0x1_0000_0000, (to + base) / 0x1_0000_0000;
    assert at' == at + base - q * 0x1_0000_0000 && to' == to + base - q' * 0x1_0000_0000;
    WrapsAway(to - at, q - q');
  }

  lemma {:induction false} WrapsAway(x: int, k: int)
    ensures (x + k * 0x1_0000_0000) % 0x1_0000_0000 == x % 0x1_0000_0000
  {
  }

  lemma {:induction false} DeltaAligned(at: nat, to: nat)
    requires at % 4 == 0 && to % 4 == 0
    ensures Delta(at, to) % 4 == 0
  {
    var k := to / 4 - at / 4;
    assert to - at == 4 * k;
    assert (4 * k) % 0x1_0000_0000 == 4 * (k % 0x4000_0000);
  }

  lemma {:induction false} CodeMapped(m: Memory, at: nat, words: seq<nat>, from: nat, pc: nat, code: seq<Insn>)
    requires Mapped(m, at, words) && Holds(words, from, code) && pc == at + 4 * from && pc + 4 * |code| <= WORD32
    requires forall k | 0 <= k < |code| :: Fits(code[k])
    ensures Code(m, pc, code)
  {
    forall k | 0 <= k < |code| ensures Fits(code[k]) && Load(m, pc + 4 * k) == Encode(code[k]) {
      var j := from + k;
      assert Load(m, at + 4 * j) == words[j];
    }
  }

  lemma {:induction false} HoldsPrefix(words: seq<nat>, at: nat, code: seq<Insn>, more: seq<Insn>)
    requires Holds(words, at, code + more)
    ensures Holds(words, at, code)
  {
    forall k | 0 <= k < |code| ensures words[at + k] == Encode(code[k]) {
      assert (code + more)[k] == code[k];
    }
  }

  lemma {:induction false} HeaderLoaded(m: Memory, words: seq<nat>, pltAt: nat, gotAt: nat, base: nat, plt: nat,
                                        gotplt: nat, n: nat)
    requires Holds(words, 0, HeaderCode(Delta(pltAt, gotAt))) && Mapped(m, plt, words)
    requires plt == W32(pltAt + base) && gotplt == W32(gotAt + base) && Placed(plt, gotplt, n)
    ensures Code(m, plt, HeaderCode(Delta(plt, gotplt)))
  {
    var x := Delta(plt, gotplt);
    DeltaMoves(pltAt, gotAt, base, plt, gotplt);
    DeltaAligned(plt, gotplt);
    forall k | 0 <= k < 7 ensures Fits(HeaderCode(x)[k]) {
      CodeFits(x, k);
    }
    CodeMapped(m, plt, words, 0, plt, HeaderCode(x));
  }

  lemma {:induction false} Shifted(x: nat, base: nat, y: nat, d: nat, at: nat, at': nat)
    requires y == W32(x + base) && at == x + d && at' == y + d && at' < WORD32
    ensures at' == W32(at + base)
  {
  }

  lemma {:induction false} Words(x: nat, k: nat, y: nat)
    requires x % 4 == 0 && y == x + 4 * k
    ensures y % 4 == 0
  {
  }

  lemma {:induction false} EntryMoves(pltAt: nat, gotAt: nat, base: nat, plt: nat, gotplt: nat, i: nat, n: nat)
    requires plt == W32(pltAt + base) && gotplt == W32(gotAt + base) && Placed(plt, gotplt, n) && i < n
    ensures EntryAddress(plt, i) % 4 == 0 && SlotAddress(gotplt, i) % 4 == 0
    ensures Delta(EntryAddress(plt, i), SlotAddress(gotplt, i)) ==
            Delta(EntryAddress(pltAt, i), SlotAddress(gotAt, i))
  {
    var at, to, at', to' := EntryAddress(pltAt, i), SlotAddress(gotAt, i), EntryAddress(plt, i), SlotAddress(gotplt, i);
    SlotMoves(gotAt, gotplt, base, i, to);
    Shifted(pltAt, base, plt, PLT_HEADER_SIZE + PLT_ENTRY_SIZE * i, at, at');
    Words(plt, 7 + 4 * i, at');
    Words(gotplt, 2 + i, to');
    DeltaMoves(at, to, base, at', to');
  }

  lemma {:induction false} EntryLoaded(m: Memory, words: seq<nat>, got: seq<nat>, rel: seq<nat>, pltAt: nat,
                                       gotAt: nat, base: nat, plt: nat, gotplt: nat, n: nat, i: nat, dynindx: nat)
    requires EntryLinked(words, got, rel, pltAt, gotAt, i, dynindx) && Mapped(m, plt, words) && i < n
    requires plt == W32(pltAt + base) && gotplt == W32(gotAt + base) && Placed(plt, gotplt, n)
    ensures EntryCoded(m, plt, gotplt, i)
  {
    var at, slot := EntryAddress(plt, i), SlotAddress(gotplt, i);
    var x := Delta(at, slot);
    EntryMoves(pltAt, gotAt, base, plt, gotplt, i, n);
    DeltaAligned(at, slot);
    forall k | 0 <= k < 3 ensures Fits(EntryCode(x)[k]) {
      CodeFits(x, k);
    }
    var from := 7 + 4 * i;
    HoldsPrefix(words, from, EntryCode(x), [NOP]);
    CodeMapped(m, plt, words, from, at, EntryCode(x));
  }

  /** What the linker wrote, loaded `base` bytes further up and prepared by the dynamic linker, is a table the
      processor can run: position does not matter, because the code holds only distances. */
  lemma {:induction false} LoadedIsBound(m: Memory, words: seq<nat>, got: seq<nat>, rel: seq<nat>, pltAt: nat,
                                         gotAt: nat, dynindxs: seq<nat>, base: nat, plt: nat, gotplt: nat, n: nat,
                                         resolver: nat, link: nat)
    requires Linked(words, got, rel, pltAt, gotAt, dynindxs) && n == |dynindxs| > 0
    requires plt == W32(pltAt + base) && gotplt == W32(gotAt + base) && Placed(plt, gotplt, n)
    requires Mapped(m, plt, words) && Load(m, gotplt) == resolver && Load(m, gotplt + 4) == link
    ensures Bound(m, plt, gotplt, n, resolver, link)
  {
    HeaderLoaded(m, words, pltAt, gotAt, base, plt, gotplt, n);
    forall i | 0 <= i < n ensures EntryCoded(m, plt, gotplt, i) {
      EntryLoaded(m, words, got, rel, pltAt, gotAt, base, plt, gotplt, n, i, dynindxs[i]);
    }
  }

  /** At byte `offset` of .rela.plt lies a JUMP_SLOT relocation for the symbol `dynindx` and the slot at `slot`. */
  predicate Relocates(rel: seq<nat>, offset: nat, base: nat, slot: nat, dynindx: nat) {
    offset % 12 == 0 && offset / 4 + 2 < |rel| && W32(rel[offset / 4] + base) == slot &&
    rel[offset / 4 + 1] / 256 == dynindx && rel[offset / 4 + 1] % 256 == 4
  }

  lemma {:induction false} RelocationAt(words: seq<nat>, got: seq<nat>, rel: seq<nat>, pltAt: nat, gotAt: nat,
                                        dynindxs: seq<nat>, base: nat, gotplt: nat, i: nat, offset: nat)
    requires Linked(words, got, rel, pltAt, gotAt, dynindxs) && i < |dynindxs| && offset == RELA_SIZE * i
    requires gotplt == W32(gotAt + base) && SlotAddress(gotplt, i) < WORD32
    ensures Relocates(rel, offset, base, SlotAddress(gotplt, i), dynindxs[i])
  {
    assert EntryLinked(words, got, rel, pltAt, gotAt, i, dynindxs[i]);
    assert offset / 4 == 3 * i;
    InfoIsJumpSlot(dynindxs[i]);
    SlotMoves(gotAt, gotplt, base, i, SlotAddress(gotAt, i));
  }

  /** A call has just entered entry `i` of an object that the linker wrote and the dynamic linker prepared. */
  ghost predicate CallingLoaded(s: State, words: seq<nat>, pltAt: nat, gotAt: nat, base: nat, plt: nat, gotplt: nat,
                                n: nat, resolver: nat, link: nat, fixup: nat, i: nat) {
    plt == W32(pltAt + base) && gotplt == W32(gotAt + base) && Placed(plt, gotplt, n) && i < n &&
    Mapped(s.mem, plt, words) && Load(s.mem, gotplt) == resolver && Load(s.mem, gotplt + 4) == link &&
    Ok(s) && s.pc == EntryAddress(plt, i) && Unresolved(s.mem, plt, gotplt, i) &&
    Trampoline(s.mem, resolver, fixup) && Apart(Get(s, SP), resolver)
  }

  lemma {:induction false} LoadedCalls(s: State, words: seq<nat>, got: seq<nat>, rel: seq<nat>, pltAt: nat,
                                       gotAt: nat, dynindxs: seq<nat>, base: nat, plt: nat, gotplt: nat, n: nat,
                                       resolver: nat, link: nat, fixup: nat, i: nat)
    requires Linked(words, got, rel, pltAt, gotAt, dynindxs) && n == |dynindxs|
    requires CallingLoaded(s, words, pltAt, gotAt, base, plt, gotplt, n, resolver, link, fixup, i)
    ensures Calling(s, plt, gotplt, n, resolver, link, fixup, i)
  {
    LoadedIsBound(s.mem, words, got, rel, pltAt, gotAt, dynindxs, base, plt, gotplt, n, resolver, link);
  }

  /** The whole chain, for every entry: the call enters the fixup function with that object's link map and with the
      byte offset of a JUMP_SLOT relocation, which names the symbol of entry `i` and the slot through which that
      entry jumps. */
  lemma {:induction false} LazyBinding(s: State, words: seq<nat>, got: seq<nat>, rel: seq<nat>, pltAt: nat,
                                       gotAt: nat, dynindxs: seq<nat>, base: nat, plt: nat, gotplt: nat, n: nat,
                                       resolver: nat, link: nat, fixup: nat, i: nat, steps: nat)
    returns (u: State, t: State)
    requires Linked(words, got, rel, pltAt, gotAt, dynindxs) && n == |dynindxs| && i < n && steps == 20
    requires CallingLoaded(s, words, pltAt, gotAt, base, plt, gotplt, n, resolver, link, fixup, i)
    ensures Run(s, steps) == Some(t) && Ok(t) && t.pc == fixup && Get(t, A0) == link
    ensures Relocates(rel, Get(t, A1), base, SlotAddress(gotplt, i), dynindxs[i])
    ensures KeptBut(s, u) && Entered(u, t, resolver, fixup, Get(s, SP))
  {
    var offset := RELA_SIZE * i;
    RelocationAt(words, got, rel, pltAt, gotAt, dynindxs, base, gotplt, i, offset);
    LoadedCalls(s, words, got, rel, pltAt, gotAt, dynindxs, base, plt, gotplt, n, resolver, link, fixup, i);
    u, t := FixupArguments(s, plt, gotplt, n, resolver, link, fixup, i, steps);
  }
}
