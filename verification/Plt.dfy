/** Lazy binding on the XR/17032: the code the linker puts into the procedure linkage table, run by the processor
    together with the trampoline of the C library. */
module Plt {
  import opened Basics
  import opened Xr17032

  const PLT_HEADER_SIZE := 28
  const PLT_ENTRY_SIZE := 16
  const GOTPLT_HEADER_SIZE := 8
  const GOT_ENTRY_SIZE := 4
  const RELA_SIZE := 12
  const FRAME_SIZE := 20

  /** XR_IMM_HIGH_PART and XR_IMM_LOW_PART. */
  function High(x: nat): nat {
    x / 0x1_0000 * 0x1_0000
  }

  function Low(x: nat): nat {
    x % 0x1_0000
  }

  function EntryAddress(plt: nat, i: nat): nat {
    plt + PLT_HEADER_SIZE + PLT_ENTRY_SIZE * i
  }

  function SlotAddress(gotplt: nat, i: nat): nat {
    gotplt + GOTPLT_HEADER_SIZE + GOT_ENTRY_SIZE * i
  }

  /** The distance from `at` to `to`, modulo 2^32. */
  function Delta(at: nat, to: nat): (x: nat)
    ensures x < WORD32
  {
    W32(to - at)
  }

  // ----- the linker's code: `x` is the offset from the code to the slot it uses, modulo 2^32 -----

  function HeaderCode(x: nat): (code: seq<Insn>)
    ensures |code| == 7
  {
    [Adr(T2, High(x)), Sub(T1, T1, T3, Lsh, 0), LoadLong(T3, T2, Low(x)), SubI(T1, T1, PLT_HEADER_SIZE + 12),
     Add(T1, ZERO, T1, Rsh, 2), LoadLong(T0, T2, Low(x) + 4), Jalr(ZERO, T3, 0)]
  }

  const NOP := AddI(ZERO, ZERO, 0)

  /** What an entry executes; a NOP follows it. */
  function EntryCode(x: nat): (code: seq<Insn>)
    ensures |code| == 3
  {
    [Adr(T3, High(x)), LoadLong(T3, T3, Low(x)), Jalr(T1, T3, 0)]
  }

  lemma {:induction false} PcRelative(at: nat, to: nat, x: nat)
    requires at < WORD32 && to + 4 < WORD32 && x == Delta(at, to)
    ensures W32(W32(at + High(x)) + Low(x)) == to && W32(W32(at + High(x)) + (Low(x) + 4)) == to + 4
  {
    assert High(x) + Low(x) == x;
    assert W32(at + x) == to;
  }

  lemma {:induction false} LowAligned(q: nat, h: nat, l: nat)
    requires 4 * q == h * 0x1_0000 + l && l < 0x1_0000
    ensures l % 4 == 0
  {
    assert l == 4 * (q - h * 0x4000);
  }

  lemma {:induction false} Halves(x: nat)
    requires x < WORD32 && x % 4 == 0
    ensures Low(x) < 0x1_0000 && Low(x) % 4 == 0 && High(x) < WORD32 && High(x) % 0x1_0000 == 0
  {
    var h := x / 0x1_0000;
    assert h < 0x1_0000;
    LowAligned(x / 4, h, Low(x));
  }

  lemma {:induction false} CodeFits(x: nat, k: nat)
    requires x < WORD32 && x % 4 == 0
    ensures k < 7 ==> Fits(HeaderCode(x)[k])
    ensures k < 3 ==> Fits(EntryCode(x)[k])
  {
    Halves(x);
  }

  // ----- running it -----

  /** The registers that the code between a call and its target may change. */
  predicate Scratch(r: Reg) {
    r == T0 || r == T1 || r == T2 || r == T3
  }

  /** `t` is `s` as far as the program that calls through the table can tell. */
  ghost predicate KeptBut(s: State, t: State) {
    Ok(s) && Ok(t) && t.mem == s.mem && forall r: Reg :: !Scratch(r) ==> Get(t, r) == Get(s, r)
  }

  lemma {:induction false} EntryPart(s: State, at: nat, x: nat, end: nat) returns (trace: seq<State>, t: State)
    requires Ok(s) && s.pc == at && at + 12 <= WORD32
    ensures Part(trace, EntryCode(x), at, end, true) && trace[0] == s && trace[3] == t && KeptBut(s, t)
    ensures t.pc == Load(s.mem, W32(W32(at + High(x)) + Low(x))) && Get(t, T3) == t.pc && Get(t, T1) == W32(at + 12)
  {
    var s1 := Execute(s, Adr(T3, High(x)));
    assert s1.pc == at + 4 && Get(s1, T3) == W32(at + High(x));
    var s2 := Execute(s1, LoadLong(T3, T3, Low(x)));
    assert s2.pc == at + 8;
    t := Execute(s2, Jalr(T1, T3, 0));
    trace := [s, s1, s2, t];
  }

  /** An entry jumps to wherever its slot points, with its own address plus 12 in t1. */
  lemma {:induction false} EntryRuns(s: State, at: nat, slot: nat, x: nat, n: nat) returns (t: State)
    requires Ok(s) && s.pc == at && slot + 4 < WORD32 && x == Delta(at, slot)
    requires Code(s.mem, at, EntryCode(x)) && n == 3
    ensures Run(s, n) == Some(t) && KeptBut(s, t)
    ensures t.pc == Load(s.mem, slot) && Get(t, T3) == t.pc && Get(t, T1) == W32(at + 12)
  {
    var code := EntryCode(x);
    var end := at + 12;
    PcRelative(at, slot, x);
    var trace;
    trace, t := EntryPart(s, at, x, end);
    RunsThrough(trace, at, code, n);
  }

  /** t2 becomes the upper part of the address, t1 loses the header's address and t3 becomes the resolver. */
  lemma {:induction false} HeaderStart(s: State, plt: nat, i: nat, x: nat, code: seq<Insn>, end: nat)
    returns (trace: seq<State>, t: State)
    requires Ok(s) && s.pc == plt && EntryAddress(plt, i) + 12 < WORD32
    requires Get(s, T3) == plt && Get(s, T1) == EntryAddress(plt, i) + 12
    requires code == [Adr(T2, High(x)), Sub(T1, T1, T3, Lsh, 0), LoadLong(T3, T2, Low(x))]
    ensures Part(trace, code, plt, end, false) && trace[0] == s && trace[3] == t && KeptBut(s, t)
    ensures Get(t, T2) == W32(plt + High(x)) && Get(t, T1) == 40 + 16 * i
    ensures Get(t, T3) == Load(s.mem, W32(Get(t, T2) + Low(x)))
  {
    var s1 := Execute(s, code[0]);
    assert Shifted(Get(s1, T3), Lsh, 0) == plt;
    var s2 := Execute(s1, code[1]);
    t := Execute(s2, code[2]);
    trace := [s, s1, s2, t];
  }

  /** The offset of the entry's return address becomes four times its index. */
  lemma {:induction false} HeaderIndex(s: State, plt: nat, i: nat, code: seq<Insn>, end: nat)
    returns (trace: seq<State>, t: State)
    requires Ok(s) && Get(s, T1) == 40 + 16 * i
    requires code == [SubI(T1, T1, PLT_HEADER_SIZE + 12), Add(T1, ZERO, T1, Rsh, 2)]
    ensures Part(trace, code, plt, end, false) && trace[0] == s && trace[2] == t && KeptBut(s, t)
    ensures Get(t, T1) == 4 * i && Get(t, T2) == Get(s, T2) && Get(t, T3) == Get(s, T3)
  {
    var s1 := Execute(s, code[0]);
    assert Get(s1, T1) == 16 * i;
    ShiftRightTwo(Get(s1, T1));
    t := Execute(s1, code[1]);
    trace := [s, s1, t];
  }

  /** t0 becomes the link map, and control goes to the resolver. */
  lemma {:induction false} HeaderLeaves(s: State, plt: nat, x: nat, code: seq<Insn>, end: nat)
    returns (trace: seq<State>, t: State)
    requires Ok(s) && code == [LoadLong(T0, T2, Low(x) + 4), Jalr(ZERO, T3, 0)]
    ensures Part(trace, code, plt, end, true) && trace[0] == s && trace[2] == t && KeptBut(s, t)
    ensures t.pc == Get(s, T3) && Get(t, T1) == Get(s, T1)
    ensures Get(t, T0) == Load(s.mem, W32(Get(s, T2) + (Low(x) + 4)))
  {
    var s1 := Execute(s, code[0]);
    t := Execute(s1, code[1]);
    trace := [s, s1, t];
  }

  lemma {:induction false} HeaderSplits(x: nat, c1: seq<Insn>, c2: seq<Insn>, c3: seq<Insn>)
    requires c1 == [Adr(T2, High(x)), Sub(T1, T1, T3, Lsh, 0), LoadLong(T3, T2, Low(x))]
    requires c2 == [SubI(T1, T1, PLT_HEADER_SIZE + 12), Add(T1, ZERO, T1, Rsh, 2)]
    requires c3 == [LoadLong(T0, T2, Low(x) + 4), Jalr(ZERO, T3, 0)]
    ensures HeaderCode(x) == c1 + c2 + c3
  {
  }

  lemma {:induction false} HeaderFalls(s: State, plt: nat, gotplt: nat, x: nat, i: nat, code: seq<Insn>, end: nat)
    returns (trace: seq<State>, t: State)
    requires Ok(s) && s.pc == plt && gotplt + 4 < WORD32 && x == Delta(plt, gotplt)
    requires EntryAddress(plt, i) + 12 < WORD32 && code == HeaderCode(x)
    requires Get(s, T3) == plt && Get(s, T1) == EntryAddress(plt, i) + 12
    ensures Part(trace, code, plt, end, true) && trace[0] == s && trace[7] == t && KeptBut(s, t)
    ensures t.pc == Load(s.mem, gotplt) && Get(t, T0) == Load(s.mem, gotplt + 4) && Get(t, T1) == 4 * i
  {
    PcRelative(plt, gotplt, x);
    var c1 := [Adr(T2, High(x)), Sub(T1, T1, T3, Lsh, 0), LoadLong(T3, T2, Low(x))];
    var c2 := [SubI(T1, T1, PLT_HEADER_SIZE + 12), Add(T1, ZERO, T1, Rsh, 2)];
    var c3 := [LoadLong(T0, T2, Low(x) + 4), Jalr(ZERO, T3, 0)];
    HeaderSplits(x, c1, c2, c3);
    var t1, u := HeaderStart(s, plt, i, x, c1, end);
    var t2, v := HeaderIndex(u, plt, i, c2, end);
    var t3;
    t3, t := HeaderLeaves(v, plt, x, c3, end);
    PartsJoin(t1, c1, t2, c2, plt, end, false);
    PartsJoin(Joined(t1, t2), c1 + c2, t3, c3, plt, end, true);
    trace := Joined(Joined(t1, t2), t3);
  }

  /** The header reaches the resolver with the link map in t0 and four times the index of the entry in t1. */
  lemma {:induction false} HeaderRuns(s: State, plt: nat, gotplt: nat, x: nat, i: nat, n: nat) returns (t: State)
    requires Ok(s) && s.pc == plt && gotplt + 4 < WORD32 && x == Delta(plt, gotplt)
    requires Code(s.mem, plt, HeaderCode(x)) && n == 7
    requires EntryAddress(plt, i) + 12 < WORD32
    requires Get(s, T3) == plt && Get(s, T1) == EntryAddress(plt, i) + 12
    ensures Run(s, n) == Some(t) && KeptBut(s, t)
    ensures t.pc == Load(s.mem, gotplt) && Get(t, T0) == Load(s.mem, gotplt + 4) && Get(t, T1) == 4 * i
  {
    var code := HeaderCode(x);
    var end := plt + 28;
    var trace;
    trace, t := HeaderFalls(s, plt, gotplt, x, i, code, end);
    RunsThrough(trace, plt, code, n);
  }

  // ----- the table in memory -----

  /** A loaded object with `n` entries: header, entries, slots, and the two reserved words of .got.plt. */
  ghost predicate Bound(m: Memory, plt: nat, gotplt: nat, n: nat, resolver: nat, link: nat) {
    0 < plt && EntryAddress(plt, n) <= WORD32 && SlotAddress(gotplt, n) < WORD32 &&
    Code(m, plt, HeaderCode(Delta(plt, gotplt))) &&
    Load(m, gotplt) == resolver && Load(m, gotplt + 4) == link &&
    forall i | 0 <= i < n :: EntryCoded(m, plt, gotplt, i)
  }

  ghost predicate EntryCoded(m: Memory, plt: nat, gotplt: nat, i: nat) {
    Code(m, EntryAddress(plt, i), EntryCode(Delta(EntryAddress(plt, i), SlotAddress(gotplt, i))))
  }

  /** A slot that still leads to the header is unresolved. */
  predicate Unresolved(m: Memory, plt: nat, gotplt: nat, i: nat) {
    Load(m, SlotAddress(gotplt, i)) == plt
  }

  /** Calling through unresolved entry `i` reaches the resolver, which learns the link map and the index. */
  lemma {:induction false} LazyCall(s: State, plt: nat, gotplt: nat, n: nat, resolver: nat, link: nat, i: nat,
                                    steps: nat)
    returns (t: State)
    requires Bound(s.mem, plt, gotplt, n, resolver, link) && i < n && Unresolved(s.mem, plt, gotplt, i)
    requires Ok(s) && s.pc == EntryAddress(plt, i) && steps == 10
    ensures Run(s, steps) == Some(t) && KeptBut(s, t)
    ensures t.pc == resolver && Get(t, T0) == link && Get(t, T1) == 4 * i
  {
    var at := EntryAddress(plt, i);
    var slot := SlotAddress(gotplt, i);
    assert EntryCoded(s.mem, plt, gotplt, i);
    var u := EntryRuns(s, at, slot, Delta(at, slot), 3);
    t := HeaderRuns(u, plt, gotplt, Delta(plt, gotplt), i, 7);
    RunAdds(s, 3, u, 7, steps);
  }

  /** Once the slot holds the function's address, the entry goes straight there. */
  lemma {:induction false} ResolvedCall(s: State, plt: nat, gotplt: nat, n: nat, resolver: nat, link: nat, i: nat,
                                        steps: nat)
    returns (t: State)
    requires Bound(s.mem, plt, gotplt, n, resolver, link) && i < n
    requires Ok(s) && s.pc == EntryAddress(plt, i) && steps == 3
    ensures Run(s, steps) == Some(t) && KeptBut(s, t) && t.pc == Load(s.mem, SlotAddress(gotplt, i))
  {
    var at := EntryAddress(plt, i);
    var slot := SlotAddress(gotplt, i);
    assert EntryCoded(s.mem, plt, gotplt, i);
    t := EntryRuns(s, at, slot, Delta(at, slot), steps);
  }

  // ----- the trampoline -----

  /** From the entry of the resolver to its call; `x` is the offset from the ADR to the fixup function. */
  function SaveCode(x: nat): (code: seq<Insn>)
    ensures |code| == 10
  {
    [SubI(SP, SP, FRAME_SIZE),
     StoreLong(SP, LR, 0), StoreLong(SP, A0, 4), StoreLong(SP, A1, 8), StoreLong(SP, A2, 12), StoreLong(SP, A3, 16),
     Add(A0, T0, ZERO, Lsh, 0), Add(A1, T1, T1, Lsh, 1), Adr(A2, High(x)), Jalr(LR, A2, Low(x))]
  }

  /** From the return of the fixup function to the callee it found. */
  function RestoreCode(): (code: seq<Insn>)
    ensures |code| == 8
  {
    [Add(T1, A3, ZERO, Lsh, 0),
     LoadLong(LR, SP, 0), LoadLong(A0, SP, 4), LoadLong(A1, SP, 8), LoadLong(A2, SP, 12), LoadLong(A3, SP, 16),
     AddI(SP, SP, FRAME_SIZE), Jalr(ZERO, T1, 0)]
  }

  /** The trampoline at `resolver`, calling `fixup`. */
  ghost predicate Trampoline(m: Memory, resolver: nat, fixup: nat) {
    resolver + 72 <= WORD32 && fixup + 4 < WORD32 &&
    Code(m, resolver, SaveCode(Delta(resolver + 32, fixup))) && Code(m, resolver + 40, RestoreCode())
  }

  /** The frame the trampoline builds below `sp`. */
  predicate Frame(m: Memory, sp: nat, lr: nat, a0: nat, a1: nat, a2: nat, a3: nat)
    requires sp >= FRAME_SIZE
  {
    Load(m, sp - 20) == lr && Load(m, sp - 16) == a0 && Load(m, sp - 12) == a1 && Load(m, sp - 8) == a2 &&
    Load(m, sp - 4) == a3
  }

  /** The stack below `sp` does not hold the trampoline. */
  predicate Apart(sp: nat, resolver: nat) {
    FRAME_SIZE <= sp < WORD32 && (sp <= resolver || resolver + 72 + FRAME_SIZE <= sp)
  }

  /** Registers a called function gives back as it found them: s0 to s17, tp and sp. */
  predicate CalleeSaved(r: Reg) {
    11 <= r <= 30
  }

  lemma {:induction false} Stores(s: State, imm: nat, r: Reg, at: nat, end: nat, to: nat) returns (t: State)
    requires Ok(s) && Get(s, SP) + imm == to && to < WORD32 && !(at <= to < end)
    ensures Fall(s, StoreLong(SP, r, imm), t, at, end, false)
    ensures Ok(t) && t.regs == s.regs && t.mem == s.mem[to := Get(s, r)] && t.pc == W32(s.pc + 4)
    ensures forall q: Reg :: Get(t, q) == Get(s, q)
  {
    t := Execute(s, StoreLong(SP, r, imm));
  }

  /** The memory after the frame below `sp` has been filled. */
  function Filled(m: Memory, sp: nat, lr: nat, a0: nat, a1: nat, a2: nat, a3: nat): Memory
    requires sp >= FRAME_SIZE
  {
    m[sp - 20 := lr][sp - 16 := a0][sp - 12 := a1][sp - 8 := a2][sp - 4 := a3]
  }

  lemma {:induction false} FilledIs(m: Memory, sp: nat, lr: nat, a0: nat, a1: nat, a2: nat, a3: nat, t: Memory)
    requires sp >= FRAME_SIZE && t == Filled(m, sp, lr, a0, a1, a2, a3)
    requires lr < WORD32 && a0 < WORD32 && a1 < WORD32 && a2 < WORD32 && a3 < WORD32
    ensures Frame(t, sp, lr, a0, a1, a2, a3)
    ensures forall a: nat :: !(sp - FRAME_SIZE <= a < sp) ==> Load(t, a) == Load(m, a)
  {
  }

  lemma {:induction false} FrameMade(s: State, sp: nat, at: nat, end: nat, code: seq<Insn>)
    returns (trace: seq<State>, t: State)
    requires Ok(s) && sp == Get(s, SP) && FRAME_SIZE <= sp && (sp <= at || end + FRAME_SIZE <= sp)
    requires code == [SubI(SP, SP, FRAME_SIZE)]
    ensures Part(trace, code, at, end, false) && trace[0] == s && trace[1] == t && Ok(t) && t.mem == s.mem
    ensures Get(t, SP) == sp - FRAME_SIZE && forall r: Reg :: r != SP ==> Get(t, r) == Get(s, r)
    ensures t.pc == W32(s.pc + 4)
  {
    t := Execute(s, code[0]);
    trace := [s, t];
  }

  lemma {:induction false} FrameFilled(s: State, sp: nat, at: nat, end: nat, code: seq<Insn>)
    returns (trace: seq<State>, t: State)
    requires Ok(s) && FRAME_SIZE <= sp && Get(s, SP) == sp - FRAME_SIZE && (sp <= at || end + FRAME_SIZE <= sp)
    requires sp < WORD32 && s.pc == at + 4 && at + 24 < WORD32
    requires code == [StoreLong(SP, LR, 0), StoreLong(SP, A0, 4), StoreLong(SP, A1, 8), StoreLong(SP, A2, 12),
                      StoreLong(SP, A3, 16)]
    ensures Part(trace, code, at, end, false) && trace[0] == s && trace[5] == t && Ok(t)
    ensures t.regs == s.regs && t.pc == at + 24
    ensures t.mem == Filled(s.mem, sp, Get(s, LR), Get(s, A0), Get(s, A1), Get(s, A2), Get(s, A3))
  {
    var p0, p1, p2, p3, p4 := sp - 20, sp - 16, sp - 12, sp - 8, sp - 4;
    var s1 := Stores(s, 0, LR, at, end, p0);
    var s2 := Stores(s1, 4, A0, at, end, p1);
    var s3 := Stores(s2, 8, A1, at, end, p2);
    var s4 := Stores(s3, 12, A2, at, end, p3);
    t := Stores(s4, 16, A3, at, end, p4);
    trace := [s, s1, s2, s3, s4, t];
  }

  lemma {:induction false} Thrice(x: nat)
    ensures W32(x + W32(2 * x)) == W32(3 * x)
  {
  }

  lemma {:induction false} ArgumentsPassed(s: State, at: nat, end: nat, code: seq<Insn>)
    returns (trace: seq<State>, t: State)
    requires Ok(s) && s.pc == at + 24 && at + 40 < WORD32
    requires code == [Add(A0, T0, ZERO, Lsh, 0), Add(A1, T1, T1, Lsh, 1)]
    ensures Part(trace, code, at, end, false) && trace[0] == s && trace[2] == t && Ok(t) && t.mem == s.mem
    ensures Get(t, A0) == Get(s, T0) && Get(t, A1) == W32(3 * Get(s, T1)) && t.pc == at + 32
    ensures forall r: Reg :: CalleeSaved(r) ==> Get(t, r) == Get(s, r)
  {
    var s1 := Execute(s, code[0]);
    var x := Get(s1, T1);
    assert x == Get(s, T1) && s1.pc == at + 28;
    ShiftLeftOne(x);
    Thrice(x);
    t := Execute(s1, code[1]);
    trace := [s, s1, t];
  }

  lemma {:induction false} FixupEntered(s: State, at: nat, end: nat, x: nat, code: seq<Insn>)
    returns (trace: seq<State>, t: State)
    requires Ok(s) && s.pc == at + 32 && at + 40 < WORD32
    requires code == [Adr(A2, High(x)), Jalr(LR, A2, Low(x))]
    ensures Part(trace, code, at, end, true) && trace[0] == s && trace[2] == t && Ok(t) && t.mem == s.mem
    ensures Get(t, A0) == Get(s, A0) && Get(t, A1) == Get(s, A1) && Get(t, LR) == at + 40
    ensures t.pc == W32(W32(at + 32 + High(x)) + Low(x))
    ensures forall r: Reg :: CalleeSaved(r) ==> Get(t, r) == Get(s, r)
  {
    var s1 := Execute(s, code[0]);
    t := Execute(s1, code[1]);
    trace := [s, s1, t];
  }

  lemma {:induction false} SaveSplits(x: nat, c1: seq<Insn>, c2: seq<Insn>, c3: seq<Insn>, c4: seq<Insn>)
    requires c1 == [SubI(SP, SP, FRAME_SIZE)]
    requires c2 == [StoreLong(SP, LR, 0), StoreLong(SP, A0, 4), StoreLong(SP, A1, 8), StoreLong(SP, A2, 12),
                    StoreLong(SP, A3, 16)]
    requires c3 == [Add(A0, T0, ZERO, Lsh, 0), Add(A1, T1, T1, Lsh, 1)]
    requires c4 == [Adr(A2, High(x)), Jalr(LR, A2, Low(x))]
    ensures SaveCode(x) == c1 + c2 + c3 + c4
  {
  }

  /** What the trampoline has done when it enters the fixup function. */
  ghost predicate Entered(s: State, t: State, resolver: nat, fixup: nat, sp: nat)
    requires sp >= FRAME_SIZE
  {
    Ok(s) && Ok(t) && t.pc == fixup && Get(t, A0) == Get(s, T0) && Get(t, A1) == W32(3 * Get(s, T1)) &&
    Get(t, LR) == resolver + 40 && Get(t, SP) == sp - FRAME_SIZE &&
    t.mem == Filled(s.mem, sp, Get(s, LR), Get(s, A0), Get(s, A1), Get(s, A2), Get(s, A3)) &&
    forall r: Reg :: CalleeSaved(r) && r != SP ==> Get(t, r) == Get(s, r)
  }

  lemma {:induction false} SaveFalls(s: State, resolver: nat, fixup: nat, sp: nat, x: nat, end: nat)
    returns (trace: seq<State>, t: State)
    requires Ok(s) && s.pc == resolver && resolver + 72 <= WORD32 && fixup + 4 < WORD32 && end == resolver + 40
    requires sp == Get(s, SP) && Apart(sp, resolver) && x == Delta(resolver + 32, fixup)
    ensures Part(trace, SaveCode(x), resolver, end, true) && trace[0] == s && trace[10] == t
    ensures Entered(s, t, resolver, fixup, sp)
  {
    var adr := resolver + 32;
    PcRelative(adr, fixup, x);
    var c1 := [SubI(SP, SP, FRAME_SIZE)];
    var c2 := [StoreLong(SP, LR, 0), StoreLong(SP, A0, 4), StoreLong(SP, A1, 8), StoreLong(SP, A2, 12),
               StoreLong(SP, A3, 16)];
    var c3 := [Add(A0, T0, ZERO, Lsh, 0), Add(A1, T1, T1, Lsh, 1)];
    var c4 := [Adr(A2, High(x)), Jalr(LR, A2, Low(x))];
    SaveSplits(x, c1, c2, c3, c4);
    var t1, u := FrameMade(s, sp, resolver, end, c1);
    var t2, v := FrameFilled(u, sp, resolver, end, c2);
    SameRegisters(u, v);
    var t3, w := ArgumentsPassed(v, resolver, end, c3);
    var t4;
    t4, t := FixupEntered(w, resolver, end, x, c4);
    PartsJoin(t1, c1, t2, c2, resolver, end, false);
    PartsJoin(Joined(t1, t2), c1 + c2, t3, c3, resolver, end, false);
    PartsJoin(Joined(Joined(t1, t2), t3), c1 + c2 + c3, t4, c4, resolver, end, true);
    trace := Joined(Joined(Joined(t1, t2), t3), t4);
  }

  lemma {:induction false} SameRegisters(s: State, t: State)
    requires Ok(s) && Ok(t) && t.regs == s.regs
    ensures forall r: Reg :: Get(t, r) == Get(s, r)
  {
  }

  /** The resolver enters the fixup function with the link map and three times what the header left in t1. */
  lemma {:induction false} FixupCalled(s: State, resolver: nat, fixup: nat, sp: nat, n: nat) returns (t: State)
    requires Ok(s) && s.pc == resolver && Trampoline(s.mem, resolver, fixup) && n == 10
    requires sp == Get(s, SP) && Apart(sp, resolver)
    ensures Run(s, n) == Some(t) && Entered(s, t, resolver, fixup, sp)
  {
    var x := Delta(resolver + 32, fixup);
    var end := resolver + 40;
    var trace;
    trace, t := SaveFalls(s, resolver, fixup, sp, x, end);
    RunsThrough(trace, resolver, SaveCode(x), n);
  }

  // ----- after the fixup function -----

  /** `u` is a state in which the fixup function called at `t` can return with the callee's address in a3: the
      stack is back, and it changed neither the saved registers, nor the caller's frame, nor the trampoline. */
  ghost predicate Returned(t: State, u: State, resolver: nat, fixup: nat, sp: nat)
    requires sp >= FRAME_SIZE
  {
    Ok(t) && Ok(u) && u.pc == Get(t, LR) && Trampoline(u.mem, resolver, fixup) &&
    (forall r: Reg :: CalleeSaved(r) ==> Get(u, r) == Get(t, r)) &&
    forall a: nat :: sp - FRAME_SIZE <= a < sp ==> Load(u.mem, a) == Load(t.mem, a)
  }

  lemma {:induction false} TargetTaken(s: State, at: nat, end: nat, code: seq<Insn>)
    returns (trace: seq<State>, t: State)
    requires Ok(s) && code == [Add(T1, A3, ZERO, Lsh, 0)]
    ensures Part(trace, code, at, end, false) && trace[0] == s && trace[1] == t && Ok(t) && t.mem == s.mem
    ensures Get(t, T1) == Get(s, A3) && forall r: Reg :: CalleeSaved(r) ==> Get(t, r) == Get(s, r)
  {
    t := Execute(s, code[0]);
    trace := [s, t];
  }

  lemma {:induction false} LinkRestored(s: State, sp: nat, at: nat, end: nat, code: seq<Insn>)
    returns (trace: seq<State>, t: State)
    requires Ok(s) && FRAME_SIZE <= sp < WORD32 && Get(s, SP) == sp - FRAME_SIZE
    requires code == [LoadLong(LR, SP, 0), LoadLong(A0, SP, 4), LoadLong(A1, SP, 8)]
    ensures Part(trace, code, at, end, false) && trace[0] == s && trace[3] == t && Ok(t) && t.mem == s.mem
    ensures Get(t, LR) == Load(s.mem, sp - 20) && Get(t, A0) == Load(s.mem, sp - 16)
    ensures Get(t, A1) == Load(s.mem, sp - 12) && Get(t, T1) == Get(s, T1)
    ensures forall r: Reg :: CalleeSaved(r) ==> Get(t, r) == Get(s, r)
  {
    var s1 := Execute(s, code[0]);
    var s2 := Execute(s1, code[1]);
    t := Execute(s2, code[2]);
    trace := [s, s1, s2, t];
  }

  lemma {:induction false} ArgumentsRestored(s: State, sp: nat, at: nat, end: nat, code: seq<Insn>)
    returns (trace: seq<State>, t: State)
    requires Ok(s) && FRAME_SIZE <= sp < WORD32 && Get(s, SP) == sp - FRAME_SIZE
    requires code == [LoadLong(A2, SP, 12), LoadLong(A3, SP, 16)]
    ensures Part(trace, code, at, end, false) && trace[0] == s && trace[2] == t && Ok(t) && t.mem == s.mem
    ensures Get(t, A2) == Load(s.mem, sp - 8) && Get(t, A3) == Load(s.mem, sp - 4)
    ensures Get(t, LR) == Get(s, LR) && Get(t, A0) == Get(s, A0) && Get(t, A1) == Get(s, A1)
    ensures Get(t, T1) == Get(s, T1) && forall r: Reg :: CalleeSaved(r) ==> Get(t, r) == Get(s, r)
  {
    var s1 := Execute(s, code[0]);
    t := Execute(s1, code[1]);
    trace := [s, s1, t];
  }

  lemma {:induction false} CalleeEntered(s: State, sp: nat, at: nat, end: nat, code: seq<Insn>)
    returns (trace: seq<State>, t: State)
    requires Ok(s) && FRAME_SIZE <= sp < WORD32 && Get(s, SP) == sp - FRAME_SIZE
    requires code == [AddI(SP, SP, FRAME_SIZE), Jalr(ZERO, T1, 0)]
    ensures Part(trace, code, at, end, true) && trace[0] == s && trace[2] == t && Ok(t) && t.mem == s.mem
    ensures t.pc == Get(s, T1) && Get(t, SP) == sp && forall r: Reg :: r != SP ==> Get(t, r) == Get(s, r)
  {
    var s1 := Execute(s, code[0]);
    t := Execute(s1, code[1]);
    trace := [s, s1, t];
  }

  lemma {:induction false} RestoreSplits(c1: seq<Insn>, c2: seq<Insn>, c3: seq<Insn>, c4: seq<Insn>)
    requires c1 == [Add(T1, A3, ZERO, Lsh, 0)]
    requires c2 == [LoadLong(LR, SP, 0), LoadLong(A0, SP, 4), LoadLong(A1, SP, 8)]
    requires c3 == [LoadLong(A2, SP, 12), LoadLong(A3, SP, 16)]
    requires c4 == [AddI(SP, SP, FRAME_SIZE), Jalr(ZERO, T1, 0)]
    ensures RestoreCode() == c1 + c2 + c3 + c4
  {
  }

  /** The callee runs with the registers the frame kept, and with everything a call preserves. */
  ghost predicate Restored(s: State, t: State, sp: nat) {
    Ok(s) && Ok(t) && t.pc == Get(s, A3) && t.mem == s.mem && Get(t, SP) == sp && sp >= FRAME_SIZE &&
    Frame(s.mem, sp, Get(t, LR), Get(t, A0), Get(t, A1), Get(t, A2), Get(t, A3)) &&
    forall r: Reg :: CalleeSaved(r) && r != SP ==> Get(t, r) == Get(s, r)
  }

  lemma {:induction false} RestoreFalls(s: State, sp: nat, at: nat, end: nat) returns (trace: seq<State>, t: State)
    requires Ok(s) && s.pc == at && FRAME_SIZE <= sp < WORD32 && Get(s, SP) == sp - FRAME_SIZE
    ensures Part(trace, RestoreCode(), at, end, true) && trace[0] == s && trace[8] == t && Restored(s, t, sp)
  {
    var c1 := [Add(T1, A3, ZERO, Lsh, 0)];
    var c2 := [LoadLong(LR, SP, 0), LoadLong(A0, SP, 4), LoadLong(A1, SP, 8)];
    var c3 := [LoadLong(A2, SP, 12), LoadLong(A3, SP, 16)];
    var c4 := [AddI(SP, SP, FRAME_SIZE), Jalr(ZERO, T1, 0)];
    RestoreSplits(c1, c2, c3, c4);
    var t1, u := TargetTaken(s, at, end, c1);
    var t2, v := LinkRestored(u, sp, at, end, c2);
    var t3, w := ArgumentsRestored(v, sp, at, end, c3);
    var t4;
    t4, t := CalleeEntered(w, sp, at, end, c4);
    PartsJoin(t1, c1, t2, c2, at, end, false);
    PartsJoin(Joined(t1, t2), c1 + c2, t3, c3, at, end, false);
    PartsJoin(Joined(Joined(t1, t2), t3), c1 + c2 + c3, t4, c4, at, end, true);
    trace := Joined(Joined(Joined(t1, t2), t3), t4);
  }

  lemma {:induction false} CalleeCalled(s: State, resolver: nat, fixup: nat, sp: nat, n: nat) returns (t: State)
    requires Ok(s) && s.pc == resolver + 40 && Trampoline(s.mem, resolver, fixup) && n == 8
    requires FRAME_SIZE <= sp < WORD32 && Get(s, SP) == sp - FRAME_SIZE
    ensures Run(s, n) == Some(t) && Restored(s, t, sp)
  {
    var at := resolver + 40;
    var end := at + 32;
    var trace;
    trace, t := RestoreFalls(s, sp, at, end);
    RunsThrough(trace, at, RestoreCode(), n);
  }

  // ----- the whole call -----

  /** A state in which a call has just entered entry `i` of an object that is not resolved yet. */
  ghost predicate Calling(s: State, plt: nat, gotplt: nat, n: nat, resolver: nat, link: nat, fixup: nat, i: nat) {
    Ok(s) && i < n && s.pc == EntryAddress(plt, i) && Bound(s.mem, plt, gotplt, n, resolver, link) &&
    Unresolved(s.mem, plt, gotplt, i) && Trampoline(s.mem, resolver, fixup) && Apart(Get(s, SP), resolver)
  }

  /** An unresolved call enters the fixup function with the link map and the byte offset of the entry's relocation:
      the index times the size of a relocation. */
  lemma {:induction false} FixupArguments(s: State, plt: nat, gotplt: nat, n: nat, resolver: nat, link: nat,
                                          fixup: nat, i: nat, steps: nat)
    returns (u: State, t: State)
    requires Calling(s, plt, gotplt, n, resolver, link, fixup, i) && steps == 20
    ensures Run(s, steps) == Some(t) && Ok(t) && t.pc == fixup
    ensures Get(t, A0) == link && Get(t, A1) == RELA_SIZE * i
    ensures KeptBut(s, u) && Entered(u, t, resolver, fixup, Get(s, SP))
  {
    var sp := Get(s, SP);
    u := LazyCall(s, plt, gotplt, n, resolver, link, i, 10);
    t := FixupCalled(u, resolver, fixup, sp, 10);
    RunAdds(s, 10, u, 10, steps);
  }

  /** Whatever the fixup function finds, the callee gets control with the stack, the return address, the arguments
      and the saved registers of the original call. */
  lemma {:induction false} CallIsTransparent(s: State, plt: nat, gotplt: nat, n: nat, resolver: nat, link: nat,
                                             fixup: nat, i: nat, s': State, t: State, u: State, r: Reg, steps: nat)
    returns (v: State)
    requires Calling(s, plt, gotplt, n, resolver, link, fixup, i) && steps == 8
    requires KeptBut(s, s') && Entered(s', t, resolver, fixup, Get(s, SP))
    requires Returned(t, u, resolver, fixup, Get(s, SP))
    requires CalleeSaved(r) || r == LR || r == A0 || r == A1 || r == A2 || r == A3
    ensures Run(u, steps) == Some(v) && Ok(v) && v.pc == Get(u, A3) && v.mem == u.mem
    ensures Get(v, r) == Get(s, r)
  {
    var sp, lr, a0, a1, a2, a3 := Get(s, SP), Get(s', LR), Get(s', A0), Get(s', A1), Get(s', A2), Get(s', A3);
    v := CalleeCalled(u, resolver, fixup, sp, steps);
    FilledIs(s'.mem, sp, lr, a0, a1, a2, a3, t.mem);
    SameFrame(t.mem, u.mem, sp, lr, a0, a1, a2, a3);
  }

  lemma {:induction false} SameFrame(m: Memory, m': Memory, sp: nat, lr: nat, a0: nat, a1: nat, a2: nat, a3: nat)
    requires sp >= FRAME_SIZE && Frame(m, sp, lr, a0, a1, a2, a3)
    requires forall a: nat :: sp - FRAME_SIZE <= a < sp ==> Load(m', a) == Load(m, a)
    ensures Frame(m', sp, lr, a0, a1, a2, a3)
  {
  }
}
