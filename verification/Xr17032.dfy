/** The XR/17032 instructions that lazy binding executes: how the toolchain encodes them and what the processor
    does with them. */
module Xr17032 {
  import opened Basics

  // ----- registers and instructions -----

  type Reg = r: nat | r < 32

  const ZERO: Reg := 0
  const T0: Reg := 1
  const T1: Reg := 2
  const T2: Reg := 3
  const T3: Reg := 4
  const A0: Reg := 7
  const A1: Reg := 8
  const A2: Reg := 9
  const A3: Reg := 10
  const SP: Reg := 30
  const LR: Reg := 31

  datatype Shift = Lsh | Rsh

  datatype Insn =
    | Adr(a: Reg, imm: nat)
    | AddI(a: Reg, b: Reg, imm: nat)
    | SubI(a: Reg, b: Reg, imm: nat)
    | LoadLong(a: Reg, b: Reg, imm: nat)
    | StoreLong(a: Reg, b: Reg, imm: nat)
    | Jalr(a: Reg, b: Reg, imm: nat)
    | Add(a: Reg, b: Reg, c: Reg, shift: Shift, amount: nat)
    | Sub(a: Reg, b: Reg, c: Reg, shift: Shift, amount: nat)

  // ----- encoding: fields that do not overlap, so their bitwise or is their sum -----

  const OPCODE_ADR := 0x30
  const OPCODE_ADDI := 0x3c
  const OPCODE_SUBI := 0x34
  const OPCODE_LL := 0x2b
  const OPCODE_SL := 0x2a
  const OPCODE_JALR := 0x38
  const OPCODE_R := 0x39
  const FUNCTION_ADD := 7
  const FUNCTION_SUB := 6

  /** XR_INSN_I: a 16-bit immediate. */
  function EncodeI(opcode: nat, a: Reg, b: Reg, imm: nat): nat {
    opcode + a * 0x40 + b * 0x800 + imm % 0x1_0000 * 0x1_0000
  }

  /** XR_INSN_I_2: an immediate in words. */
  function EncodeI2(opcode: nat, a: Reg, b: Reg, imm: nat): nat {
    opcode + a * 0x40 + b * 0x800 + imm / 4 % 0x1_0000 * 0x1_0000
  }

  /** XR_INSN_I_16P: the upper half of an offset. */
  function EncodeI16P(opcode: nat, a: Reg, imm: nat): nat {
    opcode + a * 0x40 + imm / 0x1_0000 % 0x1_0000 * 0x1_0000
  }

  /** XR_INSN_R: three registers and a shift of the third. */
  function EncodeR(func: nat, a: Reg, b: Reg, c: Reg, shift: Shift, amount: nat): nat {
    OPCODE_R + a * 0x40 + b * 0x800 + c * 0x1_0000 + amount % 32 * 0x20_0000 +
    (if shift == Rsh then 0x400_0000 else 0) + func * 0x1000_0000
  }

  /** The encoders of the linker, with shifts, masks and bitwise or, compute these sums. */
  lemma {:induction false} EncodersAreSums(opcode: bv32, a: bv32, b: bv32, imm: bv32)
    requires opcode < 0x40 && a < 32 && b < 32
    ensures opcode | (a << 6) | (b << 11) | ((imm & 0xffff) << 16) ==
            opcode + a * 0x40 + b * 0x800 + (imm % 0x1_0000) * 0x1_0000
    ensures opcode | (a << 6) | (b << 11) | (((imm >> 2) & 0xffff) << 16) ==
            opcode + a * 0x40 + b * 0x800 + ((imm / 4) % 0x1_0000) * 0x1_0000
    ensures opcode | (a << 6) | (((imm >> 16) & 0xffff) << 16) ==
            opcode + a * 0x40 + ((imm / 0x1_0000) % 0x1_0000) * 0x1_0000
  {
  }

  lemma {:induction false} REncoderIsSum(a: bv32, b: bv32, c: bv32, amount: bv32, func: bv32)
    requires a < 32 && b < 32 && c < 32 && amount < 32 && func < 16
    ensures (func << 28) | 0x39 | (a << 6) | (b << 11) | (c << 16) | 0x400_0000 | (amount << 21) ==
            0x39 + a * 0x40 + b * 0x800 + c * 0x1_0000 + amount * 0x20_0000 + 0x400_0000 + func * 0x1000_0000
    ensures (func << 28) | 0x39 | (a << 6) | (b << 11) | (c << 16) | (amount << 21) ==
            0x39 + a * 0x40 + b * 0x800 + c * 0x1_0000 + amount * 0x20_0000 + func * 0x1000_0000
  {
  }

  function RegA(w: nat): Reg {
    w / 0x40 % 32
  }

  function RegB(w: nat): Reg {
    w / 0x800 % 32
  }

  function RegC(w: nat): Reg {
    w / 0x1_0000 % 32
  }

  function Imm(w: nat): nat {
    w / 0x1_0000
  }

  /** What the processor makes of an instruction word, for the instructions that occur here: the operation is in
      the lowest six bits, and for three registers in the highest four. */
  function Decode(w: nat): Option<Insn> {
    var op := w % 0x40;
    if op == 0x30 then Some(Adr(RegA(w), Imm(w) * 0x1_0000))
    else if op == 0x3c then Some(AddI(RegA(w), RegB(w), Imm(w)))
    else if op == 0x34 then Some(SubI(RegA(w), RegB(w), Imm(w)))
    else if op == 0x2b then Some(LoadLong(RegA(w), RegB(w), Imm(w) * 4))
    else if op == 0x2a then Some(StoreLong(RegA(w), RegB(w), Imm(w) * 4))
    else if op == 0x38 then Some(Jalr(RegA(w), RegB(w), Imm(w) * 4))
    else if op == 0x39 && w / 0x400_0000 % 4 < 2 then
      var shift := if w / 0x400_0000 % 4 == 1 then Rsh else Lsh;
      var amount := w / 0x20_0000 % 32;
      if w / 0x1000_0000 == 7 then Some(Add(RegA(w), RegB(w), RegC(w), shift, amount))
      else if w / 0x1000_0000 == 6 then Some(Sub(RegA(w), RegB(w), RegC(w), shift, amount))
      else None
    else None
  }

  // ----- decoding undoes encoding -----

  function Encode(i: Insn): (w: nat) {
    match i
    case Adr(a, imm) => EncodeI16P(OPCODE_ADR, a, imm)
    case AddI(a, b, imm) => EncodeI(OPCODE_ADDI, a, b, imm)
    case SubI(a, b, imm) => EncodeI(OPCODE_SUBI, a, b, imm)
    case LoadLong(a, b, imm) => EncodeI2(OPCODE_LL, a, b, imm)
    case StoreLong(a, b, imm) => EncodeI2(OPCODE_SL, a, b, imm)
    case Jalr(a, b, imm) => EncodeI2(OPCODE_JALR, a, b, imm)
    case Add(a, b, x, shift, amount) => EncodeR(FUNCTION_ADD, a, b, x, shift, amount)
    case Sub(a, b, x, shift, amount) => EncodeR(FUNCTION_SUB, a, b, x, shift, amount)
  }

  /** The operands fit their fields. */
  predicate Fits(i: Insn) {
    match i
    case Adr(_, imm) => imm < WORD32 && imm % 0x1_0000 == 0
    case AddI(_, _, imm) => imm < 0x1_0000
    case SubI(_, _, imm) => imm < 0x1_0000
    case LoadLong(_, _, imm) => imm < 0x4_0000 && imm % 4 == 0
    case StoreLong(_, _, imm) => imm < 0x4_0000 && imm % 4 == 0
    case Jalr(_, _, imm) => imm < 0x4_0000 && imm % 4 == 0
    case Add(_, _, _, _, amount) => amount < 32
    case Sub(_, _, _, _, amount) => amount < 32
  }

  lemma {:induction false} FieldA(opcode: nat, a: Reg, rest: nat, w: nat)
    requires opcode < 0x40 && w == opcode + (a + rest * 32) * 0x40
    ensures w % 0x40 == opcode && RegA(w) == a
  {
    assert w / 0x40 == a + rest * 32;
  }

  lemma {:induction false} FieldB(low: nat, b: Reg, rest: nat, w: nat)
    requires low < 0x800 && w == low + (b + rest * 32) * 0x800
    ensures RegB(w) == b
  {
    assert w / 0x800 == b + rest * 32;
  }

  lemma {:induction false} FieldsI(opcode: nat, a: Reg, b: Reg, imm: nat, w: nat)
    requires opcode < 0x40 && imm < 0x1_0000 && w == opcode + a * 0x40 + b * 0x800 + imm * 0x1_0000
    ensures w < WORD32
    ensures w % 0x40 == opcode && RegA(w) == a && RegB(w) == b && Imm(w) == imm
  {
    var low, rest := opcode + a * 0x40, b + imm * 32;
    FieldA(opcode, a, rest, w);
    FieldB(low, b, imm, w);
    QuotientIs(w, 0x1_0000, imm, low + b * 0x800);
  }

  lemma {:induction false} FieldC(low: nat, c: Reg, rest: nat, w: nat)
    requires low < 0x1_0000 && w == low + (c + rest * 32) * 0x1_0000
    ensures RegC(w) == c
  {
    assert w / 0x1_0000 == c + rest * 32;
  }

  lemma {:induction false} UpperFields(low: nat, amount: nat, s: nat, func: nat, w: nat)
    requires low < 0x20_0000 && amount < 32 && s < 4 && func < 16
    requires w == low + (amount + s * 32 + func * 128) * 0x20_0000
    ensures w / 0x20_0000 % 32 == amount && w / 0x400_0000 % 4 == s && w / 0x1000_0000 == func
  {
    assert w / 0x20_0000 == amount + s * 32 + func * 128;
    assert w / 0x400_0000 == s + func * 4;
  }

  lemma {:induction false} FieldsR(func: nat, a: Reg, b: Reg, c: Reg, s: nat, amount: nat, w: nat)
    requires func < 16 && s < 4 && amount < 32
    requires w == OPCODE_R + a * 0x40 + b * 0x800 + c * 0x1_0000 + amount * 0x20_0000 + s * 0x400_0000 +
                  func * 0x1000_0000
    ensures w < WORD32
    ensures w % 0x40 == OPCODE_R && RegA(w) == a && RegB(w) == b && RegC(w) == c
    ensures w / 0x20_0000 % 32 == amount && w / 0x400_0000 % 4 == s && w / 0x1000_0000 == func
  {
    var high := amount + s * 32 + func * 128;
    FieldA(OPCODE_R, a, b + c * 32 + high * 0x400, w);
    FieldB(OPCODE_R + a * 0x40, b, c + high * 32, w);
    FieldC(OPCODE_R + a * 0x40 + b * 0x800, c, high, w);
    UpperFields(OPCODE_R + a * 0x40 + b * 0x800 + c * 0x1_0000, amount, s, func, w);
  }

  function ShiftCode(shift: Shift): (s: nat)
    ensures s < 2
  {
    if shift == Rsh then 1 else 0
  }

  lemma {:induction false} DecodeSixteen(i: Insn, w: nat)
    requires Fits(i) && (i.AddI? || i.SubI?) && w == Encode(i)
    ensures w < WORD32 && Decode(w) == Some(i)
  {
    FieldsI(if i.AddI? then OPCODE_ADDI else OPCODE_SUBI, i.a, i.b, i.imm, w);
  }

  lemma {:induction false} ScaledFields(opcode: nat, a: Reg, b: Reg, imm: nat, w: nat)
    requires opcode < 0x40 && imm < 0x4_0000 && imm % 4 == 0 && w == EncodeI2(opcode, a, b, imm)
    ensures w < WORD32 && w % 0x40 == opcode && RegA(w) == a && RegB(w) == b && Imm(w) * 4 == imm
  {
    var q := imm / 4;
    assert q < 0x1_0000 && q * 4 == imm;
    FieldsI(opcode, a, b, q, w);
  }

  lemma {:induction false} DecodeScaled(opcode: nat, a: Reg, b: Reg, imm: nat, w: nat)
    requires opcode == OPCODE_LL || opcode == OPCODE_SL || opcode == OPCODE_JALR
    requires imm < 0x4_0000 && imm % 4 == 0 && w == EncodeI2(opcode, a, b, imm)
    ensures w < WORD32
    ensures opcode == OPCODE_LL ==> Decode(w) == Some(LoadLong(a, b, imm))
    ensures opcode == OPCODE_SL ==> Decode(w) == Some(StoreLong(a, b, imm))
    ensures opcode == OPCODE_JALR ==> Decode(w) == Some(Jalr(a, b, imm))
  {
    ScaledFields(opcode, a, b, imm, w);
  }

  lemma {:induction false} UpperField(a: Reg, imm: nat, w: nat)
    requires imm < WORD32 && imm % 0x1_0000 == 0 && w == EncodeI16P(OPCODE_ADR, a, imm)
    ensures w < WORD32 && w % 0x40 == OPCODE_ADR && RegA(w) == a && Imm(w) * 0x1_0000 == imm
  {
    var q := imm / 0x1_0000;
    assert q < 0x1_0000 && q * 0x1_0000 == imm;
    FieldsI(OPCODE_ADR, a, 0, q, w);
  }

  lemma {:induction false} DecodeUpper(a: Reg, imm: nat, w: nat)
    requires imm < WORD32 && imm % 0x1_0000 == 0 && w == EncodeI16P(OPCODE_ADR, a, imm)
    ensures w < WORD32 && Decode(w) == Some(Adr(a, imm))
  {
    UpperField(a, imm, w);
  }

  lemma {:induction false} DecodeRegister(func: nat, a: Reg, b: Reg, c: Reg, shift: Shift, amount: nat, w: nat)
    requires amount < 32 && w == EncodeR(func, a, b, c, shift, amount)
    ensures func == FUNCTION_ADD ==> w < WORD32 && Decode(w) == Some(Add(a, b, c, shift, amount))
    ensures func == FUNCTION_SUB ==> w < WORD32 && Decode(w) == Some(Sub(a, b, c, shift, amount))
  {
    if func < 16 {
      var s := ShiftCode(shift);
      FieldsR(func, a, b, c, s, amount, w);
    }
  }

  /** Every instruction whose operands fit is a word, and the processor reads it back from that word. */
  lemma {:induction false} EncodeDecode(i: Insn)
    requires Fits(i)
    ensures Encode(i) < WORD32 && Decode(Encode(i)) == Some(i)
  {
    var w := Encode(i);
    match i
    case Add(a, b, c, shift, amount) => DecodeRegister(FUNCTION_ADD, a, b, c, shift, amount, w);
    case Sub(a, b, c, shift, amount) => DecodeRegister(FUNCTION_SUB, a, b, c, shift, amount, w);
    case Adr(a, imm) => DecodeUpper(a, imm, w);
    case LoadLong(a, b, imm) => DecodeScaled(OPCODE_LL, a, b, imm, w);
    case StoreLong(a, b, imm) => DecodeScaled(OPCODE_SL, a, b, imm, w);
    case Jalr(a, b, imm) => DecodeScaled(OPCODE_JALR, a, b, imm, w);
    case _ => DecodeSixteen(i, w);
  }

  // ----- the processor -----

  type Memory = map<nat, nat>

  datatype State = State(pc: nat, regs: seq<nat>, mem: Memory)

  predicate Ok(s: State) {
    |s.regs| == 32 && s.pc < WORD32 && forall i | 0 <= i < 32 :: s.regs[i] < WORD32
  }

  function Get(s: State, r: Reg): (x: nat)
    requires Ok(s)
    ensures x < WORD32
  {
    if r == ZERO then 0 else s.regs[r]
  }

  /** Register `a` becomes `x`, unless it is the zero register, and the next instruction is at `pc`. */
  function Put(s: State, a: Reg, x: nat, pc: nat): (t: State)
    requires Ok(s) && x < WORD32 && pc < WORD32
    ensures Ok(t)
  {
    s.(pc := pc, regs := if a == ZERO then s.regs else s.regs[a := x])
  }

  function Load(m: Memory, a: nat): (x: nat)
    ensures x < WORD32
  {
    if a in m && m[a] < WORD32 then m[a] else 0
  }

  function Shifted(x: nat, shift: Shift, amount: nat): (r: nat)
    requires x < WORD32
    ensures r < WORD32
    decreases amount
  {
    if amount == 0 then x
    else if shift == Lsh then Shifted(W32(x * 2), shift, amount - 1)
    else Shifted(x / 2, shift, amount - 1)
  }

  /** One instruction. ADR adds to its own address; JALR leaves the address of the next instruction. */
  function Execute(s: State, i: Insn): (t: State)
    requires Ok(s)
    ensures Ok(t)
  {
    var next := W32(s.pc + 4);
    match i
    case Adr(a, imm) => Put(s, a, W32(s.pc + imm), next)
    case AddI(a, b, imm) => Put(s, a, W32(Get(s, b) + imm), next)
    case SubI(a, b, imm) => Put(s, a, W32(Get(s, b) - imm), next)
    case LoadLong(a, b, imm) => Put(s, a, Load(s.mem, W32(Get(s, b) + imm)), next)
    case StoreLong(a, b, imm) => s.(pc := next, mem := s.mem[W32(Get(s, a) + imm) := Get(s, b)])
    case Jalr(a, b, imm) => Put(s, a, next, W32(Get(s, b) + imm))
    case Add(a, b, x, shift, amount) => Put(s, a, W32(Get(s, b) + Shifted(Get(s, x), shift, amount)), next)
    case Sub(a, b, x, shift, amount) => Put(s, a, W32(Get(s, b) - Shifted(Get(s, x), shift, amount)), next)
  }

  /** The instruction fetched from memory is executed, if the word is one of those known here. */
  function Step(s: State): (r: Option<State>)
    ensures r.Some? ==> Ok(s) && Ok(r.value)
  {
    if !Ok(s) then None
    else
      match Decode(Load(s.mem, s.pc))
      case None => None
      case Some(i) => Some(Execute(s, i))
  }

  /** `n` steps of `f`. */
  function Iterate<T>(f: T -> Option<T>, s: T, n: nat): Option<T>
    decreases n
  {
    if n == 0 then Some(s) else if f(s).None? then None else Iterate(f, f(s).value, n - 1)
  }

  /** The machine after `n` instructions. */
  function Run(s: State, n: nat): Option<State> {
    Iterate(Step, s, n)
  }

  // ----- runs -----

  /** The instructions `code` lie in memory from `at` on. */
  ghost predicate Code(m: Memory, at: nat, code: seq<Insn>) {
    at + 4 * |code| <= WORD32 &&
    forall k | 0 <= k < |code| :: Fits(code[k]) && Load(m, at + 4 * k) == Encode(code[k])
  }

  lemma {:induction false} CodeStep(s: State, at: nat, code: seq<Insn>, k: nat)
    requires Ok(s) && Code(s.mem, at, code) && k < |code| && s.pc == at + 4 * k
    ensures Step(s) == Some(Execute(s, code[k]))
  {
    EncodeDecode(code[k]);
  }

  lemma {:induction false} IterateAdds<T>(f: T -> Option<T>, s: T, a: nat, t: T, b: nat, n: nat)
    requires Iterate(f, s, a) == Some(t) && n == a + b
    ensures Iterate(f, s, n) == Iterate(f, t, b)
    decreases a
  {
    if a > 0 {
      IterateAdds(f, f(s).value, a - 1, t, b, n - 1);
    }
  }

  /** A run goes on from where an earlier one stopped. */
  lemma {:induction false} RunAdds(s: State, a: nat, t: State, b: nat, n: nat)
    requires Run(s, a) == Some(t) && n == a + b
    ensures Run(s, n) == Run(t, b)
  {
    IterateAdds(Step, s, a, t, b, n);
  }

  lemma {:induction false} RunOne(s: State, t: State, one: nat)
    requires Step(s) == Some(t) && one == 1
    ensures Run(s, one) == Some(t)
  {
    assert Iterate(Step, t, 0) == Some(t);
  }

  /** Where an instruction stores, if it does. */
  function Target(s: State, i: Insn): nat
    requires Ok(s) && i.StoreLong?
  {
    W32(Get(s, i.a) + i.imm)
  }

  /** One instruction of a stretch of code in [at, end): it does not write that code, and it falls through unless
      it is the last. */
  ghost predicate Fall(s: State, i: Insn, t: State, at: nat, end: nat, last: bool) {
    Ok(s) && t == Execute(s, i) && (i.Jalr? ==> last) && (i.StoreLong? ==> !(at <= Target(s, i) < end))
  }

  /** The states a part of the stretch goes through; `last` if the stretch ends with it. */
  ghost predicate Part(trace: seq<State>, code: seq<Insn>, at: nat, end: nat, last: bool) {
    |trace| == |code| + 1 &&
    forall k | 0 <= k < |code| :: Fall(trace[k], code[k], trace[k + 1], at, end, last && k == |code| - 1)
  }

  /** The states a whole stretch of code at `at` goes through. */
  ghost predicate Falls(trace: seq<State>, at: nat, code: seq<Insn>) {
    Part(trace, code, at, at + 4 * |code|, true)
  }

  function Joined(first: seq<State>, rest: seq<State>): seq<State>
    requires rest != []
  {
    first + rest[1..]
  }

  lemma {:induction false} PartsJoin(t1: seq<State>, c1: seq<Insn>, t2: seq<State>, c2: seq<Insn>, at: nat, end: nat,
                                     last: bool)
    requires Part(t1, c1, at, end, false) && Part(t2, c2, at, end, last) && c2 != [] && t1[|c1|] == t2[0]
    ensures Part(Joined(t1, t2), c1 + c2, at, end, last)
    ensures Joined(t1, t2)[0] == t1[0] && Joined(t1, t2)[|c1 + c2|] == t2[|c2|]
  {
    var t, c := Joined(t1, t2), c1 + c2;
    forall k | 0 <= k < |c| ensures Fall(t[k], c[k], t[k + 1], at, end, last && k == |c| - 1) {
      if k < |c1| {
        assert Fall(t1[k], c1[k], t1[k + 1], at, end, false && k == |c1| - 1);
      } else {
        var j := k - |c1|;
        assert Fall(t2[j], c2[j], t2[j + 1], at, end, last && j == |c2| - 1);
      }
    }
  }

  lemma {:induction false} FallKeeps(s: State, i: Insn, t: State, at: nat, end: nat, last: bool, code: seq<Insn>)
    requires Fall(s, i, t, at, end, last) && Code(s.mem, at, code) && end == at + 4 * |code|
    ensures Code(t.mem, at, code)
    ensures !last && s.pc + 4 < WORD32 ==> t.pc == s.pc + 4
  {
    forall k | 0 <= k < |code| ensures Fits(code[k]) && Load(t.mem, at + 4 * k) == Encode(code[k]) {
      assert Load(s.mem, at + 4 * k) == Encode(code[k]);
    }
  }

  lemma {:induction false} FallsTo(trace: seq<State>, at: nat, code: seq<Insn>, k: nat)
    requires Falls(trace, at, code) && Code(trace[0].mem, at, code) && trace[0].pc == at && k <= |code|
    ensures Run(trace[0], k) == Some(trace[k]) && Code(trace[k].mem, at, code)
    ensures k < |code| ==> trace[k].pc == at + 4 * k
    decreases k
  {
    if k > 0 {
      var j := k - 1;
      FallsTo(trace, at, code, j);
      assert Fall(trace[j], code[j], trace[j + 1], at, at + 4 * |code|, true && j == |code| - 1);
      CodeStep(trace[j], at, code, j);
      RunOne(trace[j], trace[k], 1);
      RunAdds(trace[0], j, trace[j], 1, k);
      FallKeeps(trace[j], code[j], trace[k], at, at + 4 * |code|, j == |code| - 1, code);
    }
  }

  /** Code that lies in memory and is not overwritten runs from its first state to its last. */
  lemma {:induction false} RunsThrough(trace: seq<State>, at: nat, code: seq<Insn>, n: nat)
    requires Falls(trace, at, code) && Code(trace[0].mem, at, code) && trace[0].pc == at && n == |code|
    ensures Run(trace[0], n) == Some(trace[n])
  {
    FallsTo(trace, at, code, n);
  }

  lemma {:induction false} ShiftRightTwo(x: nat)
    requires x < WORD32
    ensures Shifted(x, Rsh, 2) == x / 4
  {
    assert Shifted(x, Rsh, 2) == Shifted(x / 2, Rsh, 1) == Shifted(x / 2 / 2, Rsh, 0);
  }

  lemma {:induction false} ShiftLeftOne(x: nat)
    requires x < WORD32
    ensures Shifted(x, Lsh, 1) == W32(2 * x)
  {
    assert Shifted(x, Lsh, 1) == Shifted(W32(x * 2), Lsh, 0);
  }
}
