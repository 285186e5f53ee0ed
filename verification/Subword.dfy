/** The byte and halfword atomics that GCC emits for the XR/17032, which has only word-sized LL/SC, on the
    bits of registers. */
module Subword {
  import opened Basics

  /** The bits of a register, least significant first. */
  type Bits = seq<bool>

  predicate IsWord(x: Bits) {
    |x| == 32
  }

  // ----- instructions -----

  function And(x: Bits, y: Bits): (r: Bits)
    requires |x| == |y|
    ensures |r| == |x|
  {
    seq(|x|, i requires 0 <= i < |x| => x[i] && y[i])
  }

  function Or(x: Bits, y: Bits): (r: Bits)
    requires |x| == |y|
    ensures |r| == |x|
  {
    seq(|x|, i requires 0 <= i < |x| => x[i] || y[i])
  }

  function Xor(x: Bits, y: Bits): (r: Bits)
    requires |x| == |y|
    ensures |r| == |x|
  {
    seq(|x|, i requires 0 <= i < |x| => x[i] != y[i])
  }

  function Not(x: Bits): (r: Bits)
    ensures |r| == |x|
  {
    seq(|x|, i requires 0 <= i < |x| => !x[i])
  }

  /** Shift left. */
  function Shl(x: Bits, s: nat): (r: Bits)
    ensures |r| == |x|
  {
    seq(|x|, i requires 0 <= i < |x| => i >= s && x[i - s])
  }

  /** Arithmetic shift right. */
  function Ashr(x: Bits, s: nat): (r: Bits)
    requires x != []
    ensures |r| == |x|
  {
    seq(|x|, i requires 0 <= i < |x| => if i + s < |x| then x[i + s] else x[|x| - 1])
  }

  /** The carry into bit `i` of a sum. */
  predicate Carry(x: Bits, y: Bits, i: nat)
    requires |x| == |y| && i <= |x|
  {
    i > 0 && ((x[i - 1] && y[i - 1]) || ((x[i - 1] || y[i - 1]) && Carry(x, y, i - 1)))
  }

  /** Addition modulo two to the number of bits. */
  function Add(x: Bits, y: Bits): (r: Bits)
    requires |x| == |y|
    ensures |r| == |x|
  {
    seq(|x|, i requires 0 <= i < |x| => (x[i] != y[i]) != Carry(x, y, i))
  }

  /** The borrow from bit `i` of a difference. */
  predicate Borrow(x: Bits, y: Bits, i: nat)
    requires |x| == |y| && i <= |x|
  {
    i > 0 && ((!x[i - 1] && y[i - 1]) || ((!x[i - 1] || y[i - 1]) && Borrow(x, y, i - 1)))
  }

  /** Subtraction modulo two to the number of bits. */
  function Sub(x: Bits, y: Bits): (r: Bits)
    requires |x| == |y|
    ensures |r| == |x|
  {
    seq(|x|, i requires 0 <= i < |x| => (x[i] != y[i]) != Borrow(x, y, i))
  }

  predicate IsZero(x: Bits) {
    forall i | 0 <= i < |x| :: !x[i]
  }

  // ----- the bits are numbers -----

  function Value(x: Bits): nat {
    if x == [] then 0 else Value(x[..|x| - 1]) + if x[|x| - 1] then Pow2(|x| - 1) else 0
  }

  lemma {:induction false} CarryPrefix(x: Bits, y: Bits, k: nat, i: nat)
    requires |x| == |y| && i <= k <= |x|
    ensures Carry(x[..k], y[..k], i) == Carry(x, y, i)
  {
    if i > 0 {
      CarryPrefix(x, y, k, i - 1);
    }
  }

  /** The sum of bits is the sum of numbers, less the carry out. */
  lemma {:induction false} AddIsSum(x: Bits, y: Bits)
    requires |x| == |y|
    ensures Value(Add(x, y)) + (if Carry(x, y, |x|) then Pow2(|x|) else 0) == Value(x) + Value(y)
    decreases |x|
  {
    if x != [] {
      var n := |x| - 1;
      var x', y' := x[..n], y[..n];
      AddIsSum(x', y');
      CarryPrefix(x, y, n, n);
      assert Add(x, y)[..n] == Add(x', y') by {
        forall i | 0 <= i < n ensures Add(x, y)[..n][i] == Add(x', y')[i] {
          CarryPrefix(x, y, n, i);
        }
      }
      assert Pow2(n + 1) == 2 * Pow2(n);
    }
  }

  lemma {:induction false} ValueBound(x: Bits)
    ensures Value(x) < Pow2(|x|)
  {
    if x != [] {
      ValueBound(x[..|x| - 1]);
    }
  }

  /** That is addition modulo two to the number of bits. */
  lemma {:induction false} AddIsModular(x: Bits, y: Bits)
    requires |x| == |y|
    ensures Value(Add(x, y)) == Value(x) + Value(y) || Value(Add(x, y)) == Value(x) + Value(y) - Pow2(|x|)
    ensures Value(Add(x, y)) < Pow2(|x|)
  {
    AddIsSum(x, y);
    ValueBound(Add(x, y));
  }

  lemma {:induction false} BorrowPrefix(x: Bits, y: Bits, k: nat, i: nat)
    requires |x| == |y| && i <= k <= |x|
    ensures Borrow(x[..k], y[..k], i) == Borrow(x, y, i)
  {
    if i > 0 {
      BorrowPrefix(x, y, k, i - 1);
    }
  }

  /** The difference of bits is the difference of numbers, plus the borrow. */
  lemma {:induction false} SubIsDifference(x: Bits, y: Bits)
    requires |x| == |y|
    ensures Value(Sub(x, y)) + Value(y) == Value(x) + if Borrow(x, y, |x|) then Pow2(|x|) else 0
    decreases |x|
  {
    if x != [] {
      var n := |x| - 1;
      var x', y' := x[..n], y[..n];
      SubIsDifference(x', y');
      BorrowPrefix(x, y, n, n);
      assert Sub(x, y)[..n] == Sub(x', y') by {
        forall i | 0 <= i < n ensures Sub(x, y)[..n][i] == Sub(x', y')[i] {
          BorrowPrefix(x, y, n, i);
        }
      }
      assert Pow2(n + 1) == 2 * Pow2(n);
    }
  }

  lemma {:induction false} EqualSoFar(x: Bits, y: Bits, k: nat)
    requires |x| == |y| && k <= |x|
    requires (forall i | 0 <= i < k :: x[i] == y[i]) || (forall i | 0 <= i < k :: !Sub(x, y)[i])
    ensures !Borrow(x, y, k) && forall i | 0 <= i < k :: x[i] == y[i]
  {
    if k > 0 {
      EqualSoFar(x, y, k - 1);
      assert Sub(x, y)[k - 1] == ((x[k - 1] != y[k - 1]) != Borrow(x, y, k - 1));
    }
  }

  /** A difference is zero exactly when there is none. */
  lemma {:induction false} SubIsZero(x: Bits, y: Bits)
    requires |x| == |y|
    ensures IsZero(Sub(x, y)) <==> x == y
  {
    var d := Sub(x, y);
    if IsZero(d) || x == y {
      EqualSoFar(x, y, |x|);
    }
    if x == y {
      forall i | 0 <= i < |x| ensures !d[i] {
        EqualSoFar(x, y, i);
      }
    }
  }

  lemma {:induction false} BitwisePrefix(x: Bits, y: Bits, n: nat)
    requires |x| == |y| && n <= |x|
    ensures Or(x, y)[..n] == Or(x[..n], y[..n]) && And(x, y)[..n] == And(x[..n], y[..n])
    ensures Xor(x, y)[..n] == Xor(x[..n], y[..n])
  {
  }

  /** The bits of a disjunction and of a conjunction make up the operands; an exclusive or is the sum of the bits
      without carries. */
  lemma {:induction false} BitwiseSums(x: Bits, y: Bits)
    requires |x| == |y|
    ensures Value(Or(x, y)) + Value(And(x, y)) == Value(x) + Value(y)
    ensures Value(Xor(x, y)) + 2 * Value(And(x, y)) == Value(x) + Value(y)
    decreases |x|
  {
    if x != [] {
      var n := |x| - 1;
      BitwiseSums(x[..n], y[..n]);
      BitwisePrefix(x, y, n);
    }
  }

  /** A complement is what is missing to all ones. */
  lemma {:induction false} NotIsRest(x: Bits)
    ensures Value(Not(x)) + Value(x) + 1 == Pow2(|x|)
    decreases |x|
  {
    if x != [] {
      var n := |x| - 1;
      NotIsRest(x[..n]);
      assert Not(x)[..n] == Not(x[..n]);
      assert Pow2(n + 1) == 2 * Pow2(n);
    }
  }

  /** The number that the bits below `k` and those from `k` on make together. */
  lemma {:induction false} ValueSplit(x: Bits, k: nat)
    requires k <= |x|
    ensures Value(x) == Value(x[..k]) + Pow2(k) * Value(x[k..])
    decreases |x|
  {
    if k == |x| {
      assert x[..k] == x && Value(x[k..]) == 0;
    } else {
      var n, m := |x| - 1, |x| - 1 - k;
      ValueSplit(x[..n], k);
      assert x[..n][..k] == x[..k] && x[..n][k..] == x[k..][..m];
      TopBit(k, m, n, Value(x[k..][..m]));
    }
  }

  lemma {:induction false} TopBit(k: nat, m: nat, n: nat, v: nat)
    requires n == k + m
    ensures Pow2(k) * (v + Pow2(m)) == Pow2(k) * v + Pow2(n)
  {
    PowersMultiply(k, m, n);
    Distributes(Pow2(k), v, Pow2(m));
  }

  lemma {:induction false} PowersMultiply(k: nat, m: nat, n: nat)
    requires n == k + m
    ensures Pow2(k) * Pow2(m) == Pow2(n)
  {
    if k > 0 {
      PowersMultiply(k - 1, m, n - 1);
      DoubledProduct(Pow2(k - 1), Pow2(m), Pow2(k), Pow2(n - 1));
    }
  }

  lemma {:induction false} DoubledProduct(h: nat, p: nat, x: nat, half: nat)
    requires x == 2 * h && h * p == half
    ensures x * p == 2 * half
  {
    assert (2 * h) * p == 2 * (h * p);
  }

  lemma {:induction false} Distributes(a: nat, b: nat, c: nat)
    ensures a * (b + c) == a * b + a * c
  {
  }

  // ----- requests -----

  /** The operation and its operands in registers. Above the low bits a register may hold anything. */
  datatype Kind =
    | FetchAdd(value: Bits)
    | FetchOr(value: Bits)
    | FetchXor(value: Bits)
    | FetchAnd(value: Bits)
    | CompareSwap(expected: Bits, desired: Bits)

  /** `width` is 8 or 16. */
  datatype Request = Request(addr: nat, width: nat, kind: Kind)

  /** A byte anywhere or a halfword at an even address, with word-sized operands. */
  predicate RequestOk(r: Request) {
    && (r.width == 8 || (r.width == 16 && r.addr % 2 == 0))
    && (match r.kind
        case CompareSwap(expected, desired) => IsWord(expected) && IsWord(desired)
        case _ => IsWord(r.kind.value))
  }

  // ----- xr17032_subword_address -----

  function WordAddr(addr: nat): nat {
    addr - addr % 4
  }

  function ShiftOf(addr: nat): (s: nat)
    ensures s <= 24
  {
    addr % 4 * 8
  }

  function Ones(width: nat): (r: Bits)
    ensures IsWord(r)
  {
    seq(32, i requires 0 <= i < 32 => i < width)
  }

  function MaskOf(r: Request): (m: Bits)
    ensures IsWord(m)
  {
    Shl(Ones(r.width), ShiftOf(r.addr))
  }

  // ----- the emitted sequences -----

  /** `<insn> tmp, old, value` of subword_atomic_fetch_strong, with the operand shifted into place. */
  function Combine(r: Request, word: Bits): (x: Bits)
    requires RequestOk(r) && IsWord(word) && !r.kind.CompareSwap?
    ensures IsWord(x)
  {
    var operand := Shl(r.kind.value, ShiftOf(r.addr));
    match r.kind
    case FetchAdd(_) => Add(word, operand)
    case FetchOr(_) => Or(word, operand)
    case FetchXor(_) => Xor(word, operand)
    case FetchAnd(_) => And(word, operand)
  }

  /** The word that the store conditional tries to write. */
  function NewWord(r: Request, word: Bits): (x: Bits)
    requires RequestOk(r) && IsWord(word)
    ensures IsWord(x)
  {
    var rest := And(word, Not(MaskOf(r)));
    if r.kind.CompareSwap? then Or(rest, And(Shl(r.kind.desired, ShiftOf(r.addr)), MaskOf(r)))
    else Or(rest, And(Combine(r, word), MaskOf(r)))
  }

  /** The two masked words that subword_atomic_cas_strong compares. */
  function MaskedWord(r: Request, word: Bits): (x: Bits)
    requires RequestOk(r) && IsWord(word)
    ensures IsWord(x)
  {
    And(word, MaskOf(r))
  }

  function MaskedExpected(r: Request): (x: Bits)
    requires RequestOk(r) && r.kind.CompareSwap?
    ensures IsWord(x)
  {
    And(Shl(r.kind.expected, ShiftOf(r.addr)), MaskOf(r))
  }

  /** `sub` and `bne` of subword_atomic_cas_strong: the difference is not zero. */
  predicate Mismatch(r: Request, word: Bits)
    requires RequestOk(r) && IsWord(word)
  {
    r.kind.CompareSwap? && !IsZero(Sub(MaskedWord(r, word), MaskedExpected(r)))
  }

  /** The result: the loaded word shifted down, and its low part. */
  function ResultOf(r: Request, word: Bits): Bits
    requires RequestOk(r) && IsWord(word)
  {
    Ashr(word, ShiftOf(r.addr))[..r.width]
  }

  // ----- the intended meaning, on fields -----

  /** The byte or halfword at an address, out of its word. */
  function Field(word: Bits, r: Request): (f: Bits)
    requires RequestOk(r) && IsWord(word)
    ensures |f| == r.width
  {
    word[ShiftOf(r.addr)..ShiftOf(r.addr) + r.width]
  }

  lemma {:induction false} FieldParts(word: Bits, s: nat, n: nat, e: nat, low: nat, high: nat)
    requires e == s + n <= |word| && low == Value(word[..s]) && high == Value(word[e..])
    ensures Value(word) == low + Pow2(s) * (Value(word[s..e]) + Pow2(n) * high)
    ensures low < Pow2(s) && Value(word[s..e]) < Pow2(n)
  {
    ValueSplit(word, s);
    ValueSplit(word[s..], n);
    assert word[s..][..n] == word[s..e] && word[s..][n..] == word[e..];
    ValueBound(word[..s]);
    ValueBound(word[s..e]);
  }

  /** What byte number `k` of a word counts. */
  function ByteWeight(k: nat): (w: nat)
    ensures w > 0
  {
    if k == 0 then 1 else if k == 1 then 0x100 else if k == 2 then 0x1_0000 else 0x100_0000
  }

  lemma {:induction false} WeightIs(k: nat, s: nat)
    requires k < 4 && s == 8 * k
    ensures Pow2(s) == ByteWeight(k)
  {
    assert Pow2(0) == 1 && Pow2(8) == 0x100 && Pow2(16) == 0x1_0000 && Pow2(24) == 0x100_0000;
  }

  /** The byte at an address is the byte of that number in the little-endian word, and a halfword is two of them. */
  lemma {:induction false} FieldIsLane(word: Bits, r: Request)
    requires RequestOk(r) && IsWord(word)
    ensures Value(Field(word, r)) == Value(word) / ByteWeight(r.addr % 4) % ByteWeight(r.width / 8)
  {
    var s, n := ShiftOf(r.addr), r.width;
    var e := s + n;
    var low, high := Value(word[..s]), Value(word[e..]);
    var p, q := ByteWeight(r.addr % 4), ByteWeight(r.width / 8);
    WeightIs(r.addr % 4, s);
    WeightIs(r.width / 8, n);
    FieldParts(word, s, n, e, low, high);
    LaneOf(Value(word), low, Value(Field(word, r)), high, p, q);
  }

  lemma {:induction false} LaneOf(value: nat, low: nat, field: nat, high: nat, p: nat, q: nat)
    requires p > 0 && q > 0 && low < p && field < q && value == low + p * (field + q * high)
    ensures value / p % q == field
  {
    var rest := field + q * high;
    QuotientIs(value, p, rest, low);
    QuotientIs(rest, q, high, field);
  }

  /** The new value of a field: an operation on as many bits as the field has. */
  function Update(r: Request, f: Bits): (x: Bits)
    requires RequestOk(r) && |f| == r.width
    ensures |x| == r.width
  {
    match r.kind
    case FetchAdd(v) => Add(f, v[..r.width])
    case FetchOr(v) => Or(f, v[..r.width])
    case FetchXor(v) => Xor(f, v[..r.width])
    case FetchAnd(v) => And(f, v[..r.width])
    case CompareSwap(expected, desired) => if f == expected[..r.width] then desired[..r.width] else f
  }

  /** No carry comes out of the zeros below a shifted operand. */
  lemma {:induction false} ShiftedCarry(w: Bits, v: Bits, s: nat, n: nat, i: nat)
    requires |w| == |v| && s + n <= |w| && i <= n
    ensures Carry(w, Shl(v, s), s) == false
    ensures Carry(w, Shl(v, s), s + i) == Carry(w[s..s + n], v[..n], i)
    decreases i
  {
    if i == 0 {
      NoCarry(w, Shl(v, s), s);
    } else {
      ShiftedCarry(w, v, s, n, i - 1);
    }
  }

  lemma {:induction false} NoCarry(x: Bits, y: Bits, s: nat)
    requires |x| == |y| && s <= |x| && forall i | 0 <= i < s :: !y[i]
    ensures !Carry(x, y, s)
  {
    if s > 0 {
      NoCarry(x, y, s - 1);
    }
  }

  lemma {:induction false} FieldOfSum(w: Bits, v: Bits, s: nat, n: nat)
    requires |w| == |v| && s + n <= |w|
    ensures Add(w, Shl(v, s))[s..s + n] == Add(w[s..s + n], v[..n])
  {
    var whole, part := Add(w, Shl(v, s))[s..s + n], Add(w[s..s + n], v[..n]);
    forall i | 0 <= i < n ensures whole[i] == part[i] {
      ShiftedCarry(w, v, s, n, i);
    }
  }

  /** Masking takes the field from one word and everything else from the other. */
  lemma {:induction false} Merged(r: Request, word: Bits, x: Bits)
    requires RequestOk(r) && IsWord(word) && IsWord(x)
    ensures Field(Or(And(word, Not(MaskOf(r))), And(x, MaskOf(r))), r) == Field(x, r)
    ensures forall i | 0 <= i < 32 && !(ShiftOf(r.addr) <= i < ShiftOf(r.addr) + r.width) ::
              Or(And(word, Not(MaskOf(r))), And(x, MaskOf(r)))[i] == word[i]
  {
  }

  lemma {:induction false} ShiftedAt(w: Bits, v: Bits, s: nat, n: nat, i: nat)
    requires |w| == |v| && s + n <= |w| && i < n
    ensures w[s..s + n][i] == w[s + i] && v[..n][i] == v[i] && Shl(v, s)[s + i] == v[i]
  {
    var k := s + i;
    assert Shl(v, s)[k] == (k >= s && v[k - s]);
  }

  lemma {:induction false} FieldOfBitwise(w: Bits, v: Bits, s: nat, n: nat)
    requires |w| == |v| && s + n <= |w|
    ensures Or(w, Shl(v, s))[s..s + n] == Or(w[s..s + n], v[..n])
    ensures Xor(w, Shl(v, s))[s..s + n] == Xor(w[s..s + n], v[..n])
    ensures And(w, Shl(v, s))[s..s + n] == And(w[s..s + n], v[..n])
  {
    forall i | 0 <= i < n
      ensures w[s..s + n][i] == w[s + i] && v[..n][i] == v[i] && Shl(v, s)[s + i] == v[i]
    {
      ShiftedAt(w, v, s, n, i);
    }
  }

  lemma {:induction false} SwapField(r: Request, word: Bits)
    requires RequestOk(r) && IsWord(word) && r.kind.CompareSwap? && !Mismatch(r, word)
    ensures Field(Shl(r.kind.desired, ShiftOf(r.addr)), r) == Update(r, Field(word, r))
  {
    MismatchIs(r, word);
  }

  /** The field gets its new value: carries and high bits of the operand do not get in or out. */
  lemma {:induction false} FieldUpdated(r: Request, word: Bits)
    requires RequestOk(r) && IsWord(word) && !Mismatch(r, word)
    ensures Field(NewWord(r, word), r) == Update(r, Field(word, r))
  {
    var s, n := ShiftOf(r.addr), r.width;
    match r.kind
    case CompareSwap(expected, desired) =>
      SwapField(r, word);
      Merged(r, word, Shl(desired, s));
    case FetchAdd(v) =>
      Merged(r, word, Combine(r, word));
      FieldOfSum(word, v, s, n);
    case _ =>
      Merged(r, word, Combine(r, word));
      FieldOfBitwise(word, r.kind.value, s, n);
  }

  /** All bits outside the field stay. */
  lemma {:induction false} NeighboursKept(r: Request, word: Bits, i: nat)
    requires RequestOk(r) && IsWord(word) && i < 32 && !(ShiftOf(r.addr) <= i < ShiftOf(r.addr) + r.width)
    ensures NewWord(r, word)[i] == word[i]
  {
  }

  lemma {:induction false} FieldOfMasked(w: Bits, m: Bits, s: nat, n: nat)
    requires |w| == |m| && s + n <= |w| && forall k | s <= k < s + n :: m[k]
    ensures And(w, m)[s..s + n] == w[s..s + n]
  {
    var x, y := And(w, m)[s..s + n], w[s..s + n];
    forall i | 0 <= i < n ensures x[i] == y[i] {
      var k := s + i;
      assert m[k] && And(w, m)[k] == (w[k] && m[k]);
    }
  }

  lemma {:induction false} MaskedFields(r: Request, word: Bits, v: Bits, a: Bits, b: Bits)
    requires RequestOk(r) && IsWord(word) && IsWord(v)
    requires a == And(word, MaskOf(r)) && b == And(Shl(v, ShiftOf(r.addr)), MaskOf(r))
    ensures a[ShiftOf(r.addr)..ShiftOf(r.addr) + r.width] == Field(word, r)
    ensures b[ShiftOf(r.addr)..ShiftOf(r.addr) + r.width] == v[..r.width]
  {
    var s, n, m := ShiftOf(r.addr), r.width, MaskOf(r);
    forall k | s <= k < s + n ensures m[k] {
      var i := k - s;
      assert m[k] == (k >= s && Ones(n)[i]);
    }
    FieldOfMasked(word, m, s, n);
    FieldOfMasked(Shl(v, s), m, s, n);
    forall i | 0 <= i < n ensures Shl(v, s)[s..s + n][i] == v[..n][i] {
      ShiftedAt(Shl(v, s), v, s, n, i);
    }
  }

  /** The subtraction is zero, and the branch not taken, exactly when the field holds the expected value. */
  lemma {:induction false} MismatchIs(r: Request, word: Bits)
    requires RequestOk(r) && IsWord(word) && r.kind.CompareSwap?
    ensures Mismatch(r, word) <==> Field(word, r) != r.kind.expected[..r.width]
  {
    var s, n, m := ShiftOf(r.addr), r.width, MaskOf(r);
    var a, b := MaskedWord(r, word), MaskedExpected(r);
    SubIsZero(a, b);
    MaskedFields(r, word, r.kind.expected, a, b);
    if Field(word, r) == r.kind.expected[..n] {
      forall i | 0 <= i < 32 ensures a[i] == b[i] {
        assert a[i] == (word[i] && m[i]) && b[i] == (Shl(r.kind.expected, s)[i] && m[i]);
        assert s <= i < s + n ==> a[s..s + n][i - s] == b[s..s + n][i - s];
      }
    }
  }

  /** The result is the field. */
  lemma {:induction false} ResultIsField(r: Request, word: Bits)
    requires RequestOk(r) && IsWord(word)
    ensures ResultOf(r, word) == Field(word, r)
  {
  }

  /** The word with another field in it. */
  function Put(word: Bits, r: Request, f: Bits): (x: Bits)
    requires RequestOk(r) && IsWord(word) && |f| == r.width
    ensures IsWord(x)
  {
    word[..ShiftOf(r.addr)] + f + word[ShiftOf(r.addr) + r.width..]
  }

  /** A successful sequence writes the word with just its field updated. */
  lemma {:induction false} NewWordIs(r: Request, word: Bits)
    requires RequestOk(r) && IsWord(word) && !Mismatch(r, word)
    ensures NewWord(r, word) == Put(word, r, Update(r, Field(word, r)))
  {
    var x, s, n := NewWord(r, word), ShiftOf(r.addr), r.width;
    var y := Put(word, r, Update(r, Field(word, r)));
    FieldUpdated(r, word);
    forall i | 0 <= i < 32 ensures x[i] == y[i] {
      if s <= i < s + n {
        assert Field(x, r)[i - s] == x[i];
      } else {
        NeighboursKept(r, word, i);
      }
    }
  }

  /** A failed compare leaves the field as it is meant to be. */
  lemma {:induction false} MismatchPutsNothing(r: Request, word: Bits)
    requires RequestOk(r) && IsWord(word) && Mismatch(r, word)
    ensures Put(word, r, Update(r, Field(word, r))) == word
  {
    MismatchIs(r, word);
  }

  /** Updating a field leaves every field that shares no byte with it. */
  lemma {:induction false} OtherFields(r: Request, q: Request, word: Bits, f: Bits)
    requires RequestOk(r) && RequestOk(q) && IsWord(word) && |f| == r.width
    requires ShiftOf(q.addr) + q.width <= ShiftOf(r.addr) || ShiftOf(r.addr) + r.width <= ShiftOf(q.addr)
    ensures Field(Put(word, r, f), q) == Field(word, q)
  {
  }
}
