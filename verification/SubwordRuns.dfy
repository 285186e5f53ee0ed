/** Any number of CPUs running the subword sequences, interleaved step by step: every call takes effect
    at one point in time, as one update of its own field. */
module SubwordRuns {
  import opened Basics
  import opened Subword

  type Memory = map<nat, Bits>

  function Load(m: Memory, a: nat): (word: Bits)
    ensures IsWord(word)
  {
    if a in m && IsWord(m[a]) then m[a] else Ones(0)
  }

  /** A request and the field value it returned. */
  datatype Outcome = Outcome(request: Request, result: Bits)

  datatype Event = Event(cpu: nat, outcome: Outcome)

  /** Where a CPU is in its sequence. */
  datatype Cpu =
    | Idle
    | Called(request: Request)
    | Linked(request: Request, word: Bits)
    | Ready(request: Request, word: Bits, new': Bits)
    | Returning(request: Request, result: Bits)

  /** `log` and `returned` are not in the machine: the effects in order, and what each CPU's calls gave. */
  datatype State = State(memory: Memory, reserved: seq<Option<nat>>, cpus: seq<Cpu>,
                         log: seq<Event>, returned: seq<seq<Outcome>>)

  datatype Step =
    | Call(cpu: nat, request: Request)
    | LoadLinked(cpu: nat)
    | Compute(cpu: nat)
    | StoreConditional(cpu: nat)
    | StoreFails(cpu: nat)
    | Return(cpu: nat)

  function Init(m: Memory, n: nat): State {
    State(m, seq(n, _ => None), seq(n, _ => Idle), [], seq(n, _ => []))
  }

  predicate Enabled(s: State, step: Step) {
    && step.cpu < |s.cpus| == |s.reserved| == |s.returned|
    && match step
       case Call(i, r) => s.cpus[i].Idle? && RequestOk(r)
       case LoadLinked(i) => s.cpus[i].Called? && RequestOk(s.cpus[i].request)
       case Compute(i) => s.cpus[i].Linked? && RequestOk(s.cpus[i].request) && IsWord(s.cpus[i].word)
       case StoreConditional(i) =>
         && s.cpus[i].Ready? && RequestOk(s.cpus[i].request) && IsWord(s.cpus[i].word)
         && s.reserved[i] == Some(WordAddr(s.cpus[i].request.addr))
       case StoreFails(i) => s.cpus[i].Ready?
       case Return(i) => s.cpus[i].Returning?
  }

  /** A store takes away every reservation of its word. */
  function Cleared(reserved: seq<Option<nat>>, a: nat): (r: seq<Option<nat>>)
    ensures |r| == |reserved|
  {
    seq(|reserved|, i requires 0 <= i < |reserved| => if reserved[i] == Some(a) then None else reserved[i])
  }

  function Apply(s: State, step: Step): State
    requires Enabled(s, step)
  {
    var i := step.cpu;
    match step
    case Call(_, r) => s.(cpus := s.cpus[i := Called(r)])
    case LoadLinked(_) =>
      var r := s.cpus[i].request;
      var word := Load(s.memory, WordAddr(r.addr));
      s.(cpus := s.cpus[i := Linked(r, word)], reserved := s.reserved[i := Some(WordAddr(r.addr))],
         log := s.log + if Mismatch(r, word) then [Event(i, Outcome(r, ResultOf(r, word)))] else [])
    case Compute(_) =>
      var r, word := s.cpus[i].request, s.cpus[i].word;
      s.(cpus := s.cpus[i := if Mismatch(r, word) then Returning(r, ResultOf(r, word))
                             else Ready(r, word, NewWord(r, word))])
    case StoreConditional(_) =>
      var r, word := s.cpus[i].request, s.cpus[i].word;
      s.(memory := s.memory[WordAddr(r.addr) := s.cpus[i].new'], reserved := Cleared(s.reserved, WordAddr(r.addr)),
         cpus := s.cpus[i := Returning(r, ResultOf(r, word))],
         log := s.log + [Event(i, Outcome(r, ResultOf(r, word)))])
    case StoreFails(_) =>
      s.(cpus := s.cpus[i := Called(s.cpus[i].request)], reserved := s.reserved[i := None])
    case Return(_) =>
      s.(cpus := s.cpus[i := Idle],
         returned := s.returned[i := s.returned[i] + [Outcome(s.cpus[i].request, s.cpus[i].result)]])
  }

  function Exec(m: Memory, n: nat, steps: seq<Step>): Option<State> {
    if steps == [] then Some(Init(m, n))
    else
      match Exec(m, n, steps[..|steps| - 1])
      case None => None
      case Some(s) => if Enabled(s, steps[|steps| - 1]) then Some(Apply(s, steps[|steps| - 1])) else None
  }

  // ----- one call at a time -----

  /** The memory after one call that runs alone. */
  function Sequential(m: Memory, r: Request): Memory
    requires RequestOk(r)
  {
    var word := Load(m, WordAddr(r.addr));
    m[WordAddr(r.addr) := Put(word, r, Update(r, Field(word, r)))]
  }

  /** The byte at an address: words are at multiples of four, their lowest byte first. */
  function ByteOf(m: Memory, a: nat): (b: Bits)
    ensures |b| == 8
  {
    Load(m, a / 4 * 4)[a % 4 * 8..a % 4 * 8 + 8]
  }

  /** What a request finds at its address: one byte, or two. */
  function Found(m: Memory, r: Request): (f: Bits)
    requires RequestOk(r)
    ensures |f| == r.width
  {
    if r.width == 8 then ByteOf(m, r.addr) else ByteOf(m, r.addr) + ByteOf(m, r.addr + 1)
  }

  lemma {:induction false} FieldIsFound(m: Memory, r: Request)
    requires RequestOk(r)
    ensures Field(Load(m, WordAddr(r.addr)), r) == Found(m, r)
  {
    var word, s, k, next := Load(m, WordAddr(r.addr)), ShiftOf(r.addr), r.addr % 4, r.addr + 1;
    if r.width == 16 {
      NextByte(r.addr, next);
      assert word[s..s + 16] == word[s..s + 8] + word[s + 8..s + 16];
    }
  }

  lemma {:induction false} NextByte(a: nat, next: nat)
    requires a % 2 == 0 && next == a + 1
    ensures next / 4 == a / 4 && next % 4 == a % 4 + 1
  {
  }

  /** A call that runs alone changes exactly the bytes at its address, to the operation's result on them. */
  lemma {:induction false} SequentialBytes(m: Memory, r: Request, a: nat, k: nat)
    requires RequestOk(r)
    ensures !(r.addr <= a < r.addr + r.width / 8) ==> ByteOf(Sequential(m, r), a) == ByteOf(m, a)
    ensures k < r.width / 8 && a == r.addr + k
        ==> ByteOf(Sequential(m, r), a) == Update(r, Found(m, r))[8 * k..8 * k + 8]
  {
    var word, f, at := Load(m, WordAddr(r.addr)), Update(r, Found(m, r)), a % 4 * 8;
    FieldIsFound(m, r);
    var next := Sequential(m, r);
    assert Load(next, WordAddr(r.addr)) == Put(word, r, f);
    if a / 4 == r.addr / 4 {
      SameWord(r, a, k);
      PutBytes(word, r, f, at, k);
    }
  }

  /** Where the byte at `a` is in the word of the request. */
  lemma {:induction false} SameWord(r: Request, a: nat, k: nat)
    requires RequestOk(r) && a / 4 == r.addr / 4
    ensures WordAddr(r.addr) == a / 4 * 4
    ensures !(r.addr <= a < r.addr + r.width / 8) ==>
              a % 4 * 8 + 8 <= ShiftOf(r.addr) || ShiftOf(r.addr) + r.width <= a % 4 * 8
    ensures k < r.width / 8 && a == r.addr + k ==> a % 4 * 8 == ShiftOf(r.addr) + 8 * k
  {
  }

  lemma {:induction false} PutBytes(word: Bits, r: Request, f: Bits, at: nat, k: nat)
    requires RequestOk(r) && IsWord(word) && |f| == r.width && at + 8 <= 32
    ensures at + 8 <= ShiftOf(r.addr) || ShiftOf(r.addr) + r.width <= at
        ==> Put(word, r, f)[at..at + 8] == word[at..at + 8]
    ensures at == ShiftOf(r.addr) + 8 * k && 8 * k + 8 <= r.width
        ==> Put(word, r, f)[at..at + 8] == f[8 * k..8 * k + 8]
  {
    var s, x := ShiftOf(r.addr), Put(word, r, f);
    forall i | at <= i < at + 8 ensures x[i] == if s <= i < s + r.width then f[i - s] else word[i] {
    }
    if at + 8 <= s || s + r.width <= at {
      EightBits(x, at, word, at);
    } else if at == s + 8 * k && 8 * k + 8 <= r.width {
      EightBits(x, at, f, 8 * k);
    }
  }

  lemma {:induction false} EightBits(x: Bits, at: nat, y: Bits, to: nat)
    requires at + 8 <= |x| && to + 8 <= |y|
    requires forall i {:trigger x[i]} | at <= i < at + 8 :: x[i] == y[i - at + to]
    ensures x[at..at + 8] == y[to..to + 8]
  {
    var a, b := x[at..at + 8], y[to..to + 8];
    forall i | 0 <= i < 8 ensures a[i] == b[i] {
      assert x[at + i] == y[at + i - at + to];
    }
  }

  predicate EventOk(e: Event) {
    RequestOk(e.outcome.request)
  }

  /** The memory after the calls of a log, one after another. */
  function Replay(m: Memory, log: seq<Event>): Memory
    requires forall k | 0 <= k < |log| :: EventOk(log[k])
  {
    if log == [] then m
    else
      assert EventOk(log[|log| - 1]);
      Sequential(Replay(m, log[..|log| - 1]), log[|log| - 1].outcome.request)
  }

  /** Every call of the log returned what its field held at its turn. */
  predicate Legal(m: Memory, log: seq<Event>)
    requires forall k | 0 <= k < |log| :: EventOk(log[k])
  {
    log == [] ||
    (var n := |log| - 1;
     assert EventOk(log[n]);
     var r := log[n].outcome.request;
     Legal(m, log[..n]) && log[n].outcome.result == Field(Load(Replay(m, log[..n]), WordAddr(r.addr)), r))
  }

  ghost predicate Agree(m: Memory, m': Memory) {
    forall a: nat {:trigger Load(m', a)} :: Load(m', a) == Load(m, a)
  }

  /** The outcomes of one CPU, in order. */
  function OutcomesOf(log: seq<Event>, cpu: nat): seq<Outcome> {
    if log == [] then []
    else
      OutcomesOf(log[..|log| - 1], cpu) + if log[|log| - 1].cpu == cpu then [log[|log| - 1].outcome] else []
  }

  /** The call a CPU is in has already taken effect. */
  function Pending(c: Cpu): seq<Outcome> {
    match c
    case Linked(r, word) =>
      if RequestOk(r) && IsWord(word) && Mismatch(r, word) then [Outcome(r, ResultOf(r, word))] else []
    case Returning(r, result) => [Outcome(r, result)]
    case _ => []
  }

  // ----- the invariant -----

  predicate CpuOk(s: State, i: nat)
    requires i < |s.cpus| == |s.reserved|
  {
    var c := s.cpus[i];
    && (c.Called? || c.Linked? || c.Ready? ==> RequestOk(c.request))
    && (c.Linked? || c.Ready? ==> IsWord(c.word))
    && (c.Linked? && s.reserved[i] == Some(WordAddr(c.request.addr)) ==>
          Load(s.memory, WordAddr(c.request.addr)) == c.word)
    && (c.Ready? ==> !Mismatch(c.request, c.word) && c.new' == NewWord(c.request, c.word))
    && (c.Ready? && s.reserved[i] == Some(WordAddr(c.request.addr)) ==>
          Load(s.memory, WordAddr(c.request.addr)) == c.word)
  }

  predicate Accounted(s: State, i: nat)
    requires i < |s.cpus| == |s.returned|
  {
    OutcomesOf(s.log, i) == s.returned[i] + Pending(s.cpus[i])
  }

  ghost predicate Inv(m: Memory, s: State) {
    && |s.cpus| == |s.reserved| == |s.returned|
    && (forall i {:trigger CpuOk(s, i)} | 0 <= i < |s.cpus| :: CpuOk(s, i))
    && (forall i {:trigger Accounted(s, i)} | 0 <= i < |s.cpus| :: Accounted(s, i))
    && (forall k {:trigger EventOk(s.log[k])} | 0 <= k < |s.log| :: EventOk(s.log[k]))
    && Agree(Replay(m, s.log), s.memory) && Legal(m, s.log)
  }

  /** One more effect, at the end of the log. */
  lemma {:induction false} Effect(m: Memory, log: seq<Event>, memory: Memory, e: Event)
    requires forall k | 0 <= k < |log| :: EventOk(log[k])
    requires EventOk(e) && Agree(Replay(m, log), memory) && Legal(m, log)
    requires e.outcome.result == Field(Load(memory, WordAddr(e.outcome.request.addr)), e.outcome.request)
    ensures forall k | 0 <= k < |log + [e]| :: EventOk((log + [e])[k])
    ensures Legal(m, log + [e])
    ensures Agree(Replay(m, log + [e]), Sequential(memory, e.outcome.request))
  {
    assert (log + [e])[..|log|] == log;
    var a := WordAddr(e.outcome.request.addr);
    assert Load(memory, a) == Load(Replay(m, log), a);
    forall b: nat ensures Load(Sequential(memory, e.outcome.request), b) == Load(Replay(m, log + [e]), b) {
      assert Load(memory, b) == Load(Replay(m, log), b);
    }
  }

  lemma {:induction false} OutcomesNext(log: seq<Event>, e: Event, cpu: nat)
    ensures OutcomesOf(log + [e], cpu) == OutcomesOf(log, cpu) + if e.cpu == cpu then [e.outcome] else []
  {
    assert (log + [e])[..|log|] == log;
  }

  lemma {:induction false} AgreeTrans(a: Memory, b: Memory, c: Memory)
    requires Agree(a, b) && Agree(b, c)
    ensures Agree(a, c)
  {
    forall x: nat ensures Load(c, x) == Load(a, x) {
      assert Load(b, x) == Load(a, x);
    }
  }

  /** A step that changes neither memory nor the log. */
  predicate Quiet(step: Step) {
    step.Call? || step.Compute? || step.StoreFails? || step.Return?
  }

  lemma {:induction false} QuietCpu(s: State, step: Step, j: nat)
    requires Enabled(s, step) && Quiet(step) && j < |s.cpus| && CpuOk(s, step.cpu) && CpuOk(s, j)
    ensures CpuOk(Apply(s, step), j)
  {
  }

  lemma {:induction false} QuietAccount(s: State, step: Step, j: nat)
    requires Enabled(s, step) && Quiet(step) && j < |s.cpus|
    requires CpuOk(s, step.cpu) && Accounted(s, step.cpu) && Accounted(s, j)
    ensures Accounted(Apply(s, step), j)
  {
  }

  lemma {:induction false} QuietKeepsInv(m: Memory, s: State, step: Step)
    requires Inv(m, s) && Enabled(s, step) && Quiet(step)
    ensures Inv(m, Apply(s, step))
  {
    var s' := Apply(s, step);
    assert CpuOk(s, step.cpu) && Accounted(s, step.cpu);
    forall i | 0 <= i < |s.cpus| ensures CpuOk(s', i) && Accounted(s', i) {
      assert CpuOk(s, i) && Accounted(s, i);
      QuietCpu(s, step, i);
      QuietAccount(s, step, i);
    }
  }

  lemma {:induction false} LoadCpu(s: State, i: nat, j: nat)
    requires Enabled(s, LoadLinked(i)) && j < |s.cpus| && CpuOk(s, i) && CpuOk(s, j)
    ensures CpuOk(Apply(s, LoadLinked(i)), j)
  {
  }

  lemma {:induction false} LoadAccount(s: State, i: nat, j: nat)
    requires Enabled(s, LoadLinked(i)) && j < |s.cpus| && Accounted(s, i) && Accounted(s, j)
    ensures Accounted(Apply(s, LoadLinked(i)), j)
  {
    var r := s.cpus[i].request;
    var word := Load(s.memory, WordAddr(r.addr));
    OutcomesNext(s.log, Event(i, Outcome(r, ResultOf(r, word))), j);
    assert s.log + [] == s.log;
  }

  /** A load is an effect only when the compare fails. */
  lemma {:induction false} LoadKeepsInv(m: Memory, s: State, i: nat)
    requires Inv(m, s) && Enabled(s, LoadLinked(i))
    ensures Inv(m, Apply(s, LoadLinked(i)))
  {
    var s', r := Apply(s, LoadLinked(i)), s.cpus[i].request;
    var word := Load(s.memory, WordAddr(r.addr));
    assert CpuOk(s, i) && Accounted(s, i);
    forall j | 0 <= j < |s.cpus| ensures CpuOk(s', j) && Accounted(s', j) {
      assert CpuOk(s, j) && Accounted(s, j);
      LoadCpu(s, i, j);
      LoadAccount(s, i, j);
    }
    if Mismatch(r, word) {
      FailedCompare(m, s.log, s.memory, i, r, word);
    } else {
      assert s'.log == s.log;
    }
  }

  lemma {:induction false} FailedCompare(m: Memory, log: seq<Event>, memory: Memory, i: nat, r: Request, word: Bits)
    requires forall k | 0 <= k < |log| :: EventOk(log[k])
    requires Agree(Replay(m, log), memory) && Legal(m, log)
    requires RequestOk(r) && word == Load(memory, WordAddr(r.addr)) && Mismatch(r, word)
    ensures var log' := log + [Event(i, Outcome(r, ResultOf(r, word)))];
            && (forall k | 0 <= k < |log'| :: EventOk(log'[k]))
            && Agree(Replay(m, log'), memory) && Legal(m, log')
  {
    var e := Event(i, Outcome(r, ResultOf(r, word)));
    ResultIsField(r, word);
    Effect(m, log, memory, e);
    MismatchPutsNothing(r, word);
    AgreeTrans(Replay(m, log + [e]), Sequential(memory, r), memory);
  }

  lemma {:induction false} StoreCpu(s: State, i: nat, j: nat)
    requires Enabled(s, StoreConditional(i)) && j < |s.cpus| && CpuOk(s, j)
    ensures CpuOk(Apply(s, StoreConditional(i)), j)
  {
  }

  lemma {:induction false} StoreAccount(s: State, i: nat, j: nat)
    requires Enabled(s, StoreConditional(i)) && j < |s.cpus| && Accounted(s, i) && Accounted(s, j)
    ensures Accounted(Apply(s, StoreConditional(i)), j)
  {
    var r, word, s' := s.cpus[i].request, s.cpus[i].word, Apply(s, StoreConditional(i));
    var result := ResultOf(r, word);
    var e := Event(i, Outcome(r, result));
    assert s'.log == s.log + [e] && s'.returned == s.returned;
    OutcomesNext(s.log, e, j);
    AccountNext(OutcomesOf(s.log, j), s.returned[j], e, Pending(s.cpus[j]), Pending(s'.cpus[j]), j);
  }

  lemma {:induction false} AccountNext(outcomes: seq<Outcome>, returned: seq<Outcome>, e: Event, pending: seq<Outcome>,
                                       pending': seq<Outcome>, j: nat)
    requires outcomes == returned + pending
    requires pending' == if e.cpu == j then [e.outcome] else pending
    requires e.cpu == j ==> pending == []
    ensures outcomes + (if e.cpu == j then [e.outcome] else []) == returned + pending'
  {
  }

  /** A successful store is one update of its field: nothing was stored since its load. */
  lemma {:induction false} StoreKeepsInv(m: Memory, s: State, i: nat)
    requires Inv(m, s) && Enabled(s, StoreConditional(i))
    ensures Inv(m, Apply(s, StoreConditional(i)))
  {
    var s', r, word := Apply(s, StoreConditional(i)), s.cpus[i].request, s.cpus[i].word;
    assert CpuOk(s, i) && Accounted(s, i);
    forall j | 0 <= j < |s.cpus| ensures CpuOk(s', j) && Accounted(s', j) {
      assert CpuOk(s, j) && Accounted(s, j);
      StoreCpu(s, i, j);
      StoreAccount(s, i, j);
    }
    ResultIsField(r, word);
    NewWordIs(r, word);
    Effect(m, s.log, s.memory, Event(i, Outcome(r, ResultOf(r, word))));
    assert s'.memory == Sequential(s.memory, r);
  }

  /** In every run the memory and all results are those of some order of calls that run alone, each CPU's
      calls in its own order. */
  lemma {:induction false} Linearizable(m: Memory, n: nat, steps: seq<Step>, s: State)
    requires Exec(m, n, steps) == Some(s)
    ensures Inv(m, s)
    decreases |steps|
  {
    if steps == [] {
      forall i | 0 <= i < n ensures CpuOk(s, i) && Accounted(s, i) {
      }
    } else {
      var k := |steps| - 1;
      var before := Exec(m, n, steps[..k]).value;
      Linearizable(m, n, steps[..k], before);
      match steps[k]
      case LoadLinked(i) => LoadKeepsInv(m, before, i);
      case StoreConditional(i) => StoreKeepsInv(m, before, i);
      case _ => QuietKeepsInv(m, before, steps[k]);
    }
  }

  // ----- real time -----

  lemma {:induction false} ExecNext(m: Memory, n: nat, steps: seq<Step>, l: nat, k: nat)
    requires k == l + 1 && k <= |steps| && Exec(m, n, steps[..k]).Some?
    ensures Exec(m, n, steps[..l]).Some? && Enabled(Exec(m, n, steps[..l]).value, steps[l])
    ensures Exec(m, n, steps[..k]).value == Apply(Exec(m, n, steps[..l]).value, steps[l])
  {
    assert steps[..k][..l] == steps[..l];
  }

  /** Effects are never taken back. */
  lemma {:induction false} LogGrows(m: Memory, n: nat, steps: seq<Step>, j: nat, k: nat)
    requires j <= k <= |steps| && Exec(m, n, steps[..k]).Some?
    ensures Exec(m, n, steps[..j]).Some? && Exec(m, n, steps[..j]).value.log <= Exec(m, n, steps[..k]).value.log
  {
    if j < k {
      var l := k - 1;
      ExecNext(m, n, steps, l, k);
      LogGrows(m, n, steps, j, l);
    }
  }

  /** The call that CPU `i` starts at step `j` has not returned before step `k`. */
  ghost predicate InCall(steps: seq<Step>, i: nat, j: nat, k: nat) {
    && j < k <= |steps| && steps[j].Call? && steps[j].cpu == i
    && forall l | j < l < k && steps[l].cpu == i :: !steps[l].Call? && !steps[l].Return?
  }

  /** Since state `s`, CPU `i` has started to work on a request, and nothing was returned to it. */
  ghost predicate WorksOn(s: State, s': State, i: nat, r: Request) {
    && i < |s.cpus| == |s.returned| && i < |s'.cpus| == |s'.returned| && s.cpus[i].Idle?
    && !s'.cpus[i].Idle? && s'.cpus[i].request == r && s'.returned[i] == s.returned[i]
  }

  lemma {:induction false} AtCall(s: State, step: Step)
    requires Enabled(s, step) && step.Call?
    ensures WorksOn(s, Apply(s, step), step.cpu, step.request)
  {
  }

  lemma {:induction false} DuringStep(s: State, s': State, step: Step, i: nat, r: Request)
    requires WorksOn(s, s', i, r) && Enabled(s', step) && (step.cpu == i ==> !step.Call? && !step.Return?)
    ensures WorksOn(s, Apply(s', step), i, r)
  {
  }

  /** During a call the CPU works on its request, and nothing is returned to it. */
  lemma {:induction false} DuringCall(m: Memory, n: nat, steps: seq<Step>, i: nat, j: nat, k: nat)
    requires InCall(steps, i, j, k) && Exec(m, n, steps[..k]).Some?
    ensures Exec(m, n, steps[..j]).Some?
    ensures WorksOn(Exec(m, n, steps[..j]).value, Exec(m, n, steps[..k]).value, i, steps[j].request)
  {
    var l := k - 1;
    ExecNext(m, n, steps, l, k);
    var before := Exec(m, n, steps[..l]).value;
    if j < l {
      DuringCall(m, n, steps, i, j, l);
      DuringStep(Exec(m, n, steps[..j]).value, before, steps[l], i, steps[j].request);
    } else {
      AtCall(before, steps[j]);
    }
  }

  lemma {:induction false} OutcomesConcat(a: seq<Event>, b: seq<Event>, cpu: nat)
    ensures OutcomesOf(a + b, cpu) == OutcomesOf(a, cpu) + OutcomesOf(b, cpu)
    decreases |b|
  {
    if b == [] {
      assert a + b == a;
    } else {
      var n := |b| - 1;
      OutcomesConcat(a, b[..n], cpu);
      assert a + b == (a + b[..n]) + [b[n]] && b == b[..n] + [b[n]];
      OutcomesNext(a + b[..n], b[n], cpu);
      OutcomesNext(b[..n], b[n], cpu);
    }
  }

  lemma {:induction false} OneOutcome(log: seq<Event>, cpu: nat, o: Outcome) returns (x: nat)
    requires OutcomesOf(log, cpu) == [o]
    ensures x < |log| && log[x] == Event(cpu, o)
    decreases |log|
  {
    var n := |log| - 1;
    var rest := OutcomesOf(log[..n], cpu);
    if log[n].cpu == cpu {
      assert (rest + [log[n].outcome])[|rest|] == log[n].outcome;
      x := n;
    } else {
      x := OneOutcome(log[..n], cpu, o);
    }
  }

  lemma {:induction false} AccountedAt(m: Memory, n: nat, steps: seq<Step>, s: State, i: nat)
    requires Exec(m, n, steps) == Some(s) && i < |s.cpus|
    ensures |s.cpus| == |s.returned| && Accounted(s, i)
  {
    Linearizable(m, n, steps, s);
  }

  lemma {:induction false} EffectBetween(s: State, s': State, i: nat) returns (o: Outcome)
    requires i < |s.cpus| == |s.returned| && i < |s'.cpus| == |s'.returned|
    requires Accounted(s, i) && Accounted(s', i) && s.log <= s'.log && s'.returned[i] == s.returned[i]
    requires s.cpus[i].Idle? && s'.cpus[i].Returning?
    ensures o == Outcome(s'.cpus[i].request, s'.cpus[i].result) && OutcomesOf(s'.log[|s.log|..], i) == [o]
  {
    var rest := s'.log[|s.log|..];
    o := Outcome(s'.cpus[i].request, s'.cpus[i].result);
    assert s'.log == s.log + rest;
    OutcomesConcat(s.log, rest, i);
    SameEnd(s.returned[i], OutcomesOf(rest, i), [o]);
  }

  lemma {:induction false} SameEnd(a: seq<Outcome>, b: seq<Outcome>, c: seq<Outcome>)
    requires a + b == a + c
    ensures b == c
  {
    assert b == (a + b)[|a|..] && c == (a + c)[|a|..];
  }

  /** Between its start and its return a call takes effect exactly once, and that effect is what it returns. */
  lemma {:induction false} EffectWithin(m: Memory, n: nat, steps: seq<Step>, i: nat, j: nat, k: nat, next: nat) returns (o: Outcome)
    requires InCall(steps, i, j, k) && k < |steps| && steps[k] == Return(i) && next == k + 1
    requires Exec(m, n, steps[..next]).Some?
    ensures Exec(m, n, steps[..j]).Some? && Exec(m, n, steps[..k]).Some? && Exec(m, n, steps[..next]).Some?
    ensures o.request == steps[j].request
    ensures var s, s', s'' := Exec(m, n, steps[..j]).value, Exec(m, n, steps[..k]).value, Exec(m, n, steps[..next]).value;
            && s.log <= s'.log && OutcomesOf(s'.log[|s.log|..], i) == [o]
            && i < |s'.returned| == |s''.returned| && s''.returned[i] == s'.returned[i] + [o]
  {
    ExecNext(m, n, steps, k, next);
    DuringCall(m, n, steps, i, j, k);
    LogGrows(m, n, steps, j, k);
    var s, s' := Exec(m, n, steps[..j]).value, Exec(m, n, steps[..k]).value;
    AccountedAt(m, n, steps[..j], s, i);
    AccountedAt(m, n, steps[..k], s', i);
    o := EffectBetween(s, s', i);
  }

  /** The position in the order of all calls at which a call takes effect. */
  lemma {:induction false} EffectPlace(m: Memory, n: nat, steps: seq<Step>, s: State, i: nat, j: nat, k: nat)
    returns (x: nat, o: Outcome)
    requires Exec(m, n, steps) == Some(s) && InCall(steps, i, j, k) && k < |steps| && steps[k] == Return(i)
    ensures o.request == steps[j].request && x < |s.log| && s.log[x] == Event(i, o)
    ensures Exec(m, n, steps[..j]).Some? && Exec(m, n, steps[..k]).Some?
    ensures |Exec(m, n, steps[..j]).value.log| <= x < |Exec(m, n, steps[..k]).value.log|
  {
    assert steps[..|steps|] == steps;
    var next := k + 1;
    LogGrows(m, n, steps, next, |steps|);
    LogGrows(m, n, steps, k, |steps|);
    o := EffectWithin(m, n, steps, i, j, k, next);
    var before, log := Exec(m, n, steps[..j]).value.log, Exec(m, n, steps[..k]).value.log;
    var y := OneOutcome(log[|before|..], i, o);
    x := |before| + y;
    assert log[x] == log[|before|..][y];
  }

  /** The order respects real time: a call that returned before another one started comes before it. */
  lemma {:induction false} RealTime(m: Memory, n: nat, steps: seq<Step>, s: State,
                                    i: nat, j: nat, k: nat, i': nat, j': nat, k': nat)
    returns (x: nat, o: Outcome, x': nat, o': Outcome)
    requires Exec(m, n, steps) == Some(s)
    requires InCall(steps, i, j, k) && k < |steps| && steps[k] == Return(i)
    requires InCall(steps, i', j', k') && k' < |steps| && steps[k'] == Return(i') && k < j'
    ensures x < x' < |s.log| && s.log[x] == Event(i, o) && s.log[x'] == Event(i', o')
    ensures o.request == steps[j].request && o'.request == steps[j'].request
  {
    x, o := EffectPlace(m, n, steps, s, i, j, k);
    x', o' := EffectPlace(m, n, steps, s, i', j', k');
    LogGrows(m, n, steps, k, j');
  }
}
