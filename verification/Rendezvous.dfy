/** BxRunOnOtherCpus of bootloader/a4x/a4x.c: the boot CPU kicks the others and waits on a counter that
    they increment with LL/SC loops, under every interleaving of single steps.

    The record with the function, its argument and the counter is on the boot CPU's stack: it is gone
    once the boot CPU leaves. Memory is sequentially consistent here. */
module Rendezvous {
  import opened Basics

  /** The processors of the device database, the boot CPU, and BxNumCpus. */
  datatype Config = Config(present: seq<bool>, self: nat, numCpus: nat, func: nat, ctx: nat)

  /** Where a kicked CPU is in BxKickProcessorHandler, with its copies and its scratch register. */
  datatype Cpu =
    | Idle
    | Kicked
    | HasFunc(func: nat)
    | HasBoth(func: nat, ctx: nat)
    | Linked(func: nat, ctx: nat, scratch: nat)
    | Added(func: nat, ctx: nat, scratch: nat)
    | Finished(func: nat, ctx: nat)

  datatype Boot = Start | Kicking(i: nat) | Spinning | Left

  /** The record, the reservations of LL, and where everybody is. */
  datatype State = State(func: nat, ctx: nat, numFinished: nat, reserved: seq<bool>, cpus: seq<Cpu>, boot: Boot)

  datatype Step =
    | Begin
    | KickNext
    | Poll
    | ReadFunc(cpu: nat)
    | ReadCtx(cpu: nat)
    | LoadLinked(cpu: nat)
    | Increment(cpu: nat)
    | StoreConditional(cpu: nat)
    | StoreFails(cpu: nat)

  predicate ConfigOk(c: Config) {
    c.self < |c.present| < WORD32 && c.present[c.self] && c.numCpus < WORD32
  }

  /** A CPU that will be kicked. */
  predicate Target(c: Config, i: nat) {
    i < |c.present| && c.present[i] && i != c.self
  }

  /** The number of targets below `k`. */
  function Targets(c: Config, k: nat): (n: nat)
    ensures n <= k
  {
    if k == 0 then 0 else Targets(c, k - 1) + if Target(c, k - 1) then 1 else 0
  }

  /** The number of processors present. */
  function CountPresent(present: seq<bool>): (n: nat)
    ensures n <= |present|
  {
    if present == [] then 0
    else CountPresent(present[..|present| - 1]) + if present[|present| - 1] then 1 else 0
  }

  /** `BxNumCpus - 1` in 32 bits. */
  function RespondCount(c: Config): nat {
    if c.numCpus == 0 then WORD32 - 1 else c.numCpus - 1
  }

  function Init(c: Config): State {
    State(0, 0, 0, seq(|c.present|, _ => false), seq(|c.present|, _ => Idle), Start)
  }

  function ClearAll(n: nat): (r: seq<bool>)
    ensures |r| == n && forall i | 0 <= i < n :: !r[i]
  {
    seq(n, _ => false)
  }

  predicate Enabled(c: Config, s: State, step: Step) {
    |s.cpus| == |s.reserved| == |c.present| &&
    match step
    case Begin => s.boot == Start
    case KickNext => s.boot.Kicking?
    case Poll => s.boot == Spinning
    case ReadFunc(i) => i < |s.cpus| && s.cpus[i].Kicked?
    case ReadCtx(i) => i < |s.cpus| && s.cpus[i].HasFunc?
    case LoadLinked(i) => i < |s.cpus| && s.cpus[i].HasBoth?
    case Increment(i) => i < |s.cpus| && s.cpus[i].Linked?
    case StoreConditional(i) => i < |s.cpus| && s.cpus[i].Added? && s.reserved[i]
    case StoreFails(i) => i < |s.cpus| && s.cpus[i].Added?
  }

  function Apply(c: Config, s: State, step: Step): State
    requires Enabled(c, s, step)
  {
    match step
    case Begin =>
      if RespondCount(c) == 0 then s.(boot := Left)
      else s.(func := c.func, ctx := c.ctx, numFinished := 0, boot := Kicking(0))
    case KickNext =>
      var i := s.boot.i;
      if i >= |c.present| then s.(boot := Spinning)
      else if Target(c, i) then s.(cpus := s.cpus[i := Kicked], boot := Kicking(i + 1))
      else s.(boot := Kicking(i + 1))
    case Poll => if s.numFinished < RespondCount(c) then s else s.(boot := Left)
    case ReadFunc(i) => s.(cpus := s.cpus[i := HasFunc(s.func)])
    case ReadCtx(i) => s.(cpus := s.cpus[i := HasBoth(s.cpus[i].func, s.ctx)])
    case LoadLinked(i) =>
      s.(cpus := s.cpus[i := Linked(s.cpus[i].func, s.cpus[i].ctx, s.numFinished)], reserved := s.reserved[i := true])
    case Increment(i) =>
      s.(cpus := s.cpus[i := Added(s.cpus[i].func, s.cpus[i].ctx, (s.cpus[i].scratch + 1) % 0x1_0000_0000)])
    case StoreConditional(i) =>
      s.(numFinished := s.cpus[i].scratch, reserved := ClearAll(|s.reserved|),
         cpus := s.cpus[i := Finished(s.cpus[i].func, s.cpus[i].ctx)])
    case StoreFails(i) =>
      s.(cpus := s.cpus[i := HasBoth(s.cpus[i].func, s.cpus[i].ctx)], reserved := s.reserved[i := false])
  }

  /** The step reads or writes the record on the boot CPU's stack. */
  predicate TouchesRecord(step: Step) {
    step.ReadFunc? || step.ReadCtx? || step.LoadLinked? || step.StoreConditional? || step.StoreFails?
  }

  /** The state after a run of steps, if all of them were possible. */
  function Exec(c: Config, steps: seq<Step>): Option<State> {
    if steps == [] then Some(Init(c))
    else
      match Exec(c, steps[..|steps| - 1])
      case None => None
      case Some(s) =>
        if Enabled(c, s, steps[|steps| - 1]) then Some(Apply(c, s, steps[|steps| - 1])) else None
  }

  ghost predicate Reachable(c: Config, s: State) {
    exists steps :: Exec(c, steps) == Some(s)
  }

  // ----- the invariant -----

  /** How many of the CPUs below `k` are past their successful store. */
  function Done(cpus: seq<Cpu>, k: nat): (n: nat)
    requires k <= |cpus|
    ensures n <= k
  {
    if k == 0 then 0 else Done(cpus, k - 1) + if cpus[k - 1].Finished? then 1 else 0
  }

  /** A CPU that was kicked is a target, and its copies are those of the record. */
  predicate CpuOk(c: Config, s: State, i: nat)
    requires i < |s.cpus| == |s.reserved|
  {
    && (s.cpus[i] != Idle ==> Target(c, i) && s.func == c.func && s.ctx == c.ctx)
    && (!s.cpus[i].Idle? && !s.cpus[i].Kicked? ==> s.cpus[i].func == c.func)
    && (s.cpus[i].HasBoth? || s.cpus[i].Linked? || s.cpus[i].Added? || s.cpus[i].Finished? ==> s.cpus[i].ctx == c.ctx)
    && (s.reserved[i] && s.cpus[i].Linked? ==> s.cpus[i].scratch == s.numFinished)
    && (s.reserved[i] && s.cpus[i].Added? ==> s.cpus[i].scratch == s.numFinished + 1)
  }

  /** The targets below `k` were kicked. */
  ghost predicate KickedBelow(c: Config, s: State, k: nat)
    requires |s.cpus| == |c.present|
  {
    forall i | 0 <= i < k && Target(c, i) :: s.cpus[i] != Idle
  }

  ghost predicate BootOk(c: Config, s: State)
    requires |s.cpus| == |c.present|
  {
    match s.boot
    case Start => forall i | 0 <= i < |s.cpus| :: s.cpus[i] == Idle
    case Kicking(k) =>
      && RespondCount(c) != 0 && k <= |c.present| && s.func == c.func && s.ctx == c.ctx && KickedBelow(c, s, k)
      && forall i | k <= i < |s.cpus| :: s.cpus[i] == Idle
    case Spinning => RespondCount(c) != 0 && s.func == c.func && s.ctx == c.ctx && KickedBelow(c, s, |c.present|)
    case Left =>
      || (RespondCount(c) == 0 && forall i | 0 <= i < |s.cpus| :: s.cpus[i] == Idle)
      || (RespondCount(c) != 0 && KickedBelow(c, s, |c.present|) && s.numFinished >= RespondCount(c))
  }

  ghost predicate Inv(c: Config, s: State) {
    && |s.cpus| == |s.reserved| == |c.present|
    && (forall i {:trigger CpuOk(c, s, i)} | 0 <= i < |s.cpus| :: CpuOk(c, s, i))
    && s.numFinished == Done(s.cpus, |s.cpus|)
    && BootOk(c, s)
  }

  lemma {:induction false} DoneSame(cpus: seq<Cpu>, cpus': seq<Cpu>, i: nat, k: nat)
    requires k <= |cpus| == |cpus'| && i < |cpus|
    requires cpus' == cpus[i := cpus'[i]] && cpus[i].Finished? == cpus'[i].Finished?
    ensures Done(cpus', k) == Done(cpus, k)
  {
    if k > 0 {
      DoneSame(cpus, cpus', i, k - 1);
    }
  }

  lemma {:induction false} DoneMore(cpus: seq<Cpu>, i: nat, cpu: Cpu, k: nat)
    requires k <= |cpus| && i < |cpus| && !cpus[i].Finished? && cpu.Finished?
    ensures Done(cpus[i := cpu], k) == Done(cpus, k) + if i < k then 1 else 0
  {
    if k > 0 {
      DoneMore(cpus, i, cpu, k - 1);
    }
  }

  lemma {:induction false} NoneDone(cpus: seq<Cpu>, k: nat)
    requires k <= |cpus| && forall i | 0 <= i < |cpus| :: cpus[i] == Idle
    ensures Done(cpus, k) == 0
  {
    if k > 0 {
      NoneDone(cpus, k - 1);
    }
  }

  lemma {:induction false} DoneBelowAll(cpus: seq<Cpu>, i: nat, k: nat)
    requires i < k <= |cpus| && !cpus[i].Finished?
    ensures Done(cpus, k) < k
  {
    if i < k - 1 {
      DoneBelowAll(cpus, i, k - 1);
    }
  }

  lemma {:induction false} StepKeepsInv(c: Config, s: State, step: Step)
    requires ConfigOk(c) && Inv(c, s) && Enabled(c, s, step)
    ensures Inv(c, Apply(c, s, step))
  {
    var s' := Apply(c, s, step);
    match step
    case Begin =>
      forall i | 0 <= i < |s.cpus| ensures CpuOk(c, s', i) {
      }
      NoneDone(s.cpus, |s.cpus|);
    case KickNext => KickKeepsInv(c, s);
    case Poll =>
      forall i | 0 <= i < |s.cpus| ensures CpuOk(c, s', i) {
        assert CpuOk(c, s, i);
      }
    case StoreConditional(i) => StoreKeepsInv(c, s, i);
    case _ => LocalKeepsInv(c, s, step);
  }

  lemma {:induction false} KickKeepsInv(c: Config, s: State)
    requires ConfigOk(c) && Inv(c, s) && Enabled(c, s, KickNext)
    ensures Inv(c, Apply(c, s, KickNext))
  {
    var s', k := Apply(c, s, KickNext), s.boot.i;
    forall i | 0 <= i < |s.cpus| ensures CpuOk(c, s', i) {
      assert CpuOk(c, s, i);
    }
    if k < |c.present| && Target(c, k) {
      DoneSame(s.cpus, s'.cpus, k, |s.cpus|);
    }
  }

  lemma {:induction false} LocalKeepsInv(c: Config, s: State, step: Step)
    requires ConfigOk(c) && Inv(c, s) && Enabled(c, s, step)
    requires step.ReadFunc? || step.ReadCtx? || step.LoadLinked? || step.Increment? || step.StoreFails?
    ensures Inv(c, Apply(c, s, step))
  {
    var s' := Apply(c, s, step);
    assert CpuOk(c, s, step.cpu);
    DoneSame(s.cpus, s'.cpus, step.cpu, |s.cpus|);
    DoneBelowAll(s.cpus, step.cpu, |s.cpus|);
    forall i | 0 <= i < |s.cpus| ensures CpuOk(c, s', i) {
      assert CpuOk(c, s, i);
    }
  }

  /** A successful store counts its own CPU once: no other store came between it and its load. */
  lemma {:induction false} StoreKeepsInv(c: Config, s: State, i: nat)
    requires ConfigOk(c) && Inv(c, s) && Enabled(c, s, StoreConditional(i))
    ensures Inv(c, Apply(c, s, StoreConditional(i)))
  {
    var s' := Apply(c, s, StoreConditional(i));
    assert CpuOk(c, s, i);
    DoneMore(s.cpus, i, s'.cpus[i], |s.cpus|);
    forall j | 0 <= j < |s.cpus| ensures CpuOk(c, s', j) {
      assert CpuOk(c, s, j);
    }
  }

  lemma {:induction false} InitInv(c: Config)
    requires ConfigOk(c)
    ensures Inv(c, Init(c))
  {
    NoneDone(Init(c).cpus, |c.present|);
    forall i | 0 <= i < |c.present| ensures CpuOk(c, Init(c), i) {
    }
  }

  /** Every reachable state meets the invariant: the counter is the number of CPUs past their store. */
  lemma {:induction false} ReachableInv(c: Config, steps: seq<Step>, s: State)
    requires ConfigOk(c) && Exec(c, steps) == Some(s)
    ensures Inv(c, s)
    decreases |steps|
  {
    if steps == [] {
      InitInv(c);
    } else {
      var n := |steps| - 1;
      var before := Exec(c, steps[..n]).value;
      ReachableInv(c, steps[..n], before);
      StepKeepsInv(c, before, steps[n]);
    }
  }

  // ----- leaving -----

  /** Every CPU that was kicked has its copies and is past its store. */
  ghost predicate AllDone(c: Config, s: State) {
    forall i | 0 <= i < |s.cpus| && s.cpus[i] != Idle :: s.cpus[i] == Finished(c.func, c.ctx)
  }

  lemma {:induction false} DoneAreTargets(c: Config, s: State, k: nat)
    requires Inv(c, s) && k <= |s.cpus|
    ensures Done(s.cpus, k) <= Targets(c, k)
    ensures Done(s.cpus, k) == Targets(c, k) ==> forall i | 0 <= i < k && Target(c, i) :: s.cpus[i].Finished?
  {
    if k > 0 {
      DoneAreTargets(c, s, k - 1);
      assert CpuOk(c, s, k - 1);
    }
  }

  /** With at least as many responses awaited as CPUs are kicked, the boot CPU leaves only when all of
      them are done with the record. */
  lemma {:induction false} LeavesSafely(c: Config, steps: seq<Step>, s: State)
    requires ConfigOk(c) && Exec(c, steps) == Some(s) && s.boot == Left
    requires RespondCount(c) == 0 || RespondCount(c) >= Targets(c, |c.present|)
    ensures AllDone(c, s)
    ensures forall step | TouchesRecord(step) :: !Enabled(c, s, step)
  {
    ReachableInv(c, steps, s);
    DoneAreTargets(c, s, |s.cpus|);
    forall i | 0 <= i < |s.cpus| && s.cpus[i] != Idle ensures s.cpus[i] == Finished(c.func, c.ctx) {
      assert CpuOk(c, s, i);
    }
  }

  lemma {:induction false} TargetsAre(c: Config, k: nat)
    requires c.self < |c.present| && c.present[c.self] && k <= |c.present|
    ensures Targets(c, k) + (if c.self < k then 1 else 0) == CountPresent(c.present[..k])
  {
    if k > 0 {
      assert c.present[..k][..k - 1] == c.present[..k - 1];
      TargetsAre(c, k - 1);
    }
  }

  /** BxNumCpus as the device tree code counts it is the right count. */
  lemma {:induction false} CountedCpus(c: Config)
    requires ConfigOk(c) && c.numCpus == CountPresent(c.present)
    ensures RespondCount(c) == Targets(c, |c.present|)
  {
    assert c.present[..|c.present|] == c.present;
    TargetsAre(c, |c.present|);
  }

  // ----- what goes wrong with any smaller count -----

  lemma {:induction false} OneMore(c: Config, steps: seq<Step>, s: State, step: Step)
    requires Exec(c, steps) == Some(s) && Enabled(c, s, step)
    ensures Exec(c, steps + [step]) == Some(Apply(c, s, step))
  {
    assert (steps + [step])[..|steps|] == steps;
  }

  /** The CPUs while the boot CPU kicks and some targets are finished. */
  ghost predicate Staged(c: Config, s: State, finished: nat, kicked: nat) {
    && |s.cpus| == |s.reserved| == |c.present|
    && forall i | 0 <= i < |s.cpus| ::
         if !Target(c, i) || i >= kicked then s.cpus[i] == Idle
         else if i < finished then s.cpus[i].Finished?
         else s.cpus[i] == Kicked
  }

  lemma {:induction false} KickAll(c: Config, k: nat) returns (steps: seq<Step>, s: State)
    requires ConfigOk(c) && RespondCount(c) != 0 && k <= |c.present|
    ensures Exec(c, steps) == Some(s) && s.boot == Kicking(k) && Staged(c, s, 0, k)
  {
    if k == 0 {
      steps := [Begin];
      assert Exec(c, []) == Some(Init(c)) && steps[..0] == [];
      s := Apply(c, Init(c), Begin);
    } else {
      steps, s := KickAll(c, k - 1);
      OneMore(c, steps, s, KickNext);
      steps, s := steps + [KickNext], Apply(c, s, KickNext);
    }
  }

  /** One kicked CPU runs its handler to the end of its store, undisturbed. */
  lemma {:induction false} FinishOne(c: Config, before: seq<Step>, start: State, i: nat)
    returns (steps: seq<Step>, s: State)
    requires Exec(c, before) == Some(start) && |start.cpus| == |start.reserved| == |c.present|
    requires i < |start.cpus| && start.cpus[i] == Kicked
    ensures Exec(c, steps) == Some(s) && s.boot == start.boot && |s.cpus| == |s.reserved| == |c.present|
    ensures s.cpus[i].Finished? && s.cpus == start.cpus[i := s.cpus[i]]
  {
    steps, s := before, start;
    OneMore(c, steps, s, ReadFunc(i));
    steps, s := steps + [ReadFunc(i)], Apply(c, s, ReadFunc(i));
    OneMore(c, steps, s, ReadCtx(i));
    steps, s := steps + [ReadCtx(i)], Apply(c, s, ReadCtx(i));
    OneMore(c, steps, s, LoadLinked(i));
    steps, s := steps + [LoadLinked(i)], Apply(c, s, LoadLinked(i));
    OneMore(c, steps, s, Increment(i));
    steps, s := steps + [Increment(i)], Apply(c, s, Increment(i));
    OneMore(c, steps, s, StoreConditional(i));
    steps, s := steps + [StoreConditional(i)], Apply(c, s, StoreConditional(i));
  }

  lemma {:induction false} FinishBelow(c: Config, m: nat) returns (steps: seq<Step>, s: State)
    requires ConfigOk(c) && RespondCount(c) != 0 && m <= |c.present|
    ensures Exec(c, steps) == Some(s) && s.boot == Spinning && Staged(c, s, m, |c.present|)
  {
    if m == 0 {
      steps, s := KickAll(c, |c.present|);
      OneMore(c, steps, s, KickNext);
      steps, s := steps + [KickNext], Apply(c, s, KickNext);
    } else {
      steps, s := FinishBelow(c, m - 1);
      if Target(c, m - 1) {
        steps, s := FinishOne(c, steps, s, m - 1);
      }
    }
  }

  lemma {:induction false} StagedCount(c: Config, s: State, m: nat, k: nat)
    requires Staged(c, s, m, |c.present|) && m <= |c.present| && k <= |c.present|
    ensures Done(s.cpus, k) == Targets(c, if k < m then k else m)
  {
    if k > 0 {
      StagedCount(c, s, m, k - 1);
    }
  }

  /** Some prefix of the processors holds exactly `n` targets, and a target comes right behind it. */
  lemma {:induction false} PrefixWith(c: Config, n: nat, k: nat) returns (m: nat)
    requires n < Targets(c, k)
    ensures m < k && Targets(c, m) == n && Target(c, m)
  {
    if Target(c, k - 1) && Targets(c, k - 1) == n {
      m := k - 1;
    } else {
      m := PrefixWith(c, n, k - 1);
    }
  }

  /** The boot CPU leaves only when every kicked CPU is done, in all runs, exactly when it kicks nobody or
      waits for at least as many responses as it kicks CPUs. */
  lemma {:induction false} SafeExactly(c: Config)
    requires ConfigOk(c)
    ensures (forall steps: seq<Step> | Exec(c, steps).Some? && Exec(c, steps).value.boot == Left ::
               AllDone(c, Exec(c, steps).value))
            <==> RespondCount(c) == 0 || RespondCount(c) >= Targets(c, |c.present|)
  {
    if RespondCount(c) == 0 || RespondCount(c) >= Targets(c, |c.present|) {
      forall steps: seq<Step> | Exec(c, steps).Some? && Exec(c, steps).value.boot == Left
        ensures AllDone(c, Exec(c, steps).value)
      {
        LeavesSafely(c, steps, Exec(c, steps).value);
      }
    } else {
      var steps, s := LeavesEarly(c);
    }
  }

  /** Waiting for fewer responses than CPUs were kicked: a run in which the record dies too soon. */
  lemma {:induction false} LeavesEarly(c: Config) returns (steps: seq<Step>, s: State)
    requires ConfigOk(c) && 0 < RespondCount(c) < Targets(c, |c.present|)
    ensures Exec(c, steps) == Some(s) && s.boot == Left && !AllDone(c, s)
  {
    var m := PrefixWith(c, RespondCount(c), |c.present|);
    steps, s := FinishBelow(c, m);
    ReachableInv(c, steps, s);
    StagedCount(c, s, m, |c.present|);
    OneMore(c, steps, s, Poll);
    steps, s := steps + [Poll], Apply(c, s, Poll);
    assert s.cpus[m] == Kicked;
  }
}
