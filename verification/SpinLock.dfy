/**
 The interrupt-masking spin lock as a protocol: CPUs take interleaved steps on shared lock flags, and
 each CPU has a DAIF mask and a stack of frames, because interrupts nest. One step is one access to a
 lock flag or to DAIF.
 */
module SpinLock {
  import opened Wrappers

  /** The interrupt mask bits; true means masked. */
  datatype Daif = Daif(debug: bool, serror: bool, irq: bool, fiq: bool)

  function DisableIrqFiq(d: Daif): Daif {
    d.(irq := true, fiq := true)
  }

  predicate Disabled(d: Daif) {
    d.irq && d.fiq
  }

  /** A guard remembers the DAIF value from before its lock was taken. */
  datatype Guard = Guard(lock: nat, daif: Daif)

  /** Where a frame is inside `lock` or `drop`. */
  datatype Pc =
    | Running                            // in neither
    | Spinning(lock: nat)                // about to load the flag
    | Reading(lock: nat)                 // saw the flag clear, about to read DAIF
    | Writing(lock: nat, daif: Daif)     // has read DAIF, about to mask IRQ and FIQ
    | Exchanging(lock: nat, daif: Daif)  // about to compare and exchange
    | Restoring(lock: nat, daif: Daif)   // lost the exchange, about to write DAIF back
    | Dropping(daif: Daif)               // has cleared the flag, about to write DAIF back

  /** The guards of a frame in the order they were taken, and the DAIF value of what it interrupted. */
  datatype Frame = Frame(pc: Pc, guards: seq<Guard>, spsr: Daif)

  datatype Cpu = Cpu(daif: Daif, frames: seq<Frame>)

  datatype System = System(cpus: seq<Cpu>, locked: set<nat>)

  datatype Event =
    | Lock(lock: nat)      // the running code calls lock
    | Drop                 // the running code drops its newest guard
    | Advance              // the next access of a lock or drop under way
    | SetMask(daif: Daif)  // the running code writes DAIF while it holds nothing
    | Irq
    | Fiq
    | Eret                 // the handler returns

  function Top(cpu: Cpu): Frame
    requires cpu.frames != []
  {
    cpu.frames[|cpu.frames| - 1]
  }

  function WithTop(cpu: Cpu, f: Frame, daif: Daif): Cpu
    requires cpu.frames != []
  {
    Cpu(daif, cpu.frames[|cpu.frames| - 1 := f])
  }

  /** The next access of a frame that is inside `lock` or `drop`: its new program counter, the guard it gains,
      the DAIF value it leaves and whether it sets its lock's flag. */
  function Access(pc: Pc, daif: Daif, locked: set<nat>): (Pc, seq<Guard>, Daif, set<nat>) {
    match pc
    case Running => (Running, [], daif, locked)
    case Spinning(l) => (if l in locked then Spinning(l) else Reading(l), [], daif, locked)
    case Reading(l) => (Writing(l, daif), [], daif, locked)
    case Writing(l, saved) => (Exchanging(l, saved), [], DisableIrqFiq(saved), locked)
    case Exchanging(l, saved) =>
      if l in locked then (Restoring(l, saved), [], daif, locked)
      else (Running, [Guard(l, saved)], daif, locked + {l})
    case Restoring(l, saved) => (Spinning(l), [], saved, locked)
    case Dropping(saved) => (Running, [], saved, locked)
  }

  /** One step of a CPU; None when the event cannot happen there. */
  function CpuStep(cpu: Cpu, locked: set<nat>, e: Event): Option<(Cpu, set<nat>)>
    requires cpu.frames != []
  {
    var f := Top(cpu);
    var n := |f.guards|;
    match e
    case Lock(l) =>
      if f.pc.Running? then Some((WithTop(cpu, f.(pc := Spinning(l)), cpu.daif), locked)) else None
    case Drop =>
      if f.pc.Running? && n > 0 then
        var g := f.guards[n - 1];
        Some((WithTop(cpu, f.(pc := Dropping(g.daif), guards := f.guards[..n - 1]), cpu.daif), locked - {g.lock}))
      else None
    case Advance =>
      if f.pc.Running? then None
      else
        var (pc, gained, daif, locked') := Access(f.pc, cpu.daif, locked);
        Some((WithTop(cpu, f.(pc := pc, guards := f.guards + gained), daif), locked'))
    case SetMask(d) =>
      if f.pc.Running? && n == 0 then Some((cpu.(daif := d), locked)) else None
    case Irq =>
      if cpu.daif.irq then None else Some((Interrupt(cpu), locked))
    case Fiq =>
      if cpu.daif.fiq then None else Some((Interrupt(cpu), locked))
    case Eret =>
      if f.pc.Running? && n == 0 && |cpu.frames| > 1 then
        Some((Cpu(f.spsr, cpu.frames[..|cpu.frames| - 1]), locked))
      else None
  }

  /** Taking an exception masks everything and starts a handler on top of whatever the CPU was doing. */
  function Interrupt(cpu: Cpu): Cpu {
    Cpu(Daif(true, true, true, true), cpu.frames + [Frame(Running, [], cpu.daif)])
  }

  ghost predicate Next(s: System, c: nat, e: Event, s': System) {
    && c < |s.cpus| && s.cpus[c].frames != []
    && var r := CpuStep(s.cpus[c], s.locked, e);
       r.Some? && s' == System(s.cpus[c := r.value.0], r.value.1)
  }

  // ---------------------------------------------------------------- the invariant

  /** Interrupts can only arrive at these points. */
  predicate Interruptible(pc: Pc) {
    pc.Running? || pc.Spinning? || pc.Reading? || pc.Writing?
  }

  /** A frame below the top holds nothing, and resumes with the DAIF value it was interrupted with. */
  ghost predicate InterruptedOk(f: Frame, daif: Daif) {
    f.guards == [] && Interruptible(f.pc) && !Disabled(daif) && (f.pc.Writing? ==> f.pc.daif == daif)
  }

  ghost predicate TopOk(f: Frame, daif: Daif) {
    && (f.guards != [] || !Interruptible(f.pc) ==> Disabled(daif))
    && (f.pc.Writing? ==> f.pc.daif == daif)
    && (forall j :: 1 <= j < |f.guards| ==> Disabled(f.guards[j].daif))
    && (f.guards != [] && (f.pc.Writing? || !Interruptible(f.pc)) ==> Disabled(f.pc.daif))
  }

  ghost predicate CpuOk(cpu: Cpu) {
    && cpu.frames != []
    && TopOk(Top(cpu), cpu.daif)
    && forall k :: 0 <= k < |cpu.frames| - 1 ==> InterruptedOk(cpu.frames[k], cpu.frames[k + 1].spsr)
  }

  /** Guard j of frame k of CPU c holds lock l. */
  ghost predicate Holds(s: System, c: nat, k: nat, j: nat, l: nat) {
    c < |s.cpus| && k < |s.cpus[c].frames| && j < |s.cpus[c].frames[k].guards| && s.cpus[c].frames[k].guards[j].lock == l
  }

  /** A flag is set exactly when some guard holds the lock. */
  ghost predicate FlagsOk(s: System) {
    forall l: nat {:trigger l in s.locked} :: l in s.locked <==> exists c: nat, k: nat, j: nat :: Holds(s, c, k, j, l)
  }

  /** No lock has two guards. */
  ghost predicate Exclusive(s: System) {
    forall l: nat, c: nat, k: nat, j: nat, c': nat, k': nat, j': nat :: Holds(s, c, k, j, l) && Holds(s, c', k', j', l) ==> c == c' && k == k' && j == j'
  }

  ghost predicate Safe(s: System) {
    && (forall c :: 0 <= c < |s.cpus| ==> CpuOk(s.cpus[c]))
    && FlagsOk(s)
    && Exclusive(s)
  }

  /** At the start nothing is locked and every CPU runs its first frame. */
  ghost predicate Initial(s: System) {
    && s.locked == {}
    && forall c :: 0 <= c < |s.cpus| ==> |s.cpus[c].frames| == 1 && Top(s.cpus[c]).pc.Running? && Top(s.cpus[c]).guards == []
  }

  lemma InitialIsSafe(s: System)
    requires Initial(s)
    ensures Safe(s)
  {
  }

  lemma CpuStepKeepsOk(cpu: Cpu, locked: set<nat>, e: Event)
    requires CpuOk(cpu) && CpuStep(cpu, locked, e).Some?
    ensures CpuOk(CpuStep(cpu, locked, e).value.0)
  {
    var cpu' := CpuStep(cpu, locked, e).value.0;
    if e.Eret? {
      assert cpu.frames[|cpu.frames| - 2 + 1] == Top(cpu);
      assert InterruptedOk(cpu.frames[|cpu.frames| - 2], Top(cpu).spsr);
    }
    forall k | 0 <= k < |cpu'.frames| - 1
      ensures InterruptedOk(cpu'.frames[k], cpu'.frames[k + 1].spsr)
    {
      assert k < |cpu.frames| - 1 ==> InterruptedOk(cpu.frames[k], cpu.frames[k + 1].spsr);
    }
  }

  /** How a step changes the guards of its CPU: it may add one for a lock whose flag was clear, or remove the newest. */
  lemma GuardsAfter(cpu: Cpu, locked: set<nat>, e: Event)
    requires CpuOk(cpu) && CpuStep(cpu, locked, e).Some?
    ensures var r := CpuStep(cpu, locked, e).value;
            var n := |cpu.frames| - 1;
            if e.Advance? && Top(cpu).pc.Exchanging? && Top(cpu).pc.lock !in locked then
              && |r.0.frames| == n + 1 && (forall k :: 0 <= k < n ==> r.0.frames[k].guards == cpu.frames[k].guards)
              && r.0.frames[n].guards == cpu.frames[n].guards + [Guard(Top(cpu).pc.lock, Top(cpu).pc.daif)]
              && r.1 == locked + {Top(cpu).pc.lock}
            else if e.Drop? then
              && |r.0.frames| == n + 1 && (forall k :: 0 <= k < n ==> r.0.frames[k].guards == cpu.frames[k].guards)
              && cpu.frames[n].guards == r.0.frames[n].guards + [cpu.frames[n].guards[|cpu.frames[n].guards| - 1]]
              && r.1 == locked - {cpu.frames[n].guards[|cpu.frames[n].guards| - 1].lock}
            else
              && r.1 == locked
              && (forall k :: 0 <= k < |cpu.frames| && k < |r.0.frames| ==> r.0.frames[k].guards == cpu.frames[k].guards)
              && (forall k :: |cpu.frames| <= k < |r.0.frames| ==> r.0.frames[k].guards == [])
              && (forall k :: |r.0.frames| <= k < |cpu.frames| ==> cpu.frames[k].guards == [])
  {
  }

  /** The step is a successful exchange. */
  ghost predicate Gains(s: System, c: nat, e: Event) {
    c < |s.cpus| && s.cpus[c].frames != [] && e.Advance? && Top(s.cpus[c]).pc.Exchanging? && Top(s.cpus[c]).pc.lock !in s.locked
  }

  /** The guards of the whole system after a step. */
  lemma HoldsAfter(s: System, c: nat, e: Event, s': System, c': nat, k: nat, j: nat, l: nat)
    requires Safe(s) && Next(s, c, e, s')
    ensures var n := |s.cpus[c].frames| - 1;
            var m := |s.cpus[c].frames[n].guards|;
            if Gains(s, c, e) then
              Holds(s', c', k, j, l) <==> Holds(s, c', k, j, l) || (c' == c && k == n && j == m && l == Top(s.cpus[c]).pc.lock)
            else if e.Drop? then
              Holds(s', c', k, j, l) <==> Holds(s, c', k, j, l) && !(c' == c && k == n && j == m - 1)
            else
              Holds(s', c', k, j, l) <==> Holds(s, c', k, j, l)
  {
    GuardsAfter(s.cpus[c], s.locked, e);
  }

  /** Every step keeps the invariant. */
  lemma StepKeepsSafe(s: System, c: nat, e: Event, s': System)
    requires Safe(s) && Next(s, c, e, s')
    ensures Safe(s')
  {
    CpuStepKeepsOk(s.cpus[c], s.locked, e);
    GuardsAfter(s.cpus[c], s.locked, e);
    FlagsAfter(s, c, e, s');
    forall l: nat, c1: nat, k1: nat, j1: nat, c2: nat, k2: nat, j2: nat | Holds(s', c1, k1, j1, l) && Holds(s', c2, k2, j2, l)
      ensures c1 == c2 && k1 == k2 && j1 == j2
    {
      HoldsAfter(s, c, e, s', c1, k1, j1, l);
      HoldsAfter(s, c, e, s', c2, k2, j2, l);
    }
  }

  lemma FlagsAfter(s: System, c: nat, e: Event, s': System)
    requires Safe(s) && Next(s, c, e, s')
    ensures FlagsOk(s')
  {
    var n := |s.cpus[c].frames| - 1;
    var m := |s.cpus[c].frames[n].guards|;
    GuardsAfter(s.cpus[c], s.locked, e);
    forall l: nat | l in s'.locked
      ensures exists c': nat, k: nat, j: nat :: Holds(s', c', k, j, l)
    {
      if Gains(s, c, e) && l == Top(s.cpus[c]).pc.lock {
        HoldsAfter(s, c, e, s', c, n, m, l);
      } else {
        var c': nat, k: nat, j: nat :| Holds(s, c', k, j, l);
        HoldsAfter(s, c, e, s', c', k, j, l);
      }
    }
    forall l: nat, c': nat, k: nat, j: nat | Holds(s', c', k, j, l)
      ensures l in s'.locked
    {
      HoldsAfter(s, c, e, s', c', k, j, l);
      if e.Drop? {
        assert Holds(s, c, n, m - 1, s.cpus[c].frames[n].guards[m - 1].lock);
      }
    }
  }

  // ---------------------------------------------------------------- runs

  /** One step of a run: which CPU, and what happens there. */
  datatype Action = Action(cpu: nat, event: Event)

  ghost predicate Run(states: seq<System>, actions: seq<Action>) {
    && |states| == |actions| + 1
    && forall i :: 0 <= i < |actions| ==> Next(states[i], actions[i].cpu, actions[i].event, states[i + 1])
  }

  /** Mutual exclusion in every interleaving. */
  lemma {:induction false} RunIsSafe(states: seq<System>, actions: seq<Action>, n: nat)
    requires Run(states, actions) && Initial(states[0]) && n < |states|
    ensures Safe(states[n])
  {
    if n == 0 {
      InitialIsSafe(states[0]);
    } else {
      RunIsSafe(states, actions, n - 1);
      assert Next(states[n - 1], actions[n - 1].cpu, actions[n - 1].event, states[n - 1 + 1]);
      StepKeepsSafe(states[n - 1], actions[n - 1].cpu, actions[n - 1].event, states[n]);
    }
  }

  /** The same in terms of guards: a lock has at most one, and its flag is set exactly if it has one. */
  lemma MutualExclusion(states: seq<System>, actions: seq<Action>, n: nat, c: nat, k: nat, j: nat, c': nat, k': nat, j': nat)
    requires Run(states, actions) && Initial(states[0]) && n < |states|
    requires c < |states[n].cpus| && k < |states[n].cpus[c].frames| && j < |states[n].cpus[c].frames[k].guards|
    requires c' < |states[n].cpus| && k' < |states[n].cpus[c'].frames| && j' < |states[n].cpus[c'].frames[k'].guards|
    ensures states[n].cpus[c].frames[k].guards[j].lock in states[n].locked
    ensures states[n].cpus[c].frames[k].guards[j].lock == states[n].cpus[c'].frames[k'].guards[j'].lock ==> c == c' && k == k' && j == j'
  {
    RunIsSafe(states, actions, n);
    assert Holds(states[n], c, k, j, states[n].cpus[c].frames[k].guards[j].lock);
    assert Holds(states[n], c', k', j', states[n].cpus[c'].frames[k'].guards[j'].lock);
  }

  /** A frame that holds a lock runs with IRQ and FIQ masked and is the newest frame of its CPU; so no interrupt
      handler can be waiting for a lock that its own CPU holds. */
  lemma HolderIsMasked(s: System, c: nat, k: nat, j: nat, l: nat)
    requires Safe(s) && Holds(s, c, k, j, l)
    ensures k == |s.cpus[c].frames| - 1 && Disabled(s.cpus[c].daif)
    ensures CpuStep(s.cpus[c], s.locked, Irq) == None && CpuStep(s.cpus[c], s.locked, Fiq) == None
  {
    assert CpuOk(s.cpus[c]);
    assert k < |s.cpus[c].frames| - 1 ==> InterruptedOk(s.cpus[c].frames[k], s.cpus[c].frames[k + 1].spsr);
  }

  // ---------------------------------------------------------------- the mask is restored

  /** The DAIF value a frame runs with, or will resume with. */
  function Mask(cpu: Cpu, k: nat): Daif
    requires k < |cpu.frames|
  {
    if k == |cpu.frames| - 1 then cpu.daif else cpu.frames[k + 1].spsr
  }

  /** The DAIF value a frame has when it holds nothing and is inside neither `lock` nor `drop`. */
  function Base(cpu: Cpu, k: nat): Daif
    requires k < |cpu.frames|
  {
    var f := cpu.frames[k];
    if f.guards != [] then f.guards[0].daif
    else if f.pc.Writing? || !Interruptible(f.pc) then f.pc.daif
    else Mask(cpu, k)
  }

  /** Frame k outlives the step and does not itself choose a new mask. */
  ghost predicate Undisturbed(s: System, c: nat, k: nat, a: Action) {
    && c < |s.cpus| && k < |s.cpus[c].frames|
    && (a.cpu == c && k == |s.cpus[c].frames| - 1 ==> !a.event.SetMask? && !a.event.Eret?)
  }

  lemma StepKeepsBase(s: System, c: nat, k: nat, a: Action, s': System)
    requires Safe(s) && Next(s, a.cpu, a.event, s') && Undisturbed(s, c, k, a)
    ensures c < |s'.cpus| && k < |s'.cpus[c].frames| && Base(s'.cpus[c], k) == Base(s.cpus[c], k)
  {
    if a.cpu == c {
      var cpu := s.cpus[c];
      assert CpuOk(cpu);
      if k < |cpu.frames| - 1 {
        assert InterruptedOk(cpu.frames[k], cpu.frames[k + 1].spsr);
      }
    }
  }

  /** Whatever locks a frame takes and drops, and whatever interrupts it: at its next quiet point DAIF is what
      it was at the last one. */
  lemma {:induction false} MaskIsRestored(states: seq<System>, actions: seq<Action>, c: nat, k: nat, i: nat, j: nat)
    requires Run(states, actions) && Initial(states[0]) && i <= j < |states|
    requires forall n :: i <= n < j ==> Undisturbed(states[n], c, k, actions[n])
    requires c < |states[i].cpus| && k < |states[i].cpus[c].frames|
    ensures c < |states[j].cpus| && k < |states[j].cpus[c].frames|
    ensures Base(states[j].cpus[c], k) == Base(states[i].cpus[c], k)
  {
    if i < j {
      MaskIsRestored(states, actions, c, k, i, j - 1);
      RunIsSafe(states, actions, j - 1);
      assert Next(states[j - 1], actions[j - 1].cpu, actions[j - 1].event, states[j - 1 + 1]);
      StepKeepsBase(states[j - 1], c, k, actions[j - 1], states[j]);
    }
  }

  /** In particular, DAIF after the outermost drop is DAIF before the outermost lock. */
  lemma OutermostDropRestores(states: seq<System>, actions: seq<Action>, c: nat, i: nat, j: nat)
    requires Run(states, actions) && Initial(states[0]) && i <= j < |states|
    requires c < |states[i].cpus| && |states[i].cpus[c].frames| > 0
    requires var k: nat := |states[i].cpus[c].frames| - 1; forall n :: i <= n < j ==> Undisturbed(states[n], c, k, actions[n])
    requires Top(states[i].cpus[c]).pc.Running? && Top(states[i].cpus[c]).guards == []
    ensures c < |states[j].cpus| && |states[j].cpus[c].frames| >= |states[i].cpus[c].frames|
    ensures |states[j].cpus[c].frames| == |states[i].cpus[c].frames|
            && Top(states[j].cpus[c]).pc.Running? && Top(states[j].cpus[c]).guards == [] ==>
              states[j].cpus[c].daif == states[i].cpus[c].daif
  {
    MaskIsRestored(states, actions, c, |states[i].cpus[c].frames| - 1, i, j);
  }

  // ---------------------------------------------------------------- lock and drop do what they are for

  /** The state after CPU c has made the step. */
  function After(s: System, c: nat, e: Event): System
    requires c < |s.cpus| && s.cpus[c].frames != [] && CpuStep(s.cpus[c], s.locked, e).Some?
  {
    var r := CpuStep(s.cpus[c], s.locked, e).value;
    System(s.cpus[c := r.0], r.1)
  }

  /** An interrupt runs its handler with everything masked, and a return from it restores what it has interrupted. */
  lemma InterruptReturns(s: System, c: nat, e: Event, s': System) returns (s'': System)
    requires Safe(s) && (e.Irq? || e.Fiq?) && Next(s, c, e, s')
    ensures s'.cpus[c].daif == Daif(true, true, true, true) && Top(s'.cpus[c]).pc.Running? && Top(s'.cpus[c]).guards == []
    ensures Next(s', c, Eret, s'') && s'' == s
  {
    s'' := After(s', c, Eret);
    assert s''.cpus[c].frames == s.cpus[c].frames;
    assert s''.cpus == s.cpus;
  }

  /** A call of `lock` and four accesses, with nothing else going on, take a lock that nobody holds: there is one more
      guard, the flag is set, IRQ and FIQ are masked, and the guard remembers the mask from before. */
  lemma LockIsTaken(s: System, c: nat, l: nat) returns (states: seq<System>)
    requires Safe(s) && c < |s.cpus| && Top(s.cpus[c]).pc.Running? && l !in s.locked
    ensures |states| == 6 && states[0] == s && Next(s, c, Lock(l), states[1])
    ensures forall i :: 1 <= i < 5 ==> Next(states[i], c, Advance, states[i + 1])
    ensures |states[5].cpus| == |s.cpus| && forall h :: 0 <= h < |s.cpus| && h != c ==> states[5].cpus[h] == s.cpus[h]
    ensures var cpu, cpu' := s.cpus[c], states[5].cpus[c];
            && |cpu'.frames| == |cpu.frames| && cpu'.frames[..|cpu.frames| - 1] == cpu.frames[..|cpu.frames| - 1]
            && Top(cpu').pc.Running? && Top(cpu').guards == Top(cpu).guards + [Guard(l, cpu.daif)]
            && cpu'.daif == cpu.daif.(irq := true, fiq := true)
    ensures states[5].locked == s.locked + {l}
  {
    var s1 := After(s, c, Lock(l));
    var s2 := After(s1, c, Advance);
    var s3 := After(s2, c, Advance);
    var s4 := After(s3, c, Advance);
    states := [s, s1, s2, s3, s4, After(s4, c, Advance)];
  }

  /** A drop and one access give the newest lock back, and with it the mask from before. */
  lemma DropReleases(s: System, c: nat) returns (s1: System, s2: System)
    requires Safe(s) && c < |s.cpus| && Top(s.cpus[c]).pc.Running? && Top(s.cpus[c]).guards != []
    ensures Next(s, c, Drop, s1) && Next(s1, c, Advance, s2)
    ensures |s2.cpus| == |s.cpus| && forall h :: 0 <= h < |s.cpus| && h != c ==> s2.cpus[h] == s.cpus[h]
    ensures var cpu, cpu' := s.cpus[c], s2.cpus[c];
            var n := |Top(cpu).guards| - 1;
            && |cpu'.frames| == |cpu.frames| && Top(cpu').pc.Running? && Top(cpu').guards == Top(cpu).guards[..n]
            && cpu'.daif == Top(cpu).guards[n].daif
            && s2.locked == s.locked - {Top(cpu).guards[n].lock}
  {
    s1 := After(s, c, Drop);
    s2 := After(s1, c, Advance);
  }

  /** A frame that has seen the flag of a lock clear does not hold that lock itself. */
  ghost predicate NotItsOwn(f: Frame) {
    f.pc.Reading? || f.pc.Writing? || f.pc.Exchanging? ==> forall j :: 0 <= j < |f.guards| ==> f.guards[j].lock != f.pc.lock
  }

  ghost predicate NoneItsOwn(s: System) {
    forall c, k :: 0 <= c < |s.cpus| && 0 <= k < |s.cpus[c].frames| ==> NotItsOwn(s.cpus[c].frames[k])
  }

  lemma StepKeepsNotOwn(s: System, a: Action, s': System)
    requires Safe(s) && NoneItsOwn(s) && Next(s, a.cpu, a.event, s')
    ensures NoneItsOwn(s')
  {
    var cpu := s.cpus[a.cpu];
    var n: nat := |cpu.frames| - 1;
    assert NotItsOwn(cpu.frames[n]);
    forall j: nat | j < |cpu.frames[n].guards|
      ensures cpu.frames[n].guards[j].lock in s.locked
    {
      assert Holds(s, a.cpu, n, j, cpu.frames[n].guards[j].lock);
    }
  }

  lemma {:induction false} RunNoneItsOwn(states: seq<System>, actions: seq<Action>, n: nat)
    requires Run(states, actions) && Initial(states[0]) && n < |states|
    ensures NoneItsOwn(states[n])
  {
    if n == 0 {
    } else {
      RunNoneItsOwn(states, actions, n - 1);
      RunIsSafe(states, actions, n - 1);
      assert Next(states[n - 1], actions[n - 1].cpu, actions[n - 1].event, states[n - 1 + 1]);
      StepKeepsNotOwn(states[n - 1], actions[n - 1], states[n]);
    }
  }

  /** In every run the exchange succeeds exactly if the lock has no guard; and if it is lost, then to another CPU. */
  lemma ExchangeIsLost(states: seq<System>, actions: seq<Action>, n: nat, c: nat, s': System)
    requires Run(states, actions) && Initial(states[0]) && n < |states|
    requires Next(states[n], c, Advance, s') && Top(states[n].cpus[c]).pc.Exchanging?
    ensures var f, f' := Top(states[n].cpus[c]), Top(s'.cpus[c]);
            if exists h: nat, k: nat, j: nat :: Holds(states[n], h, k, j, f.pc.lock) then
              f'.guards == f.guards && exists h: nat, k: nat, j: nat :: h != c && Holds(states[n], h, k, j, f.pc.lock)
            else
              f'.pc.Running? && f'.guards == f.guards + [Guard(f.pc.lock, f.pc.daif)]
  {
    var s := states[n];
    RunIsSafe(states, actions, n);
    RunNoneItsOwn(states, actions, n);
    var f := Top(s.cpus[c]);
    assert NotItsOwn(s.cpus[c].frames[|s.cpus[c].frames| - 1]);
    if h: nat, k: nat, j: nat :| Holds(s, h, k, j, f.pc.lock) {
      if h == c {
        HolderIsMasked(s, c, k, j, f.pc.lock);
      }
      assert f.pc.lock in s.locked;
    }
  }

  // ---------------------------------------------------------------- no deadlock

  /** The frame is inside `lock`. */
  predicate Wants(pc: Pc) {
    !pc.Running? && !pc.Dropping?
  }

  /** The frame only takes locks above those it holds. */
  ghost predicate Ascending(f: Frame) {
    Wants(f.pc) ==> forall j :: 0 <= j < |f.guards| ==> f.guards[j].lock < f.pc.lock
  }

  ghost predicate AllAscending(s: System) {
    forall c, k :: 0 <= c < |s.cpus| && 0 <= k < |s.cpus[c].frames| ==> Ascending(s.cpus[c].frames[k])
  }

  /** A call of `lock` that respects the order. */
  ghost predicate OrderedCall(s: System, a: Action) {
    a.event.Lock? && a.cpu < |s.cpus| && s.cpus[a.cpu].frames != [] ==>
      forall j :: 0 <= j < |Top(s.cpus[a.cpu]).guards| ==> Top(s.cpus[a.cpu]).guards[j].lock < a.event.lock
  }

  lemma StepKeepsAscending(s: System, a: Action, s': System)
    requires AllAscending(s) && Next(s, a.cpu, a.event, s') && OrderedCall(s, a)
    ensures AllAscending(s')
  {
    var cpu := s.cpus[a.cpu];
    assert Ascending(cpu.frames[|cpu.frames| - 1]);
  }

  lemma {:induction false} RunIsAscending(states: seq<System>, actions: seq<Action>, n: nat)
    requires Run(states, actions) && Initial(states[0]) && n < |states|
    requires forall i :: 0 <= i < |actions| ==> OrderedCall(states[i], actions[i])
    ensures AllAscending(states[n])
  {
    if n == 0 {
    } else {
      RunIsAscending(states, actions, n - 1);
      assert Next(states[n - 1], actions[n - 1].cpu, actions[n - 1].event, states[n - 1 + 1]);
      StepKeepsAscending(states[n - 1], actions[n - 1], states[n]);
    }
  }

  /** The CPU spins on a lock that is taken. */
  ghost predicate Stuck(s: System, c: nat) {
    c < |s.cpus| && s.cpus[c].frames != [] && Top(s.cpus[c]).pc.Spinning? && Top(s.cpus[c]).pc.lock in s.locked
  }

  /** Who holds up a stuck CPU: following the holders leads to a CPU that holds a lock and is not stuck. */
  lemma {:induction false} HolderCanStep(s: System, c: nat) returns (h: nat, e: Event, s': System)
    requires Safe(s) && AllAscending(s) && Stuck(s, c)
    ensures h != c && !Stuck(s, h) && (e.Advance? || e.Drop?) && Next(s, h, e, s')
    ensures exists k: nat, j: nat, l: nat :: Holds(s, h, k, j, l)
    decreases |LocksFrom(s.locked, Top(s.cpus[c]).pc.lock)|
  {
    var l := Top(s.cpus[c]).pc.lock;
    var k: nat, j: nat;
    h, k, j :| Holds(s, h, k, j, l);
    HolderIsMasked(s, h, k, j, l);
    assert CpuOk(s.cpus[h]) && Ascending(Top(s.cpus[h]));
    assert Ascending(Top(s.cpus[c]));
    if Stuck(s, h) {
      var l2 := Top(s.cpus[h]).pc.lock;
      assert l < l2;
      FewerFrom(s.locked, l, l2);
      h, e, s' := HolderCanStep(s, h);
    } else {
      e := if Top(s.cpus[h]).pc.Running? then Drop else Advance;
      var r := CpuStep(s.cpus[h], s.locked, e);
      s' := System(s.cpus[h := r.value.0], r.value.1);
    }
  }

  ghost function LocksFrom(locked: set<nat>, l: nat): set<nat> {
    set x | x in locked && x >= l
  }

  lemma FewerFrom(locked: set<nat>, l: nat, l2: nat)
    requires l in locked && l < l2
    ensures |LocksFrom(locked, l2)| < |LocksFrom(locked, l)|
  {
    var a, b := LocksFrom(locked, l2), LocksFrom(locked, l);
    assert l in b - a;
    assert b == a + (b - a);
  }

  /** When locks are taken in ascending order, handlers included, no interleaving deadlocks: as long as some CPU
      spins on a taken lock, a CPU that holds a lock can take a step that is not a failed load. */
  lemma NoDeadlock(states: seq<System>, actions: seq<Action>, n: nat, c: nat) returns (h: nat, e: Event, s': System)
    requires Run(states, actions) && Initial(states[0]) && n < |states|
    requires forall i :: 0 <= i < |actions| ==> OrderedCall(states[i], actions[i])
    requires Stuck(states[n], c)
    ensures h != c && !Stuck(states[n], h) && (e.Advance? || e.Drop?) && Next(states[n], h, e, s')
    ensures exists k: nat, j: nat, l: nat :: Holds(states[n], h, k, j, l)
  {
    RunIsSafe(states, actions, n);
    RunIsAscending(states, actions, n);
    h, e, s' := HolderCanStep(states[n], c);
  }
}
