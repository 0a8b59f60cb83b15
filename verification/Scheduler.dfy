/** Any number of CPUs running the processes of kern/proc.c.  ptable.lock is explicit, and a
    context switch is two moments: a process gives up being RUNNING, and later its registers
    are saved by swtch.  The lock, handed from process to scheduler and back, spans both. */
module Scheduler {
  import opened Proc
  import opened Options

  /** Where a CPU is: in the scheduler without or with ptable.lock; running process p without
      or with it; or running p, with it, after p has stopped being RUNNING and before swtch
      has saved its context. */
  datatype Cpu =
    | Idle
    | Choosing
    | Runs(p: nat)
    | RunsLocked(p: nat)
    | Leaves(p: nat)

  datatype State = State(ps: seq<Slot>, cpus: seq<Cpu>, lock: Option<nat>)

  predicate Holds(c: Cpu)
  {
    c.Choosing? || c.RunsLocked? || c.Leaves?
  }

  /** The process whose registers are on the CPU. */
  predicate Carries(c: Cpu, p: nat)
  {
    match c
    case Idle => false
    case Choosing => false
    case Runs(q) => q == p
    case RunsLocked(q) => q == p
    case Leaves(q) => q == p
  }

  // ----- steps of one CPU -----

  datatype Step =
    | Acquire               // the scheduler or the running process takes ptable.lock
    | Release
    | Choose(p: nat)        // scheduler: p becomes RUNNING, its context is loaded
    | Wake(chan: Chan)      // wakeup1
    | Yield
    | Sleep(chan: Chan)     // sleep with another lock than ptable.lock
    | Exit
    | Wait
    | Swtch                 // sched: the context is saved, back in the scheduler
    | Kill(q: nat)
    | ForkAlloc(q: nat)     // allocproc
    | ForkParent            // np->parent = proc, without the lock
    | ForkDone              // np->state = RUNNABLE
    | ForkFail              // np->state = UNUSED, without the lock

  /** Zombies and children, as wait by p sees them. */
  predicate NoZombie(ps: seq<Slot>, p: nat)
  {
    !HasZombie(ps, p, |ps|)
  }

  ghost predicate WaitNext(ps: seq<Slot>, ps': seq<Slot>, p: nat, c': Cpu)
    requires p < |ps|
  {
    || (exists q: nat :: q < |ps| && IsChild(ps, q, p) && ps[q].state == ZOMBIE
          && ps' == ps[q := Emptied(ps[q])] && c' == RunsLocked(p))
    || (NoZombie(ps, p) && ps' == ps && c' == RunsLocked(p))
    || (NoZombie(ps, p) && ps' == ps[p := ps[p].(chan := OfProc(p), state := SLEEPING)] && c' == Leaves(p))
  }

  /** A step of a CPU that runs process p with ptable.lock. */
  ghost predicate LockedNext(ps: seq<Slot>, ps': seq<Slot>, p: nat, c': Cpu, init: nat, a: Step)
    requires p < |ps|
  {
    match a
    case Wake(chan) => chan.OfOther? && ps' == Woken(ps, chan) && c' == RunsLocked(p)
    case Yield => ps' == ps[p := ps[p].(state := RUNNABLE)] && c' == Leaves(p)
    case Sleep(chan) => chan.OfOther? && ps' == ps[p := ps[p].(chan := chan, state := SLEEPING)] && c' == Leaves(p)
    case Exit => p != init && ps[p].building.None? && ps' == Exited(ps, p, init) && c' == Leaves(p)
    case Wait => ps[p].building.None? && WaitNext(ps, ps', p, c')
    case Kill(q) =>
      && q < |ps| && c' == RunsLocked(p)
      && ps' == ps[q := ps[q].(killed := true, state := if ps[q].state == SLEEPING then RUNNABLE else ps[q].state)]
    case ForkAlloc(q) =>
      && q < |ps| && ps[q].state == UNUSED && ps[p].building.None? && c' == RunsLocked(p)
      && ps' == ps[q := ps[q].(state := EMBRYO, saved := true)][p := ps[p].(building := Some(q))]
    case ForkDone =>
      && ps[p].building.Some? && ps[p].building.value < |ps| && c' == RunsLocked(p)
      && var q := ps[p].building.value;
         ps[q].parent == Some(p) && ps' == ps[q := ps[q].(state := RUNNABLE)][p := ps[p].(building := None)]
    case _ => false
  }

  /** A step of a CPU that runs process p without ptable.lock. */
  ghost predicate FreeNext(ps: seq<Slot>, ps': seq<Slot>, p: nat, a: Step)
    requires p < |ps|
  {
    && ps[p].building.Some? && ps[p].building.value < |ps|
    && var q := ps[p].building.value;
       match a
       case ForkParent => ps' == ps[q := ps[q].(parent := Some(p))]
       case ForkFail => ps[q].parent.None? && ps' == ps[q := ps[q].(state := UNUSED)][p := ps[p].(building := None)]
       case _ => false
  }

  ghost predicate Next(s: State, t: State, init: nat, c: nat, a: Step)
  {
    && c < |s.cpus| == |t.cpus|
    && t.cpus == s.cpus[c := t.cpus[c]]
    && match s.cpus[c]
       case Idle => a == Acquire && s.lock.None? && t == State(s.ps, s.cpus[c := Choosing], Some(c))
       case Choosing =>
         || (a == Release && t == State(s.ps, s.cpus[c := Idle], None))
         || (a.Choose? && a.p < |s.ps| && s.ps[a.p].state == RUNNABLE
             && t == State(s.ps[a.p := s.ps[a.p].(state := RUNNING, saved := false)], s.cpus[c := RunsLocked(a.p)],
               s.lock))
       case Runs(p) =>
         || (a == Acquire && s.lock.None? && t == State(s.ps, s.cpus[c := RunsLocked(p)], Some(c)))
         || (p < |s.ps| && FreeNext(s.ps, t.ps, p, a) && t == State(t.ps, s.cpus, s.lock))
       case RunsLocked(p) =>
         || (a == Release && t == State(s.ps, s.cpus[c := Runs(p)], None))
         || (p < |s.ps| && LockedNext(s.ps, t.ps, p, t.cpus[c], init, a) && t == State(t.ps, t.cpus, s.lock))
       case Leaves(p) =>
         && a == Swtch && p < |s.ps|
         && t == State(s.ps[p := s.ps[p].(saved := true)], s.cpus[c := Choosing], s.lock)
  }

  // ----- the invariant -----

  /** A CPU holds the lock exactly when the lock says so, and the process it carries is in
      the state it should be in, its context not saved. */
  ghost predicate CpuOk(s: State, c: nat)
    requires c < |s.cpus|
  {
    && (Holds(s.cpus[c]) <==> s.lock == Some(c))
    && match s.cpus[c]
       case Idle => true
       case Choosing => true
       case Runs(p) => p < |s.ps| && s.ps[p].state == RUNNING && !s.ps[p].saved
       case RunsLocked(p) => p < |s.ps| && s.ps[p].state == RUNNING && !s.ps[p].saved
       case Leaves(p) => p < |s.ps| && s.ps[p].state in {RUNNABLE, SLEEPING, ZOMBIE} && !s.ps[p].saved
  }

  /** No process is on two CPUs. */
  ghost predicate CpusApart(s: State, c: nat, d: nat, p: nat)
    requires c < |s.cpus| && d < |s.cpus|
  {
    Carries(s.cpus[c], p) && Carries(s.cpus[d], p) ==> c == d
  }

  ghost predicate OnSomeCpu(s: State, p: nat)
  {
    exists c: nat :: c < |s.cpus| && Carries(s.cpus[c], p)
  }

  /** A running process is on a CPU; any other that is in use is on a CPU or has its context
      saved. */
  ghost predicate ProcOk(s: State, p: nat)
    requires p < |s.ps|
  {
    && (s.ps[p].state == RUNNING ==> OnSomeCpu(s, p))
    && (s.ps[p].state != UNUSED && !s.ps[p].saved ==> OnSomeCpu(s, p))
  }

  ghost predicate Exclusive(s: State)
  {
    && (s.lock.Some? ==> s.lock.value < |s.cpus|)
    && (forall c: nat :: c < |s.cpus| ==> CpuOk(s, c))
    && (forall c: nat, d: nat, p: nat :: c < |s.cpus| && d < |s.cpus| ==> CpusApart(s, c, d, p))
    && (forall p: nat :: p < |s.ps| ==> ProcOk(s, p))
  }

  /** A parent is neither gone nor going; a process asleep in wait has no zombie child; what
      fork is building is an embryo of its own. */
  ghost predicate FamilyOk(ps: seq<Slot>, q: nat)
    requires q < |ps|
  {
    && (ps[q].parent.Some? ==>
          ps[q].parent.value < |ps| && ps[q].parent.value != q
          && ps[ps[q].parent.value].state !in {UNUSED, EMBRYO, ZOMBIE})
    && (ps[q].state == ZOMBIE && ps[q].parent.Some? ==>
          var r := ps[q].parent.value; !(ps[r].state == SLEEPING && ps[r].chan == OfProc(r)))
    && (ps[q].building.Some? ==>
          && ps[q].building.value < |ps| && ps[ps[q].building.value].state == EMBRYO
          && ps[q].state !in {UNUSED, ZOMBIE})
    && (ps[q].state in {UNUSED, EMBRYO} ==> ps[q].building.None?)
    && (ps[q].state == UNUSED ==> ps[q].parent.None?)
  }

  ghost predicate BuildersApart(ps: seq<Slot>, p: nat, q: nat)
    requires p < |ps| && q < |ps|
  {
    p != q && ps[p].building.Some? ==> ps[p].building != ps[q].building
  }

  ghost predicate Families(ps: seq<Slot>, init: nat)
  {
    && init < |ps| && ps[init].state !in {UNUSED, ZOMBIE, EMBRYO} && ps[init].parent.None?
    && (forall q: nat :: q < |ps| ==> FamilyOk(ps, q))
    && (forall p: nat, q: nat :: p < |ps| && q < |ps| ==> BuildersApart(ps, p, q))
  }

  ghost predicate Inv(s: State, init: nat)
  {
    Exclusive(s) && Families(s.ps, init)
  }

  // ----- exclusivity -----

  /** While one CPU runs p with the lock, a process that is not RUNNING is on no CPU. */
  lemma OffCpu(s: State, c: nat, q: nat)
    requires Exclusive(s) && c < |s.cpus| && s.lock == Some(c) && q < |s.ps|
    requires s.ps[q].state != RUNNING && !Carries(s.cpus[c], q)
    ensures !OnSomeCpu(s, q) && (s.ps[q].state != UNUSED ==> s.ps[q].saved)
  {
    forall d: nat | d < |s.cpus| ensures !Carries(s.cpus[d], q) {
      assert CpuOk(s, d);
    }
    assert ProcOk(s, q);
  }

  /** A slot that a step may change: not running before or after, on no CPU, and afterwards
      unused or with its context saved. */
  ghost predicate Resting(s: State, q: nat, slot: Slot)
    requires q < |s.ps|
  {
    && s.ps[q].state != RUNNING && slot.state != RUNNING
    && !OnSomeCpu(s, q) && (slot.saved || slot.state == UNUSED)
  }

  ghost predicate SlotStep(s: State, t: State, p: nat, q: nat)
    requires q < |s.ps| && q < |t.ps|
  {
    q != p ==> (t.ps[q].state == s.ps[q].state && t.ps[q].saved == s.ps[q].saved) || Resting(s, q, t.ps[q])
  }

  /** A process p changes the table from its CPU, staying RUNNING or about to leave. */
  lemma TableStep(s: State, t: State, c: nat, p: nat)
    requires Exclusive(s) && c < |s.cpus| && p < |s.ps| && |t.ps| == |s.ps|
    requires s.cpus[c] == Runs(p) || s.cpus[c] == RunsLocked(p)
    requires t.lock == s.lock && (t.cpus == s.cpus || (s.cpus[c].RunsLocked? && t.cpus == s.cpus[c := Leaves(p)]))
    requires !t.ps[p].saved
    requires if t.cpus == s.cpus then t.ps[p].state == RUNNING else t.ps[p].state in {RUNNABLE, SLEEPING, ZOMBIE}
    requires forall q: nat :: q < |s.ps| ==> SlotStep(s, t, p, q)
    ensures Exclusive(t)
  {
    assert CpuOk(s, c);
    forall d: nat, q: nat | d < |s.cpus| ensures Carries(t.cpus[d], q) <==> Carries(s.cpus[d], q) {
    }
    forall d: nat | d < |t.cpus| ensures CpuOk(t, d) {
      assert CpuOk(s, d) && CpusApart(s, c, d, p);
      if !s.cpus[d].Idle? && !s.cpus[d].Choosing? && s.cpus[d].p < |s.ps| {
        assert Carries(s.cpus[d], s.cpus[d].p);
        assert SlotStep(s, t, p, s.cpus[d].p);
      }
    }
    forall d: nat, e: nat, q: nat | d < |t.cpus| && e < |t.cpus| ensures CpusApart(t, d, e, q) {
      assert CpusApart(s, d, e, q);
    }
    forall q: nat | q < |t.ps| ensures ProcOk(t, q) {
      assert ProcOk(s, q) && SlotStep(s, t, p, q);
      if OnSomeCpu(s, q) {
        var d: nat :| d < |s.cpus| && Carries(s.cpus[d], q);
        assert Carries(t.cpus[d], q);
      }
      if q == p {
        assert Carries(t.cpus[c], p);
      }
    }
  }

  /** Taking or releasing the lock changes no process. */
  lemma LockStep(s: State, t: State, c: nat)
    requires Exclusive(s) && c < |s.cpus| == |t.cpus| && t.ps == s.ps && t.cpus == s.cpus[c := t.cpus[c]]
    requires forall p: nat :: Carries(t.cpus[c], p) <==> Carries(s.cpus[c], p)
    requires !t.cpus[c].Leaves? && !s.cpus[c].Leaves?
    requires (s.lock.None? && t.lock == Some(c) && Holds(t.cpus[c]))
      || (s.lock == Some(c) && t.lock.None? && !Holds(t.cpus[c]))
    ensures Exclusive(t)
  {
    forall d: nat | d < |t.cpus| ensures CpuOk(t, d) {
      assert CpuOk(s, d);
      if d == c && (t.cpus[c].Runs? || t.cpus[c].RunsLocked?) {
        assert Carries(t.cpus[c], t.cpus[c].p);
      }
    }
    forall d: nat, e: nat, q: nat | d < |t.cpus| && e < |t.cpus| ensures CpusApart(t, d, e, q) {
      assert CpusApart(s, d, e, q);
    }
    forall q: nat | q < |t.ps| ensures ProcOk(t, q) {
      assert ProcOk(s, q);
      if OnSomeCpu(s, q) {
        var d: nat :| d < |s.cpus| && Carries(s.cpus[d], q);
        assert Carries(t.cpus[d], q);
      }
    }
  }

  /** The scheduler picks a process: its context has been saved, and no CPU has it. */
  lemma ChooseStep(s: State, t: State, c: nat, p: nat)
    requires Exclusive(s) && c < |s.cpus| && s.cpus[c].Choosing? && p < |s.ps| && s.ps[p].state == RUNNABLE
    requires t == State(s.ps[p := s.ps[p].(state := RUNNING, saved := false)], s.cpus[c := RunsLocked(p)], s.lock)
    ensures s.ps[p].saved && !OnSomeCpu(s, p)
    ensures Exclusive(t)
  {
    assert CpuOk(s, c);
    OffCpu(s, c, p);
    forall d: nat | d < |t.cpus| ensures CpuOk(t, d) {
      assert CpuOk(s, d) && !Carries(s.cpus[d], p);
    }
    forall d: nat, e: nat, q: nat | d < |t.cpus| && e < |t.cpus| ensures CpusApart(t, d, e, q) {
      assert CpusApart(s, d, e, q) && !Carries(s.cpus[d], p) && !Carries(s.cpus[e], p);
    }
    forall q: nat | q < |t.ps| ensures ProcOk(t, q) {
      assert ProcOk(s, q);
      if q == p {
        assert Carries(t.cpus[c], p);
      } else if OnSomeCpu(s, q) {
        var d: nat :| d < |s.cpus| && Carries(s.cpus[d], q);
        assert Carries(t.cpus[d], q);
      }
    }
  }

  /** swtch out of a process. */
  lemma SwtchStep(s: State, t: State, c: nat, p: nat)
    requires Exclusive(s) && c < |s.cpus| && s.cpus[c] == Leaves(p) && p < |s.ps|
    requires t == State(s.ps[p := s.ps[p].(saved := true)], s.cpus[c := Choosing], s.lock)
    ensures Exclusive(t) && !OnSomeCpu(t, p)
  {
    assert CpuOk(s, c);
    forall d: nat | d < |t.cpus| ensures CpuOk(t, d) && !Carries(t.cpus[d], p) {
      assert CpuOk(s, d) && CpusApart(s, c, d, p);
    }
    forall d: nat, e: nat, q: nat | d < |t.cpus| && e < |t.cpus| ensures CpusApart(t, d, e, q) {
      assert CpusApart(s, d, e, q);
    }
    forall q: nat | q < |t.ps| ensures ProcOk(t, q) {
      assert ProcOk(s, q);
      if q != p && OnSomeCpu(s, q) {
        var d: nat :| d < |s.cpus| && Carries(s.cpus[d], q);
        assert Carries(t.cpus[d], q);
      }
    }
  }

  /** What exit does to a slot other than the exiting one. */
  lemma ExitedSlot(ps: seq<Slot>, p: nat, init: nat, q: nat)
    requires p < |ps| && q < |ps| && q != p
    ensures |Exited(ps, p, init)| == |ps|
    ensures var e := Exited(ps, p, init)[q];
            && (e.state == ps[q].state || (ps[q].state == SLEEPING && e.state == RUNNABLE))
            && e == ps[q].(state := e.state, parent := if IsChild(ps, q, p) then Some(init) else ps[q].parent)
            && (ps[p].parent == Some(q) && ps[q].chan == OfProc(q) ==> e.state != SLEEPING)
            && (q == init && ps[q].chan == OfProc(q) && HasZombie(ps, p, |ps|) ==> e.state != SLEEPING)
  {
    var a := Woken(ps, ParentChan(ps[p].parent));
    if HasZombie(ps, p, |ps|) {
      var i: nat :| i < |ps| && IsChild(ps, i, p) && ps[i].state == ZOMBIE;
      assert IsChild(a, i, p) && a[i].state == ZOMBIE;
    }
  }

  lemma LockedSlots(s: State, t: State, init: nat, c: nat, p: nat, a: Step, q: nat)
    requires Exclusive(s) && c < |s.cpus| && s.cpus[c] == RunsLocked(p) && s.lock == Some(c)
    requires p < |s.ps| && q < |s.ps| && q != p
    requires c < |t.cpus| && LockedNext(s.ps, t.ps, p, t.cpus[c], init, a) && FamilyOk(s.ps, p)
    ensures |t.ps| == |s.ps| && SlotStep(s, t, p, q)
  {
    if s.ps[q].state != RUNNING {
      OffCpu(s, c, q);
    }
    if a == Exit {
      ExitedSlot(s.ps, p, init, q);
    }
  }

  lemma ExitedLength(ps: seq<Slot>, p: nat, init: nat)
    requires p < |ps|
    ensures |Exited(ps, p, init)| == |ps|
    ensures Exited(ps, p, init)[p].state == ZOMBIE && Exited(ps, p, init)[p].saved == ps[p].saved
    ensures Exited(ps, p, init)[p].building == ps[p].building
    ensures Exited(ps, p, init)[p].parent == if IsChild(ps, p, p) then Some(init) else ps[p].parent
  {
  }

  lemma LockedExclusive(s: State, t: State, init: nat, c: nat, p: nat, a: Step)
    requires Exclusive(s) && c < |s.cpus| == |t.cpus| && s.cpus[c] == RunsLocked(p) && p < |s.ps|
    requires LockedNext(s.ps, t.ps, p, t.cpus[c], init, a) && FamilyOk(s.ps, p)
    requires t == State(t.ps, s.cpus[c := t.cpus[c]], s.lock)
    ensures Exclusive(t)
  {
    assert CpuOk(s, c);
    if a == Exit {
      ExitedLength(s.ps, p, init);
    }
    forall q: nat | q < |s.ps| ensures |t.ps| == |s.ps| && SlotStep(s, t, p, q) {
      if q != p { LockedSlots(s, t, init, c, p, a, q); }
    }
    assert !t.ps[p].saved;
    assert t.cpus[c] == RunsLocked(p) ==> t.cpus == s.cpus;
    TableStep(s, t, c, p);
  }

  lemma FreeExclusive(s: State, t: State, c: nat, p: nat, a: Step)
    requires Exclusive(s) && c < |s.cpus| && s.cpus[c] == Runs(p) && p < |s.ps|
    requires forall q: nat :: q < |s.ps| ==> FamilyOk(s.ps, q)
    requires FreeNext(s.ps, t.ps, p, a) && t == State(t.ps, s.cpus, s.lock)
    ensures Exclusive(t)
  {
    assert CpuOk(s, c) && FamilyOk(s.ps, p);
    var e := s.ps[p].building.value;
    assert !OnSomeCpu(s, e) by {
      forall d: nat | d < |s.cpus| ensures !Carries(s.cpus[d], e) { assert CpuOk(s, d); }
    }
    forall q: nat | q < |s.ps| ensures SlotStep(s, t, p, q) {
    }
    TableStep(s, t, c, p);
  }

  // ----- families -----

  lemma WakeFamilies(ps: seq<Slot>, init: nat, chan: Chan)
    requires Families(ps, init)
    ensures Families(Woken(ps, chan), init)
  {
    var u := Woken(ps, chan);
    forall q: nat | q < |u| ensures FamilyOk(u, q) {
      assert FamilyOk(ps, q);
    }
    forall p: nat, q: nat | p < |u| && q < |u| ensures BuildersApart(u, p, q) {
      assert BuildersApart(ps, p, q);
    }
  }

  /** Changing the state of a live process p to another live one.  Falling asleep in wait
      needs that no child is a zombie. */
  lemma LiveFamilies(ps: seq<Slot>, init: nat, p: nat, b: Slot)
    requires Families(ps, init) && p < |ps| && ps[p].state !in {UNUSED, ZOMBIE, EMBRYO}
    requires b == ps[p].(state := b.state, chan := b.chan, killed := b.killed)
      && b.state in {RUNNABLE, SLEEPING, RUNNING}
    requires b.state == SLEEPING && b.chan == OfProc(p) ==>
      NoZombie(ps, p) || (ps[p].state == SLEEPING && ps[p].chan == OfProc(p))
    ensures Families(ps[p := b], init)
  {
    var u := ps[p := b];
    forall q: nat | q < |u| ensures FamilyOk(u, q) {
      assert FamilyOk(ps, q) && FamilyOk(ps, p);
      if ps[q].state == ZOMBIE && ps[q].parent == Some(p) {
        assert IsChild(ps, q, p);
      }
    }
    forall r: nat, q: nat | r < |u| && q < |u| ensures BuildersApart(u, r, q) {
      assert BuildersApart(ps, r, q);
    }
  }

  lemma ReapFamilies(ps: seq<Slot>, init: nat, p: nat, q: nat)
    requires Families(ps, init) && p < |ps| && q < |ps| && IsChild(ps, q, p) && ps[q].state == ZOMBIE
    ensures Families(ps[q := Emptied(ps[q])], init)
  {
    var u := ps[q := Emptied(ps[q])];
    forall r: nat | r < |u| ensures FamilyOk(u, r) {
      assert FamilyOk(ps, r) && FamilyOk(ps, q);
    }
    forall r: nat, w: nat | r < |u| && w < |u| ensures BuildersApart(u, r, w) {
      assert BuildersApart(ps, r, w);
    }
  }

  /** exit leaves no child behind, and nobody asleep who should see the new zombie. */
  lemma ExitFamilies(ps: seq<Slot>, init: nat, p: nat)
    requires Families(ps, init) && p < |ps| && p != init && ps[p].state == RUNNING && ps[p].building.None?
    ensures Families(Exited(ps, p, init), init)
  {
    var u := Exited(ps, p, init);
    ExitedLength(ps, p, init);
    ExitedSlot(ps, p, init, init);
    assert FamilyOk(ps, p);
    forall q: nat | q < |u| ensures FamilyOk(u, q) {
      assert FamilyOk(ps, q);
      if q != p { ExitedSlot(ps, p, init, q); }
      if u[q].parent.Some? && u[q].parent.value != p {
        ExitedSlot(ps, p, init, u[q].parent.value);
        if q != p && IsChild(ps, q, p) && ps[q].state == ZOMBIE { assert HasZombie(ps, p, |ps|); }
      }
      if ps[q].building.Some? {
        assert ps[q].building.value != p;
        ExitedSlot(ps, p, init, ps[q].building.value);
      }
    }
    forall r: nat, q: nat | r < |u| && q < |u| ensures BuildersApart(u, r, q) {
      assert BuildersApart(ps, r, q);
      if r != p { ExitedSlot(ps, p, init, r); }
      if q != p { ExitedSlot(ps, p, init, q); }
    }
  }

  lemma ForkAllocFamilies(ps: seq<Slot>, init: nat, p: nat, q: nat)
    requires Families(ps, init) && p < |ps| && q < |ps| && ps[p].state == RUNNING
    requires ps[q].state == UNUSED && ps[p].building.None?
    ensures Families(ps[q := ps[q].(state := EMBRYO, saved := true)][p := ps[p].(building := Some(q))], init)
  {
    var u := ps[q := ps[q].(state := EMBRYO, saved := true)][p := ps[p].(building := Some(q))];
    forall r: nat | r < |u| ensures FamilyOk(u, r) {
      assert FamilyOk(ps, r) && FamilyOk(ps, q) && FamilyOk(ps, p);
    }
    forall r: nat, w: nat | r < |u| && w < |u| ensures BuildersApart(u, r, w) {
      assert BuildersApart(ps, r, w) && FamilyOk(ps, r) && FamilyOk(ps, w);
    }
  }

  lemma ForkDoneFamilies(ps: seq<Slot>, init: nat, p: nat, q: nat)
    requires Families(ps, init) && p < |ps| && q < |ps| && ps[p].building == Some(q) && ps[p].state == RUNNING
    ensures Families(ps[q := ps[q].(state := RUNNABLE)][p := ps[p].(building := None)], init)
    ensures ps[q].parent.None? ==> Families(ps[q := ps[q].(state := UNUSED)][p := ps[p].(building := None)], init)
    ensures Families(ps[q := ps[q].(parent := Some(p))], init)
  {
    assert FamilyOk(ps, p) && FamilyOk(ps, q);
    var u := ps[q := ps[q].(state := RUNNABLE)][p := ps[p].(building := None)];
    var v := ps[q := ps[q].(state := UNUSED)][p := ps[p].(building := None)];
    var x := ps[q := ps[q].(parent := Some(p))];
    forall r: nat | r < |ps| ensures FamilyOk(u, r) && FamilyOk(x, r) {
      assert FamilyOk(ps, r) && BuildersApart(ps, p, r);
    }
    forall r: nat, w: nat | r < |u| && w < |u|
      ensures BuildersApart(u, r, w) && BuildersApart(v, r, w) && BuildersApart(x, r, w)
    {
      assert BuildersApart(ps, r, w);
    }
    if ps[q].parent.None? {
      forall r: nat | r < |ps| ensures FamilyOk(v, r) {
        assert FamilyOk(ps, r) && BuildersApart(ps, p, r);
      }
    }
  }

  // ----- whole runs -----

  lemma KillFamilies(ps: seq<Slot>, init: nat, q: nat)
    requires Families(ps, init) && q < |ps|
    ensures Families(ps[q := ps[q].(killed := true,
      state := if ps[q].state == SLEEPING then RUNNABLE else ps[q].state)], init)
  {
    var u := ps[q := ps[q].(killed := true, state := if ps[q].state == SLEEPING then RUNNABLE else ps[q].state)];
    forall r: nat | r < |u| ensures FamilyOk(u, r) {
      assert FamilyOk(ps, r);
    }
    forall r: nat, w: nat | r < |u| && w < |u| ensures BuildersApart(u, r, w) {
      assert BuildersApart(ps, r, w);
    }
  }

  lemma LockedFamilies(ps: seq<Slot>, ps': seq<Slot>, init: nat, p: nat, c': Cpu, a: Step)
    requires Families(ps, init) && p < |ps| && ps[p].state == RUNNING && LockedNext(ps, ps', p, c', init, a)
    ensures Families(ps', init)
  {
    match a
    case Wake(chan) => WakeFamilies(ps, init, chan);
    case Yield => LiveFamilies(ps, init, p, ps[p].(state := RUNNABLE));
    case Sleep(chan) => LiveFamilies(ps, init, p, ps[p].(chan := chan, state := SLEEPING));
    case Exit => ExitFamilies(ps, init, p);
    case Wait =>
      if q: nat :| q < |ps| && IsChild(ps, q, p) && ps[q].state == ZOMBIE && ps' == ps[q := Emptied(ps[q])] {
        ReapFamilies(ps, init, p, q);
      } else if ps' != ps {
        LiveFamilies(ps, init, p, ps[p].(chan := OfProc(p), state := SLEEPING));
      }
    case Kill(q) => KillFamilies(ps, init, q);
    case ForkAlloc(q) => ForkAllocFamilies(ps, init, p, q);
    case ForkDone => ForkDoneFamilies(ps, init, p, ps[p].building.value);
  }

  lemma SavedFamilies(ps: seq<Slot>, init: nat, p: nat, v: bool)
    requires Families(ps, init) && p < |ps|
    ensures Families(ps[p := ps[p].(saved := v)], init)
  {
    var u := ps[p := ps[p].(saved := v)];
    forall r: nat | r < |u| ensures FamilyOk(u, r) {
      assert FamilyOk(ps, r);
    }
    forall r: nat, w: nat | r < |u| && w < |u| ensures BuildersApart(u, r, w) {
      assert BuildersApart(ps, r, w);
    }
  }

  lemma LiveFamiliesSaved(ps: seq<Slot>, init: nat, p: nat, b: Slot)
    requires Families(ps, init) && p < |ps| && ps[p].state == RUNNABLE
    requires b == ps[p].(state := RUNNING, saved := false)
    ensures Families(ps[p := b], init)
  {
    SavedFamilies(ps, init, p, false);
    var u := ps[p := ps[p].(saved := false)];
    LiveFamilies(u, init, p, u[p].(state := RUNNING));
    assert u[p := u[p].(state := RUNNING)] == ps[p := b];
  }

  /** Every step of every CPU keeps processes on one CPU each and families in order. */
  lemma StepKeeps(s: State, t: State, init: nat, c: nat, a: Step)
    requires Inv(s, init) && Next(s, t, init, c, a)
    ensures Inv(t, init)
  {
    assert CpuOk(s, c);
    match s.cpus[c]
    case Idle => LockStep(s, t, c);
    case Choosing =>
      if a == Release {
        LockStep(s, t, c);
      } else {
        ChooseStep(s, t, c, a.p);
        LiveFamiliesSaved(s.ps, init, a.p, s.ps[a.p].(state := RUNNING, saved := false));
      }
    case Runs(p) =>
      if a == Acquire {
        LockStep(s, t, c);
      } else {
        FreeExclusive(s, t, c, p, a);
        ForkDoneFamilies(s.ps, init, p, s.ps[p].building.value);
      }
    case RunsLocked(p) =>
      if a == Release {
        LockStep(s, t, c);
      } else {
        LockedExclusive(s, t, init, c, p, a);
        LockedFamilies(s.ps, t.ps, init, p, t.cpus[c], a);
      }
    case Leaves(p) =>
      SwtchStep(s, t, c, p);
      SavedFamilies(s.ps, init, p, true);
  }

  /** After userinit: only the first process, runnable, its context made by allocproc. */
  ghost predicate Boot(s: State, init: nat)
  {
    && s.lock.None? && init < |s.ps|
    && (forall c: nat :: c < |s.cpus| ==> s.cpus[c].Idle?)
    && (forall p: nat :: p < |s.ps| ==>
          s.ps[p].parent.None? && s.ps[p].building.None?
          && s.ps[p].state == (if p == init then RUNNABLE else UNUSED) && (p == init ==> s.ps[p].saved))
  }

  lemma BootInv(s: State, init: nat)
    requires Boot(s, init)
    ensures Inv(s, init)
  {
    forall p: nat | p < |s.ps| ensures ProcOk(s, p) && FamilyOk(s.ps, p) {
    }
    forall c: nat | c < |s.cpus| ensures CpuOk(s, c) {
    }
  }

  /** A run, with the CPU and the step of each move. */
  ghost predicate Run(states: seq<State>, who: seq<nat>, what: seq<Step>, init: nat)
  {
    && |states| == |who| + 1 && |what| == |who| && Boot(states[0], init)
    && forall i :: 0 <= i < |who| ==> Next(states[i], states[i + 1], init, who[i], what[i])
  }

  lemma {:induction false} RunInv(states: seq<State>, who: seq<nat>, what: seq<Step>, init: nat, i: nat)
    requires Run(states, who, what, init) && i < |states|
    ensures Inv(states[i], init)
  {
    if i == 0 {
      BootInv(states[0], init);
    } else {
      RunInv(states, who, what, init, i - 1);
      StepKeeps(states[i - 1], states[i], init, who[i - 1], what[i - 1]);
    }
  }

  ghost predicate OnlyOn(s: State, c: nat, p: nat)
  {
    c < |s.cpus| && forall d: nat :: d < |s.cpus| ==> (Carries(s.cpus[d], p) <==> d == c)
  }

  /** In every state of every run, a RUNNING process is on exactly one CPU. */
  lemma RunningOnOneCpu(states: seq<State>, who: seq<nat>, what: seq<Step>, init: nat, i: nat, p: nat)
    requires Run(states, who, what, init) && i < |states| && p < |states[i].ps| && states[i].ps[p].state == RUNNING
    ensures exists c: nat :: OnlyOn(states[i], c, p)
  {
    var s := states[i];
    RunInv(states, who, what, init, i);
    assert ProcOk(s, p);
    var c: nat :| c < |s.cpus| && Carries(s.cpus[c], p);
    forall d: nat | d < |s.cpus| && Carries(s.cpus[d], p) ensures d == c {
      assert CpusApart(s, c, d, p);
    }
    assert OnlyOn(s, c, p);
  }

  ghost predicate Freed(s: State, t: State, q: nat)
  {
    q < |s.ps| && q < |t.ps| && s.ps[q].state == ZOMBIE && t.ps[q].state == UNUSED
  }

  /** A zombie becomes unused only by a step taken with the lock by another process. */
  lemma FreedSlot(s: State, t: State, init: nat, c: nat, a: Step, q: nat)
    requires Inv(s, init) && Next(s, t, init, c, a) && Freed(s, t, q)
    ensures s.lock == Some(c) && !Carries(s.cpus[c], q)
  {
    assert CpuOk(s, c);
    match s.cpus[c]
    case Idle =>
    case Choosing =>
    case Runs(p) => assert FamilyOk(s.ps, p);
    case RunsLocked(p) =>
    case Leaves(p) =>
  }

  /** Whenever a CPU picks a process, the CPU that ran it last has saved its context; and
      whenever wait frees a zombie, no CPU is still on its stack. */
  lemma SwitchedOutFirst(states: seq<State>, who: seq<nat>, what: seq<Step>, init: nat, i: nat)
    requires Run(states, who, what, init) && i < |who|
    ensures what[i].Choose? ==>
      var p := what[i].p; p < |states[i].ps| && states[i].ps[p].saved && !OnSomeCpu(states[i], p)
    ensures forall q: nat :: Freed(states[i], states[i + 1], q) ==> !OnSomeCpu(states[i], q)
  {
    var s, t, c := states[i], states[i + 1], who[i];
    RunInv(states, who, what, init, i);
    assert CpuOk(s, c);
    if what[i].Choose? {
      OffCpu(s, c, what[i].p);
    }
    forall q: nat | Freed(s, t, q) ensures !OnSomeCpu(s, q) {
      FreedSlot(s, t, init, c, what[i], q);
      OffCpu(s, c, q);
    }
  }

  /** No orphan zombie: whoever sleeps in wait has no zombie child, and every parent is a
      process that can still call wait. */
  lemma NoOrphanZombie(states: seq<State>, who: seq<nat>, what: seq<Step>, init: nat, i: nat, q: nat)
    requires Run(states, who, what, init) && i < |states| && q < |states[i].ps| && states[i].ps[q].parent.Some?
    ensures var ps := states[i].ps;
            var r := ps[q].parent.value;
            && r < |ps| && ps[r].state !in {UNUSED, EMBRYO, ZOMBIE}
            && (ps[q].state == ZOMBIE ==> !(ps[r].state == SLEEPING && ps[r].chan == OfProc(r)))
  {
    RunInv(states, who, what, init, i);
    assert FamilyOk(states[i].ps, q);
  }
}
