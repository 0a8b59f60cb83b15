/** Whole runs of the logging system, one block write at a time and with crashes anywhere,
    refine a disk whose transactions are atomic.

    The concrete machine interleaves log_write calls, the single block writes of commit()
    and of recover_from_log(), and power failures.  The abstract machine has a durable and
    a volatile copy of the home blocks and three moves: change the volatile copy, make it
    durable all at once, lose it. */
module AtomicDisk {
  import opened Blocks
  import opened RedoLog

  datatype Phase =
    | Running
    | Committing(base: Disk, k: nat)
    | Down
    | Recovering(base: Disk, k: nat)

  /** `view` is what the buffer cache shows; it is lost in a crash. */
  datatype State = State(disk: Disk, view: Disk, lh: seq<nat>, phase: Phase)

  datatype Abstract = Abstract(durable: Disk, volatile: Disk)

  // ----- the concrete machine -----

  /** log.lh.block after log_write: absorbed if already there, else appended. */
  function Absorb(lh: seq<nat>, bno: nat): (r: seq<nat>)
  {
    if bno in lh then lh else lh + [bno]
  }

  /** No block is listed twice. */
  predicate Distinct(lh: seq<nat>)
  {
    forall i, j :: 0 <= i < j < |lh| ==> lh[i] != lh[j]
  }

  /** What log_write makes of the list: what was listed stays where it was, and the block is listed
      once, at the end if it is new. */
  lemma Absorbed(lh: seq<nat>, bno: nat)
    requires Distinct(lh)
    ensures var r := Absorb(lh, bno);
            && |lh| <= |r| && r[..|lh|] == lh
            && (bno in lh ==> |r| == |lh|)
            && (bno !in lh ==> |r| == |lh| + 1 && r[|lh|] == bno)
            && Distinct(r)
  {
  }

  ghost predicate LogWriteStep(L: Layout, s: State, t: State, bno: nat, data: Block)
  {
    && s.phase.Running?
    && |s.lh| < LOGSIZE && |s.lh| < L.size - 1
    && bno < WORDMAX && L.Home(bno) in s.disk && !L.InLog(L.Home(bno))
    && t == s.(view := s.view[L.Home(bno) := data], lh := Absorb(s.lh, bno))
  }

  ghost predicate StartCommitStep(s: State, t: State)
  {
    s.phase.Running? && t == s.(phase := Committing(s.disk, 0))
  }

  predicate Inv(L: Layout, s: State)
  {
    && WellFormed(L, s.disk)
    && match s.phase
       case Running => CommitStart(L, s.disk, s.view, s.lh)
       case Committing(base, k) =>
         && CommitStart(L, base, s.view, s.lh)
         && k <= |CommitWrites(L, base, s.view, s.lh)|
         && s.disk == Apply(base, CommitWrites(L, base, s.view, s.lh)[..k])
       case Down => true
       case Recovering(base, k) =>
         && WellFormed(L, base)
         && k <= |RecoveryWrites(L, base)|
         && s.disk == Apply(base, RecoveryWrites(L, base)[..k])
  }

  ghost predicate CommitWriteStep(L: Layout, s: State, t: State)
    requires Inv(L, s)
  {
    && s.phase.Committing?
    && var ws := CommitWrites(L, s.phase.base, s.view, s.lh);
       && s.phase.k < |ws|
       && t == s.(disk := s.disk[ws[s.phase.k].at := ws[s.phase.k].data],
                  phase := Committing(s.phase.base, s.phase.k + 1))
  }

  ghost predicate EndCommitStep(L: Layout, s: State, t: State)
    requires Inv(L, s)
  {
    && s.phase.Committing?
    && s.phase.k == |CommitWrites(L, s.phase.base, s.view, s.lh)|
    && t == State(s.disk, s.disk, [], Running)
  }

  ghost predicate CrashStep(s: State, t: State)
  {
    t == State(s.disk, s.disk, [], Down)
  }

  ghost predicate BootStep(s: State, t: State)
  {
    s.phase.Down? && t == s.(phase := Recovering(s.disk, 0))
  }

  ghost predicate RecoveryWriteStep(L: Layout, s: State, t: State)
    requires Inv(L, s)
  {
    && s.phase.Recovering?
    && var ws := RecoveryWrites(L, s.phase.base);
       && s.phase.k < |ws|
       && t == s.(disk := s.disk[ws[s.phase.k].at := ws[s.phase.k].data],
                  phase := Recovering(s.phase.base, s.phase.k + 1))
  }

  ghost predicate EndRecoveryStep(L: Layout, s: State, t: State)
    requires Inv(L, s)
  {
    && s.phase.Recovering?
    && s.phase.k == |RecoveryWrites(L, s.phase.base)|
    && t == State(s.disk, s.disk, [], Running)
  }

  ghost predicate Next(L: Layout, s: State, t: State)
    requires Inv(L, s)
  {
    || (exists bno: nat, data: Block :: LogWriteStep(L, s, t, bno, data))
    || StartCommitStep(s, t)
    || CommitWriteStep(L, s, t)
    || EndCommitStep(L, s, t)
    || CrashStep(s, t)
    || BootStep(s, t)
    || RecoveryWriteStep(L, s, t)
    || EndRecoveryStep(L, s, t)
  }

  // ----- its invariant and its abstraction -----

  function Abs(L: Layout, s: State): (a: Abstract)
    requires Inv(L, s)
  {
    var durable := HomeOf(L, Recovered(L, s.disk));
    Abstract(durable, if s.phase.Running? || s.phase.Committing? then HomeOf(L, s.view) else durable)
  }

  // ----- the abstract machine -----

  ghost predicate AtomicWrite(a: Abstract, b: Abstract, at: Addr, data: Block)
  {
    at in a.volatile && b == a.(volatile := a.volatile[at := data])
  }

  ghost predicate AtomicNext(a: Abstract, b: Abstract)
  {
    || a == b
    || (exists at: Addr, data: Block :: AtomicWrite(a, b, at, data))
    || b == a.(durable := a.volatile)
    || b == a.(volatile := a.durable)
  }

  // ----- simulation -----

  lemma LogWriteRefines(L: Layout, s: State, t: State, bno: nat, data: Block)
    requires Inv(L, s) && LogWriteStep(L, s, t, bno, data)
    ensures Inv(L, t) && AtomicNext(Abs(L, s), Abs(L, t))
  {
    var lh := Absorb(s.lh, bno);
    assert Loggable(L, s.disk, lh);
    assert forall b :: b in s.lh ==> b in lh;
    assert Inv(L, t);
    assert HomeOf(L, t.view) == HomeOf(L, s.view)[L.Home(bno) := data];
    assert AtomicWrite(Abs(L, s), Abs(L, t), L.Home(bno), data);
  }

  /** One block write of commit() and what recovery would make of the disk before and after it. */
  lemma CommitTurn(L: Layout, base: Disk, view: Disk, lh: seq<nat>, k: nat, d: Disk, e: Disk)
    requires CommitStart(L, base, view, lh) && k < |CommitWrites(L, base, view, lh)|
    requires d == Apply(base, CommitWrites(L, base, view, lh)[..k])
    requires var w := CommitWrites(L, base, view, lh)[k]; e == d[w.at := w.data]
    ensures e == Apply(base, CommitWrites(L, base, view, lh)[..k + 1]) && WellFormed(L, d) && WellFormed(L, e)
    ensures HomeOf(L, Recovered(L, d)) == if k <= |lh| then HomeOf(L, base) else HomeOf(L, view)
    ensures HomeOf(L, Recovered(L, e)) == if k < |lh| then HomeOf(L, base) else HomeOf(L, view)
  {
    StepPrefix(base, CommitWrites(L, base, view, lh), k);
    CommitCrash(L, base, view, lh, k);
    CommitCrash(L, base, view, lh, k + 1);
  }

  /** The header write is the commit: every other write of commit() changes nothing. */
  lemma CommitWriteRefines(L: Layout, s: State, t: State)
    requires Inv(L, s) && CommitWriteStep(L, s, t)
    ensures Inv(L, t)
    ensures Abs(L, t) == if s.phase.k == |s.lh| then Abs(L, s).(durable := Abs(L, s).volatile) else Abs(L, s)
  {
    CommitTurn(L, s.phase.base, s.view, s.lh, s.phase.k, s.disk, t.disk);
  }

  lemma EndCommitRefines(L: Layout, s: State, t: State)
    requires Inv(L, s) && EndCommitStep(L, s, t)
    ensures Inv(L, t) && Abs(L, t) == Abs(L, s)
  {
    CommitCrash(L, s.phase.base, s.view, s.lh, s.phase.k);
  }

  lemma CrashRefines(L: Layout, s: State, t: State)
    requires Inv(L, s) && CrashStep(s, t)
    ensures Inv(L, t) && Abs(L, t) == Abs(L, s).(volatile := Abs(L, s).durable)
  {
  }

  lemma RecoveryWriteRefines(L: Layout, s: State, t: State)
    requires Inv(L, s) && RecoveryWriteStep(L, s, t)
    ensures Inv(L, t) && Abs(L, t) == Abs(L, s)
  {
    var ws := RecoveryWrites(L, s.phase.base);
    StepPrefix(s.phase.base, ws, s.phase.k);
    RecoveryCrash(L, s.phase.base, s.phase.k);
    RecoveryCrash(L, s.phase.base, s.phase.k + 1);
  }

  lemma EndRecoveryRefines(L: Layout, s: State, t: State)
    requires Inv(L, s) && EndRecoveryStep(L, s, t)
    ensures Inv(L, t) && Abs(L, t) == Abs(L, s)
  {
    var ws := RecoveryWrites(L, s.phase.base);
    assert ws[..|ws|] == ws;
    RecoveredShape(L, s.phase.base);
    EmptyLogRecovered(L, s.disk);
  }

  lemma StepRefines(L: Layout, s: State, t: State)
    requires Inv(L, s) && Next(L, s, t)
    ensures Inv(L, t) && AtomicNext(Abs(L, s), Abs(L, t))
  {
    if bno: nat, data: Block :| LogWriteStep(L, s, t, bno, data) {
      LogWriteRefines(L, s, t, bno, data);
    } else if StartCommitStep(s, t) {
      assert CommitWrites(L, s.disk, s.view, s.lh)[..0] == [];
    } else if CommitWriteStep(L, s, t) {
      CommitWriteRefines(L, s, t);
    } else if EndCommitStep(L, s, t) {
      EndCommitRefines(L, s, t);
    } else if CrashStep(s, t) {
      CrashRefines(L, s, t);
    } else if BootStep(s, t) {
      assert RecoveryWrites(L, s.disk)[..0] == [];
    } else if RecoveryWriteStep(L, s, t) {
      RecoveryWriteRefines(L, s, t);
    } else {
      EndRecoveryRefines(L, s, t);
    }
  }

  /** A run: each state steps to the next, starting where the invariant holds. */
  ghost predicate Run(L: Layout, states: seq<State>)
  {
    && |states| > 0 && Inv(L, states[0])
    && forall i :: 0 < i < |states| ==> Inv(L, states[i - 1]) ==> Next(L, states[i - 1], states[i])
  }

  lemma RunStep(L: Layout, states: seq<State>, i: nat)
    requires Run(L, states) && 0 < i < |states| && Inv(L, states[i - 1])
    ensures Next(L, states[i - 1], states[i])
  {
  }

  lemma {:induction false} RunInv(L: Layout, states: seq<State>, i: nat)
    requires Run(L, states) && i < |states|
    ensures Inv(L, states[i])
  {
    if i > 0 {
      RunInv(L, states, i - 1);
      StepRefines(L, states[i - 1], states[i]);
    }
  }

  /** No step lists a block twice. */
  lemma ListedOnce(L: Layout, s: State, t: State)
    requires Inv(L, s) && Next(L, s, t) && Distinct(s.lh)
    ensures Distinct(t.lh)
  {
    if bno: nat, data: Block :| LogWriteStep(L, s, t, bno, data) {
      Absorbed(s.lh, bno);
    }
  }

  lemma {:induction false} RunListedOnce(L: Layout, states: seq<State>, i: nat)
    requires Run(L, states) && i < |states| && Distinct(states[0].lh)
    ensures Distinct(states[i].lh)
  {
    if i > 0 {
      RunListedOnce(L, states, i - 1);
      RunInv(L, states, i - 1);
      ListedOnce(L, states[i - 1], states[i]);
    }
  }

  /** Every run, crashes and all, is a run of the atomic disk. */
  lemma RunRefines(L: Layout, states: seq<State>)
    requires Run(L, states)
    ensures forall i :: 0 <= i < |states| ==> Inv(L, states[i])
    ensures forall i :: 0 < i < |states| ==> AtomicNext(Abs(L, states[i - 1]), Abs(L, states[i]))
  {
    forall i: nat | i < |states| ensures Inv(L, states[i]) {
      RunInv(L, states, i);
    }
    forall i: nat | 0 < i < |states| ensures AtomicNext(Abs(L, states[i - 1]), Abs(L, states[i])) {
      StepRefines(L, states[i - 1], states[i]);
    }
  }

  /** The step that writes the header of a transaction. */
  predicate HeaderWrite(s: State, t: State)
  {
    s.phase.Committing? && s.phase.k == |s.lh| && t.phase.Committing?
  }

  lemma DurableKept(L: Layout, s: State, t: State)
    requires Inv(L, s) && Next(L, s, t) && !HeaderWrite(s, t)
    ensures Inv(L, t) && Abs(L, t).durable == Abs(L, s).durable
  {
    StepRefines(L, s, t);
    if CommitWriteStep(L, s, t) {
      CommitWriteRefines(L, s, t);
    } else if RecoveryWriteStep(L, s, t) {
      RecoveryWriteRefines(L, s, t);
    }
  }

  /** Durability: from any state of a run until the next header write, whatever else
      happens, the durable blocks stay what they are. */
  lemma {:induction false} Durability(L: Layout, states: seq<State>, i: nat, m: nat)
    requires Run(L, states) && i <= m < |states|
    requires forall j :: i < j <= m ==> !HeaderWrite(states[j - 1], states[j])
    ensures Inv(L, states[i]) && Inv(L, states[m]) && Abs(L, states[m]).durable == Abs(L, states[i]).durable
    decreases m
  {
    if i == m {
      RunInv(L, states, i);
    } else {
      Durability(L, states, i, m - 1);
      RunStep(L, states, m);
      assert !HeaderWrite(states[m - 1], states[m]);
      DurableKept(L, states[m - 1], states[m]);
    }
  }
}
