/** Which file system operations kern/log.c lets run at once: begin_op, log_write and end_op
    as steps under log.lock, interleaved over any number of processes. */
module LogAdmission {
  import opened RedoLog

  const MAXOPBLOCKS: nat := 10

  /** A process is outside the file system, asleep in begin_op, woken and about to test
      again, inside an operation that has added `used` log entries, or running commit()
      (`cleared` once lh.n is back to 0). */
  datatype Proc = Idle | Asleep | Woken | InOp(used: nat) | Committer(cleared: bool)

  datatype State = State(n: nat, outstanding: nat, committing: bool, procs: seq<Proc>)

  // ----- steps -----

  predicate MustWait(s: State)
  {
    s.committing || s.n + (s.outstanding + 1) * MAXOPBLOCKS > LOGSIZE
  }

  /** wakeup(&log) makes every sleeper test its condition again. */
  function WakeAll(procs: seq<Proc>): (r: seq<Proc>)
  {
    seq(|procs|, i requires 0 <= i < |procs| => if procs[i].Asleep? then Woken else procs[i])
  }

  /** One turn of begin_op's loop. */
  function BeginOp(s: State, p: nat): (t: State)
    requires p < |s.procs| && (s.procs[p].Idle? || s.procs[p].Woken?)
  {
    if MustWait(s) then s.(procs := s.procs[p := Asleep])
    else s.(outstanding := s.outstanding + 1, procs := s.procs[p := InOp(0)])
  }

  /** log_write's capacity test, made before looking for the block in the log. */
  predicate Refused(s: State, size: nat)
  {
    s.n >= LOGSIZE || s.n >= size - 1
  }

  /** log_write of a block that is not in the log yet, inside the operation's budget. */
  function AddEntry(s: State, p: nat): (t: State)
    requires p < |s.procs| && s.procs[p].InOp? && s.procs[p].used < MAXOPBLOCKS
  {
    s.(n := s.n + 1, procs := s.procs[p := InOp(s.procs[p].used + 1)])
  }

  /** end_op: the last operation out commits, the others let sleepers try again. */
  function EndOp(s: State, p: nat): (t: State)
    requires p < |s.procs| && s.procs[p].InOp? && s.outstanding > 0
  {
    if s.outstanding == 1 then
      s.(outstanding := 0, committing := true, procs := s.procs[p := Committer(false)])
    else
      s.(outstanding := s.outstanding - 1, procs := WakeAll(s.procs[p := Idle]))
  }

  /** commit() empties the log, not holding log.lock. */
  function CommitClear(s: State, p: nat): (t: State)
    requires p < |s.procs| && s.procs[p] == Committer(false)
  {
    s.(n := 0, procs := s.procs[p := Committer(true)])
  }

  function CommitDone(s: State, p: nat): (t: State)
    requires p < |s.procs| && s.procs[p] == Committer(true)
  {
    s.(committing := false, procs := WakeAll(s.procs[p := Idle]))
  }

  ghost predicate Next(s: State, t: State, size: nat, p: nat)
  {
    && p < |s.procs|
    && match s.procs[p]
       case Idle => t == BeginOp(s, p)
       case Asleep => false
       case Woken => t == BeginOp(s, p)
       case InOp(used) =>
         || (s.outstanding > 0 && t == EndOp(s, p))
         || (used < MAXOPBLOCKS && !Refused(s, size) && t == AddEntry(s, p))
       case Committer(cleared) => t == if cleared then CommitDone(s, p) else CommitClear(s, p)
  }

  predicate Init(s: State)
  {
    s == State(0, 0, false, s.procs) && forall i :: 0 <= i < |s.procs| ==> s.procs[i].Idle?
  }

  // ----- counting -----

  function Running(procs: seq<Proc>): (r: nat)
  {
    if procs == [] then 0
    else Running(procs[..|procs| - 1]) + if procs[|procs| - 1].InOp? then 1 else 0
  }

  function Budget(p: Proc): (r: int)
  {
    if p.InOp? then MAXOPBLOCKS - p.used else 0
  }

  /** The log entries that the running operations may still add. */
  function Unused(procs: seq<Proc>): (r: int)
  {
    if procs == [] then 0 else Unused(procs[..|procs| - 1]) + Budget(procs[|procs| - 1])
  }

  function Committers(procs: seq<Proc>): (r: nat)
  {
    if procs == [] then 0
    else Committers(procs[..|procs| - 1]) + if procs[|procs| - 1].Committer? then 1 else 0
  }

  lemma {:induction false} CountUpdate(procs: seq<Proc>, p: nat, q: Proc)
    requires p < |procs|
    ensures Running(procs[p := q]) == Running(procs) - (if procs[p].InOp? then 1 else 0) + (if q.InOp? then 1 else 0)
    ensures Unused(procs[p := q]) == Unused(procs) - Budget(procs[p]) + Budget(q)
    ensures Committers(procs[p := q]) ==
            Committers(procs) - (if procs[p].Committer? then 1 else 0) + (if q.Committer? then 1 else 0)
  {
    var m := |procs| - 1;
    if p == m {
      assert procs[p := q][..m] == procs[..m];
    } else {
      assert procs[p := q][..m] == procs[..m][p := q];
      CountUpdate(procs[..m], p, q);
    }
  }

  lemma {:induction false} CountWake(procs: seq<Proc>)
    ensures Running(WakeAll(procs)) == Running(procs) && Unused(WakeAll(procs)) == Unused(procs)
    ensures Committers(WakeAll(procs)) == Committers(procs)
  {
    if procs != [] {
      var m := |procs| - 1;
      assert WakeAll(procs)[..m] == WakeAll(procs[..m]);
      CountWake(procs[..m]);
    }
  }

  lemma {:induction false} CountBounds(procs: seq<Proc>)
    requires forall i :: 0 <= i < |procs| && procs[i].InOp? ==> procs[i].used <= MAXOPBLOCKS
    ensures 0 <= Unused(procs) <= Running(procs) * MAXOPBLOCKS
    ensures forall i :: 0 <= i < |procs| ==> Unused(procs) >= Budget(procs[i])
    ensures Running(procs) == 0 ==> forall i :: 0 <= i < |procs| ==> !procs[i].InOp?
    ensures Committers(procs) == 0 ==> forall i :: 0 <= i < |procs| ==> !procs[i].Committer?
  {
    if procs != [] {
      var m := |procs| - 1;
      CountBounds(procs[..m]);
      forall i | 0 <= i < |procs|
        ensures Unused(procs) >= Budget(procs[i])
        ensures Running(procs) == 0 ==> !procs[i].InOp?
        ensures Committers(procs) == 0 ==> !procs[i].Committer?
      {
        if i < m {
          assert procs[..m][i] == procs[i];
        }
      }
    }
  }

  // ----- the invariant -----

  ghost predicate Inv(s: State)
  {
    && (forall i :: 0 <= i < |s.procs| && s.procs[i].InOp? ==> s.procs[i].used <= MAXOPBLOCKS)
    && s.outstanding == Running(s.procs)
    && Committers(s.procs) == (if s.committing then 1 else 0)
    && (s.committing ==> s.outstanding == 0)
    && s.n + Unused(s.procs) <= LOGSIZE
    && (forall i :: 0 <= i < |s.procs| && s.procs[i].Asleep? ==> MustWait(s))
    && (s.outstanding == 0 && !s.committing ==> s.n == 0)
    && (forall i :: 0 <= i < |s.procs| && s.procs[i] == Committer(true) ==> s.n == 0)
  }

  lemma BeginKeeps(s: State, p: nat)
    requires Inv(s) && p < |s.procs| && (s.procs[p].Idle? || s.procs[p].Woken?)
    ensures Inv(BeginOp(s, p))
  {
    CountUpdate(s.procs, p, Asleep);
    CountUpdate(s.procs, p, InOp(0));
    CountBounds(s.procs);
  }

  lemma AddKeeps(s: State, p: nat)
    requires Inv(s) && p < |s.procs| && s.procs[p].InOp? && s.procs[p].used < MAXOPBLOCKS
    ensures Inv(AddEntry(s, p))
  {
    CountUpdate(s.procs, p, InOp(s.procs[p].used + 1));
    CountBounds(s.procs);
  }

  lemma NoOtherCommitter(s: State)
    requires Inv(s) && !s.committing
    ensures forall i :: 0 <= i < |s.procs| ==> !s.procs[i].Committer?
  {
    CountBounds(s.procs);
  }

  lemma EndKeeps(s: State, p: nat)
    requires Inv(s) && p < |s.procs| && s.procs[p].InOp? && s.outstanding > 0
    ensures Inv(EndOp(s, p))
  {
    CountUpdate(s.procs, p, Committer(false));
    CountUpdate(s.procs, p, Idle);
    CountWake(s.procs[p := Idle]);
    CountBounds(s.procs);
    NoOtherCommitter(s);
  }

  lemma CommitKeeps(s: State, p: nat)
    requires Inv(s) && p < |s.procs| && s.procs[p].Committer?
    ensures !s.procs[p].cleared ==> Inv(CommitClear(s, p))
    ensures s.procs[p].cleared ==> Inv(CommitDone(s, p))
  {
    CountUpdate(s.procs, p, Committer(true));
    CountUpdate(s.procs, p, Idle);
    CountWake(s.procs[p := Idle]);
    CountBounds(s.procs);
    CountBounds(s.procs[p := Idle]);
  }

  lemma StepKeeps(s: State, t: State, size: nat, p: nat)
    requires Inv(s) && Next(s, t, size, p)
    ensures Inv(t) && |t.procs| == |s.procs|
  {
    match s.procs[p]
    case Idle => BeginKeeps(s, p);
    case Woken => BeginKeeps(s, p);
    case InOp(used) =>
      if s.outstanding > 0 && t == EndOp(s, p) {
        EndKeeps(s, p);
      } else {
        AddKeeps(s, p);
      }
    case Committer(_) => CommitKeeps(s, p);
  }

  lemma {:induction false} InitInv(s: State)
    requires Init(s)
    ensures Inv(s)
    decreases |s.procs|
  {
    if s.procs != [] {
      var m := |s.procs| - 1;
      InitInv(s.(procs := s.procs[..m]));
    }
  }

  /** A run: states[i] steps to states[i + 1] by the process who[i]. */
  ghost predicate Run(states: seq<State>, who: seq<nat>, size: nat)
  {
    && |states| == |who| + 1 && Init(states[0])
    && forall i :: 0 <= i < |who| ==> Next(states[i], states[i + 1], size, who[i])
  }

  /** Every state of every run: the log has room for all that the running operations may
      still write; commit runs alone; a sleeper still has cause to sleep; and when nothing
      is running or committing, the log is empty and nobody is asleep. */
  lemma {:induction false} Admission(states: seq<State>, who: seq<nat>, size: nat, i: nat)
    requires Run(states, who, size) && i < |states|
    ensures Inv(states[i])
    ensures states[i].n + Unused(states[i].procs) <= LOGSIZE
    ensures states[i].committing ==> states[i].outstanding == 0
    ensures states[i].outstanding == 0 && !states[i].committing ==>
      states[i].n == 0 && Asleep !in states[i].procs
  {
    if i == 0 {
      InitInv(states[0]);
    } else {
      Admission(states, who, size, i - 1);
      StepKeeps(states[i - 1], states[i], size, who[i - 1]);
    }
  }

  lemma {:induction false} CountZero(procs: seq<Proc>)
    requires forall i :: 0 <= i < |procs| ==> !procs[i].InOp? && !procs[i].Committer?
    ensures Running(procs) == 0 && Committers(procs) == 0
  {
    if procs != [] {
      CountZero(procs[..|procs| - 1]);
    }
  }

  /** No operation is stuck: while anyone sleeps, somebody is inside an operation or
      committing, and so will wake the sleepers. */
  lemma NobodyStuck(s: State)
    requires Inv(s) && Asleep in s.procs
    ensures exists i :: 0 <= i < |s.procs| && (s.procs[i].InOp? || s.procs[i].Committer?)
  {
    if forall i :: 0 <= i < |s.procs| ==> !s.procs[i].InOp? && !s.procs[i].Committer? {
      CountZero(s.procs);
    }
  }

  // ----- log_write's panic -----

  function Clamp(x: int): nat
  {
    if x < 0 then 0 else if x > MAXOPBLOCKS then MAXOPBLOCKS else x
  }

  /** Three operations that have added j entries between them, the first one first. */
  function Filled(j: nat): State
  {
    State(j, 3, false, [InOp(Clamp(j)), InOp(Clamp(j - MAXOPBLOCKS)), InOp(Clamp(j - 2 * MAXOPBLOCKS))])
  }

  lemma RunExtends(states: seq<State>, who: seq<nat>, size: nat, t: State, p: nat)
    requires Run(states, who, size) && Next(states[|who|], t, size, p)
    ensures Run(states + [t], who + [p], size)
  {
    var st, wh := states + [t], who + [p];
    forall i | 0 <= i < |wh| ensures Next(st[i], st[i + 1], size, wh[i]) {
      assert st[i] == states[i];
      if i < |who| {
        assert st[i + 1] == states[i + 1] && wh[i] == who[i];
      }
    }
  }

  lemma ThreeBegin(size: nat) returns (states: seq<State>, who: seq<nat>)
    ensures Run(states, who, size) && states[|who|] == Filled(0)
  {
    var s0 := State(0, 0, false, [Idle, Idle, Idle]);
    var s1 := State(0, 1, false, [InOp(0), Idle, Idle]);
    var s2 := State(0, 2, false, [InOp(0), InOp(0), Idle]);
    states, who := [s0], [];
    assert BeginOp(s0, 0) == s1;
    RunExtends(states, who, size, s1, 0);
    states, who := states + [s1], who + [0];
    assert BeginOp(s1, 1) == s2;
    RunExtends(states, who, size, s2, 1);
    states, who := states + [s2], who + [1];
    assert BeginOp(s2, 2) == Filled(0);
    RunExtends(states, who, size, Filled(0), 2);
    states, who := states + [Filled(0)], who + [2];
  }

  lemma {:induction false} FilledReachable(j: nat, size: nat) returns (states: seq<State>, who: seq<nat>)
    requires j <= LOGSIZE && j <= size - 1
    ensures Run(states, who, size) && states[|who|] == Filled(j)
  {
    if j == 0 {
      states, who := ThreeBegin(size);
    } else {
      states, who := FilledReachable(j - 1, size);
      var p := (j - 1) / MAXOPBLOCKS;
      assert AddEntry(Filled(j - 1), p) == Filled(j);
      RunExtends(states, who, size, Filled(j), p);
      states, who := states + [Filled(j)], who + [p];
    }
  }

  ghost predicate RefusesInBudget(states: seq<State>, who: seq<nat>, size: nat, p: nat)
  {
    && Run(states, who, size)
    && var s := states[|who|];
       p < |s.procs| && s.procs[p].InOp? && s.procs[p].used < MAXOPBLOCKS && Refused(s, size)
  }

  /** Admission does not rule out "too big a transaction": an operation inside its budget
      can be refused exactly when log.size <= LOGSIZE, which is how mkfs makes the log. */
  lemma RefusalExactly(size: nat)
    requires size > 0
    ensures (exists states: seq<State>, who: seq<nat>, p: nat :: RefusesInBudget(states, who, size, p)) <==>
      size <= LOGSIZE
  {
    if size <= LOGSIZE {
      var states, who := FilledReachable(size - 1, size);
      assert RefusesInBudget(states, who, size, (size - 1) / MAXOPBLOCKS);
    }
    forall states: seq<State>, who: seq<nat>, p: nat | RefusesInBudget(states, who, size, p)
      ensures size <= LOGSIZE
    {
      Admission(states, who, size, |who|);
      CountBounds(states[|who|].procs);
    }
  }

  /** Because the test comes before absorption, a full log refuses every block, even one it
      already lists: for every log size some run gets there inside an operation. */
  lemma FullLogRefuses(size: nat)
    requires size > 0
    ensures exists states: seq<State>, who: seq<nat> ::
      && Run(states, who, size) && Refused(states[|who|], size)
      && states[|who|].outstanding == 3
  {
    var states, who := FilledReachable(if size - 1 < LOGSIZE then size - 1 else LOGSIZE, size);
    assert Run(states, who, size) && Refused(states[|who|], size);
  }
}
