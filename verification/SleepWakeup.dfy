/** sleep and wakeup of kern/proc.c with a condition guarded by a lock lk, taken apart into
    single steps over any number of processes: a sleeper that tested the condition while
    holding lk cannot miss the wakeup of a process that changes it while holding lk. */
module SleepWakeup {
  import opened Options
  import Proc

  /** Where a process is.  A sleeper goes Out, HasLk, Found (condition false), HasBoth (took
      ptable.lock), HasPt (released lk), Asleep, Woken, Out.  A waker goes HasLk, Changed (made
      the condition true), Waking (took ptable.lock), HasLk. */
  datatype Pc = Out | HasLk | Found | HasBoth | HasPt | Asleep | Woken | Changed | Waking

  datatype State = State(pcs: seq<Pc>, cond: bool, lk: Option<nat>, pt: Option<nat>)

  predicate HoldsLk(pc: Pc)
  {
    pc.HasLk? || pc.Found? || pc.HasBoth? || pc.Changed? || pc.Waking?
  }

  predicate HoldsPt(pc: Pc)
  {
    pc.HasBoth? || pc.HasPt? || pc.Waking?
  }

  /** wakeup1: everybody asleep on the channel becomes runnable. */
  function WakeAll(pcs: seq<Pc>): (r: seq<Pc>)
  {
    seq(|pcs|, i requires 0 <= i < |pcs| => if pcs[i].Asleep? then Woken else pcs[i])
  }

  ghost predicate Next(s: State, t: State, p: nat)
  {
    && p < |s.pcs|
    && match s.pcs[p]
       case Out => s.lk.None? && t == s.(pcs := s.pcs[p := HasLk], lk := Some(p))      // acquire(lk)
       case HasLk =>
         || t == s.(pcs := s.pcs[p := Out], lk := None)                               // release(lk)
         || t == s.(cond := false)                                                    // use it up
         || t == s.(cond := true, pcs := s.pcs[p := Changed])                         // make it true
         || (!s.cond && t == s.(pcs := s.pcs[p := Found]))                            // test it
       case Found => s.pt.None? && t == s.(pcs := s.pcs[p := HasBoth], pt := Some(p)) // acquire(&ptable.lock)
       case HasBoth => t == s.(pcs := s.pcs[p := HasPt], lk := None)                  // release(lk)
       case HasPt => t == s.(pcs := s.pcs[p := Asleep], pt := None)                   // SLEEPING; sched
       case Asleep => false
       case Woken => t == s.(pcs := s.pcs[p := Out])                                  // back from sched
       case Changed => s.pt.None? && t == s.(pcs := s.pcs[p := Waking], pt := Some(p))
       case Waking => t == s.(pcs := WakeAll(s.pcs)[p := HasLk], pt := None)          // wakeup1; release
  }

  ghost predicate LocksOk(s: State, p: nat)
    requires p < |s.pcs|
  {
    (HoldsLk(s.pcs[p]) <==> s.lk == Some(p)) && (HoldsPt(s.pcs[p]) <==> s.pt == Some(p))
  }

  ghost predicate WakeupPending(s: State)
  {
    s.lk.Some? && s.lk.value < |s.pcs| && (s.pcs[s.lk.value].Changed? || s.pcs[s.lk.value].Waking?)
  }

  /** Whoever is about to sleep or asleep: the condition is still false, or a process that
      has made it true holds lk and has yet to wake the sleepers. */
  ghost predicate NotMissed(s: State, p: nat)
    requires p < |s.pcs|
  {
    && (s.pcs[p].Found? || s.pcs[p].HasBoth? ==> !s.cond)
    && (s.pcs[p].HasPt? || s.pcs[p].Asleep? ==> s.cond ==> WakeupPending(s))
  }

  ghost predicate Inv(s: State)
  {
    && (s.lk.Some? ==> s.lk.value < |s.pcs|) && (s.pt.Some? ==> s.pt.value < |s.pcs|)
    && (forall p: nat :: p < |s.pcs| ==> LocksOk(s, p) && NotMissed(s, p))
  }

  lemma StepKeeps(s: State, t: State, p: nat)
    requires Inv(s) && Next(s, t, p)
    ensures Inv(t) && |t.pcs| == |s.pcs|
  {
    assert LocksOk(s, p) && NotMissed(s, p);
    forall q: nat | q < |t.pcs| ensures LocksOk(t, q) && NotMissed(t, q) {
      assert LocksOk(s, q) && NotMissed(s, q);
    }
  }

  ghost predicate Run(states: seq<State>, who: seq<nat>)
  {
    && |states| == |who| + 1
    && states[0].lk.None? && states[0].pt.None? && (forall p: nat :: p < |states[0].pcs| ==> states[0].pcs[p].Out?)
    && forall i :: 0 <= i < |who| ==> Next(states[i], states[i + 1], who[i])
  }

  lemma StartInv(s: State)
    requires s.lk.None? && s.pt.None? && (forall p: nat :: p < |s.pcs| ==> s.pcs[p].Out?)
    ensures Inv(s)
  {
    forall p: nat | p < |s.pcs| ensures LocksOk(s, p) && NotMissed(s, p) {
      assert s.pcs[p].Out?;
    }
  }

  lemma {:induction false} RunInv(states: seq<State>, who: seq<nat>, i: nat)
    requires Run(states, who) && i < |states|
    ensures Inv(states[i])
  {
    if i == 0 {
      StartInv(states[0]);
    } else {
      RunInv(states, who, i - 1);
      StepKeeps(states[i - 1], states[i], who[i - 1]);
    }
  }

  /** No lost wakeup: in every interleaving, whenever lk is free nobody is asleep, or about to
      be, on a condition that holds. */
  lemma NoLostWakeup(states: seq<State>, who: seq<nat>, i: nat, p: nat)
    requires Run(states, who) && i < |states| && p < |states[i].pcs|
    requires states[i].lk.None? && (states[i].pcs[p].Asleep? || states[i].pcs[p].HasPt?)
    ensures !states[i].cond
  {
    RunInv(states, who, i);
    assert NotMissed(states[i], p);
  }

  /** And the pending wakeup does reach it: the wakeup step leaves nobody asleep. */
  lemma WakeupReachesAll(states: seq<State>, who: seq<nat>, i: nat, p: nat)
    requires Run(states, who) && i < |who| && who[i] < |states[i].pcs| && states[i].pcs[who[i]].Waking?
    requires p < |states[i + 1].pcs|
    ensures !states[i + 1].pcs[p].Asleep? && !states[i + 1].pcs[p].HasPt?
  {
    RunInv(states, who, i);
    assert Next(states[i], states[i + 1], who[i]);
    assert LocksOk(states[i], p) && LocksOk(states[i], who[i]);
  }

  // ----- the same in the process table -----

  ghost predicate SleepsOn(s: Proc.Slot, chan: Proc.Chan)
  {
    s.state == Proc.SLEEPING && s.chan == chan
  }

  /** Process q sleeps on the channel in the table exactly if it is asleep here. */
  ghost predicate Shows(ps: seq<Proc.Slot>, chan: Proc.Chan, pcs: seq<Pc>)
  {
    && |ps| == |pcs|
    && forall q: nat :: q < |ps| ==> (SleepsOn(ps[q], chan) <==> pcs[q].Asleep?)
  }

  /** wakeup1 on the table is the wakeup of everybody asleep here, and makes them runnable. */
  lemma WakeAllIsWoken(ps: seq<Proc.Slot>, chan: Proc.Chan, pcs: seq<Pc>)
    requires Shows(ps, chan, pcs)
    ensures Shows(Proc.Woken(ps, chan), chan, WakeAll(pcs))
    ensures forall q: nat :: q < |ps| && pcs[q].Asleep? ==> Proc.Woken(ps, chan)[q] == ps[q].(state := Proc.RUNNABLE)
    ensures forall q: nat :: q < |ps| && !pcs[q].Asleep? ==> Proc.Woken(ps, chan)[q] == ps[q]
  {
    forall q: nat | q < |ps|
      ensures SleepsOn(Proc.Woken(ps, chan)[q], chan) <==> WakeAll(pcs)[q].Asleep?
      ensures pcs[q].Asleep? ==> Proc.Woken(ps, chan)[q] == ps[q].(state := Proc.RUNNABLE)
      ensures !pcs[q].Asleep? ==> Proc.Woken(ps, chan)[q] == ps[q]
    {
      assert SleepsOn(ps[q], chan) <==> pcs[q].Asleep?;
    }
  }

  /** What a step of process p does to the table: sleep writes its slot, wakeup is wakeup1, and any
      other step leaves who sleeps on the channel as it is. */
  ghost predicate TableStep(s: State, p: nat, chan: Proc.Chan, ps: seq<Proc.Slot>, ps': seq<Proc.Slot>)
    requires p < |s.pcs| == |ps|
  {
    if s.pcs[p].HasPt? then ps' == ps[p := ps[p].(chan := chan, state := Proc.SLEEPING)]
    else if s.pcs[p].Waking? then ps' == Proc.Woken(ps, chan)
    else
      && |ps'| == |ps|
      && forall q: nat :: q < |ps| ==>
           (SleepsOn(ps'[q], chan) <==> SleepsOn(ps[q], chan))
  }

  lemma StepShown(s: State, t: State, p: nat, chan: Proc.Chan, ps: seq<Proc.Slot>, ps': seq<Proc.Slot>)
    requires Inv(s) && Next(s, t, p) && Shows(ps, chan, s.pcs) && TableStep(s, p, chan, ps, ps')
    ensures Shows(ps', chan, t.pcs)
  {
    assert LocksOk(s, p);
    if s.pcs[p].Waking? {
      WakeAllIsWoken(ps, chan, s.pcs);
    }
  }

  /** A run together with the tables it goes through. */
  ghost predicate TableRun(states: seq<State>, who: seq<nat>, chan: Proc.Chan, tables: seq<seq<Proc.Slot>>)
  {
    && Run(states, who) && |tables| == |states|
    && (forall i :: 0 <= i < |states| ==> |tables[i]| == |states[0].pcs| == |states[i].pcs|)
    && Shows(tables[0], chan, states[0].pcs)
    && forall i :: 0 <= i < |who| ==> TableStep(states[i], who[i], chan, tables[i], tables[i + 1])
  }

  lemma {:induction false} RunShown(states: seq<State>, who: seq<nat>, chan: Proc.Chan,
                                    tables: seq<seq<Proc.Slot>>, i: nat)
    requires TableRun(states, who, chan, tables) && i < |states|
    ensures Shows(tables[i], chan, states[i].pcs)
  {
    if i > 0 {
      RunShown(states, who, chan, tables, i - 1);
      RunInv(states, who, i - 1);
      assert Next(states[i - 1], states[i], who[i - 1]);
      assert TableStep(states[i - 1], who[i - 1], chan, tables[i - 1], tables[i]);
      StepShown(states[i - 1], states[i], who[i - 1], chan, tables[i - 1], tables[i]);
    }
  }

  /** No lost wakeup, told by the table: with lk free, no process sleeps on the channel of a
      condition that holds.  The wakeups of the run are those of wakeup1. */
  lemma NoLostWakeupInTable(states: seq<State>, who: seq<nat>, chan: Proc.Chan, tables: seq<seq<Proc.Slot>>,
                            i: nat, q: nat)
    requires TableRun(states, who, chan, tables) && i < |states| && q < |tables[i]|
    requires states[i].lk.None? && tables[i][q].state == Proc.SLEEPING && tables[i][q].chan == chan
    ensures !states[i].cond
  {
    RunShown(states, who, chan, tables, i);
    NoLostWakeup(states, who, i, q);
  }

  /** And the wakeup step makes every process that slept on the channel runnable. */
  lemma WakeupReachesTable(states: seq<State>, who: seq<nat>, chan: Proc.Chan, tables: seq<seq<Proc.Slot>>,
                           i: nat, q: nat)
    requires TableRun(states, who, chan, tables) && i < |who| && q < |tables[i]|
    requires who[i] < |states[i].pcs| && states[i].pcs[who[i]].Waking?
    ensures q < |tables[i + 1]|
    ensures tables[i][q].state == Proc.SLEEPING && tables[i][q].chan == chan ==>
      tables[i + 1][q] == tables[i][q].(state := Proc.RUNNABLE)
    ensures !(tables[i][q].state == Proc.SLEEPING && tables[i][q].chan == chan) ==> tables[i + 1][q] == tables[i][q]
  {
    RunShown(states, who, chan, tables, i);
    WakeAllIsWoken(tables[i], chan, states[i].pcs);
    assert TableStep(states[i], who[i], chan, tables[i], tables[i + 1]);
    assert SleepsOn(tables[i][q], chan) <==> states[i].pcs[q].Asleep?;
  }
}
