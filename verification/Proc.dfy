/** The process table of kern/proc.c: what each operation does to it while ptable.lock is
    held, as functions of the table and as loops over it. */
module Proc {
  import opened Options

  datatype ProcState = UNUSED | EMBRYO | SLEEPING | RUNNABLE | RUNNING | ZOMBIE

  /** What a process sleeps on: the address of a process (in wait) or of something else. */
  datatype Chan = NoChan | OfProc(p: nat) | OfOther(id: nat)

  /** A slot of the table.  `saved` says that p->context holds the process's registers;
      `building` is the slot that a process in fork is filling in. */
  datatype Slot = Slot(state: ProcState, pid: nat, parent: Option<nat>, chan: Chan, killed: bool,
                       saved: bool, building: Option<nat>)

  // ----- wakeup1 -----

  function Woken(ps: seq<Slot>, chan: Chan): (r: seq<Slot>)
  {
    seq(|ps|, i requires 0 <= i < |ps| =>
      if ps[i].state == SLEEPING && ps[i].chan == chan then ps[i].(state := RUNNABLE) else ps[i])
  }

  // ----- exit -----

  function ParentChan(parent: Option<nat>): Chan
  {
    if parent.Some? then OfProc(parent.value) else NoChan
  }

  predicate IsChild(ps: seq<Slot>, i: nat, p: nat)
    requires i < |ps|
  {
    ps[i].parent == Some(p)
  }

  /** The first k slots' share of passing p's children to init. */
  function Adopted(ps: seq<Slot>, p: nat, init: nat, k: nat): (r: seq<Slot>)
    requires k <= |ps|
    ensures |r| == |ps|
  {
    seq(|ps|, i requires 0 <= i < |ps| =>
      if i < k && IsChild(ps, i, p) then ps[i].(parent := Some(init)) else ps[i])
  }

  predicate HasZombie(ps: seq<Slot>, p: nat, k: nat)
    requires k <= |ps|
  {
    exists i: nat :: i < k && IsChild(ps, i, p) && ps[i].state == ZOMBIE
  }

  /** exit: wake the parent, pass the children to init (waking it if one has already
      exited), become a zombie. */
  function Exited(ps: seq<Slot>, p: nat, init: nat): (r: seq<Slot>)
    requires p < |ps|
  {
    var a := Woken(ps, ParentChan(ps[p].parent));
    var b := Adopted(a, p, init, |a|);
    var c := if HasZombie(a, p, |a|) then Woken(b, OfProc(init)) else b;
    c[p := c[p].(state := ZOMBIE)]
  }

  /** Does exit of p wake the sleeper in slot i?  It wakes who sleeps on p's parent, and who sleeps
      on init if a child of p has already exited. */
  ghost predicate WakesUp(ps: seq<Slot>, p: nat, init: nat, i: nat)
    requires p < |ps| && i < |ps|
  {
    || (ps[p].parent.Some? && ps[i].chan == OfProc(ps[p].parent.value))
    || (ps[p].parent.None? && ps[i].chan == NoChan)
    || (ps[i].chan == OfProc(init) && exists j: nat :: j < |ps| && ps[j].parent == Some(p) && ps[j].state == ZOMBIE)
  }

  /** Slot i after exit of p, told slot by slot: children of p are init's, p is a zombie, and all
      else is kept. */
  ghost predicate AfterExit(ps: seq<Slot>, p: nat, init: nat, i: nat, e: Slot)
    requires p < |ps| && i < |ps|
  {
    && e.parent == (if ps[i].parent == Some(p) then Some(init) else ps[i].parent)
    && e.state == (if i == p then ZOMBIE
                   else if ps[i].state == SLEEPING && WakesUp(ps, p, init, i) then RUNNABLE else ps[i].state)
    && e == ps[i].(parent := e.parent, state := e.state)
  }

  /** What exit does to each slot. */
  lemma ExitedAt(ps: seq<Slot>, p: nat, init: nat, i: nat)
    requires p < |ps| && i < |ps|
    ensures |Exited(ps, p, init)| == |ps| && AfterExit(ps, p, init, i, Exited(ps, p, init)[i])
  {
    var a := Woken(ps, ParentChan(ps[p].parent));
    assert HasZombie(a, p, |a|) <==> HasZombie(ps, p, |ps|) by {
      assert forall j: nat :: j < |ps| ==> (IsChild(a, j, p) <==> IsChild(ps, j, p));
      assert forall j: nat :: j < |ps| ==> (a[j].state == ZOMBIE <==> ps[j].state == ZOMBIE);
    }
    if HasZombie(ps, p, |ps|) {
      var j: nat :| j < |ps| && IsChild(ps, j, p) && ps[j].state == ZOMBIE;
      assert ps[j].parent == Some(p);
    }
    if exists j: nat :: j < |ps| && ps[j].parent == Some(p) && ps[j].state == ZOMBIE {
      var j: nat :| j < |ps| && ps[j].parent == Some(p) && ps[j].state == ZOMBIE;
      assert IsChild(ps, j, p);
    }
  }

  // ----- wait -----

  datatype WaitResult = Reaped(q: nat) | NoChildren | GoesToSleep

  function Emptied(s: Slot): Slot
  {
    s.(state := UNUSED, pid := 0, parent := None, killed := false)
  }

  /** The table after i turns of exit's loop. */
  ghost function Adopting(a: seq<Slot>, p: nat, init: nat, i: nat): (r: seq<Slot>)
    requires i <= |a|
  {
    if HasZombie(a, p, i) then Woken(Adopted(a, p, init, i), OfProc(init)) else Adopted(a, p, init, i)
  }

  /** One turn of exit's loop commutes with the wakeups it has done. */
  lemma AdoptOne(a: seq<Slot>, p: nat, init: nat, i: nat)
    requires i < |a|
    ensures HasZombie(a, p, i + 1) <==> HasZombie(a, p, i) || (IsChild(a, i, p) && a[i].state == ZOMBIE)
    ensures Adopted(a, p, init, i + 1) ==
            if IsChild(a, i, p) then Adopted(a, p, init, i)[i := a[i].(parent := Some(init))]
              else Adopted(a, p, init, i)
    ensures Woken(Adopted(a, p, init, i), OfProc(init))[i].parent == a[i].parent
    ensures Woken(Woken(Adopted(a, p, init, i + 1), OfProc(init)), OfProc(init)) ==
      Woken(Adopted(a, p, init, i + 1), OfProc(init))
    ensures IsChild(a, i, p) ==>
      var w := Woken(Adopted(a, p, init, i), OfProc(init));
      w[i := w[i].(parent := Some(init))] == Woken(Adopted(a, p, init, i + 1), OfProc(init))
  {
  }

  class ProcTable {
    const proc: array<Slot>
    var nextpid: nat

    constructor (n: nat)
      ensures fresh(proc) && proc.Length == n && nextpid == 1
      ensures forall i :: 0 <= i < n ==> proc[i] == Slot(UNUSED, 0, None, NoChan, false, false, None)
    {
      proc := new Slot[n](_ => Slot(UNUSED, 0, None, NoChan, false, false, None));
      nextpid := 1;
    }

    /** wakeup1: every process that sleeps on the channel, whatever that is, is made runnable and
        keeps all else; nothing else changes. */
    method Wakeup1(chan: Chan)
      modifies proc
      ensures proc[..] == Woken(old(proc[..]), chan)
      ensures forall i :: 0 <= i < proc.Length && old(proc[i].state) == SLEEPING && old(proc[i].chan) == chan ==>
        proc[i] == old(proc[i]).(state := RUNNABLE)
      ensures forall i :: 0 <= i < proc.Length && !(old(proc[i].state) == SLEEPING && old(proc[i].chan) == chan) ==>
        proc[i] == old(proc[i])
    {
      var i := 0;
      while i < proc.Length
        invariant 0 <= i <= proc.Length
        invariant forall j :: 0 <= j < i ==> proc[j] == Woken(old(proc[..]), chan)[j]
        invariant forall j :: i <= j < proc.Length ==> proc[j] == old(proc[j])
      {
        if proc[i].state == SLEEPING && proc[i].chan == chan {
          proc[i] := proc[i].(state := RUNNABLE);
        }
        i := i + 1;
      }
    }

    /** allocproc's scan: the first unused slot becomes an embryo with a fresh pid. */
    method Allocproc() returns (r: Option<nat>)
      modifies this`nextpid, proc
      ensures r.None? ==> proc[..] == old(proc[..]) && nextpid == old(nextpid)
      ensures r.None? ==> forall i :: 0 <= i < proc.Length ==> proc[i].state != UNUSED
      ensures r.Some? ==>
        && r.value < proc.Length && old(proc[r.value].state) == UNUSED
        && (forall j :: 0 <= j < r.value ==> old(proc[j].state) != UNUSED)
        && proc[..] == old(proc[..])[r.value := old(proc[r.value]).(state := EMBRYO, pid := old(nextpid),
          saved := true)]
        && nextpid == old(nextpid) + 1
    {
      var i := 0;
      while i < proc.Length
        invariant 0 <= i <= proc.Length && proc[..] == old(proc[..]) && nextpid == old(nextpid)
        invariant forall j :: 0 <= j < i ==> proc[j].state != UNUSED
      {
        if proc[i].state == UNUSED {
          proc[i] := proc[i].(state := EMBRYO, pid := nextpid, saved := true);
          nextpid := nextpid + 1;
          return Some(i);
        }
        i := i + 1;
      }
      return None;
    }

    /** One turn of exit's loop: slot i is passed to init if p is its parent. */
    method Adopt(p: nat, init: nat, i: nat, ghost a: seq<Slot>)
      requires i < proc.Length == |a| && p != init
      requires proc[..] == Adopting(a, p, init, i)
      modifies proc
      ensures proc[..] == Adopting(a, p, init, i + 1)
    {
      ghost var before := proc[..];
      AdoptOne(a, p, init, i);
      if proc[i].parent == Some(p) {
        proc[i] := proc[i].(parent := Some(init));
        assert proc[..] == before[i := before[i].(parent := Some(init))];
        if proc[i].state == ZOMBIE {
          Wakeup1(OfProc(init));
        }
      }
    }

    /** The table part of exit by process p. */
    method Exit(p: nat, init: nat)
      requires p < proc.Length && p != init
      modifies proc
      ensures proc[..] == Exited(old(proc[..]), p, init)
    {
      Wakeup1(ParentChan(proc[p].parent));
      ghost var a := proc[..];
      var i := 0;
      assert Adopted(a, p, init, 0) == a;
      while i < proc.Length
        invariant 0 <= i <= proc.Length
        invariant proc[..] == Adopting(a, p, init, i)
      {
        Adopt(p, init, i, a);
        i := i + 1;
      }
      proc[p] := proc[p].(state := ZOMBIE);
    }

    /** One scan of wait by process p: reap the first zombie child, or give up, or sleep. */
    method Wait(p: nat) returns (r: WaitResult, pid: nat)
      requires p < proc.Length
      modifies proc
      ensures r.Reaped? ==>
        && r.q < proc.Length && old(proc[r.q].parent) == Some(p) && old(proc[r.q].state) == ZOMBIE
        && (forall j: nat :: j < r.q ==> !(IsChild(old(proc[..]), j, p) && old(proc[j].state) == ZOMBIE))
        && pid == old(proc[r.q].pid)
        && proc[..] == old(proc[..])[r.q := old(proc[r.q]).(state := UNUSED, pid := 0, parent := None, killed := false)]
      ensures !r.Reaped? ==> !HasZombie(old(proc[..]), p, proc.Length)
      ensures r.NoChildren? ==> proc[..] == old(proc[..])
      ensures r.NoChildren? ==> old(proc[p].killed) || forall j: nat :: j < proc.Length ==>
        !IsChild(old(proc[..]), j, p)
      ensures r.GoesToSleep? ==>
        && !old(proc[p].killed) && (exists j: nat :: j < proc.Length && IsChild(old(proc[..]), j, p))
        && proc[..] == old(proc[..])[p := old(proc[p]).(chan := OfProc(p), state := SLEEPING)]
    {
      var havekids := false;
      var i: nat := 0;
      pid := 0;
      while i < proc.Length
        invariant 0 <= i <= proc.Length && proc[..] == old(proc[..])
        invariant havekids <==> exists j: nat :: j < i && IsChild(proc[..], j, p)
        invariant forall j: nat :: j < i ==> !(IsChild(proc[..], j, p) && proc[j].state == ZOMBIE)
      {
        if proc[i].parent == Some(p) {
          assert IsChild(proc[..], i, p);
          havekids := true;
          if proc[i].state == ZOMBIE {
            pid := proc[i].pid;
            proc[i] := Emptied(proc[i]);
            return Reaped(i), pid;
          }
        }
        i := i + 1;
      }
      if !havekids || proc[p].killed {
        return NoChildren, 0;
      }
      proc[p] := proc[p].(chan := OfProc(p), state := SLEEPING);
      return GoesToSleep, 0;
    }
  }
}
