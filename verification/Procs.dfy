// fork(), exit(), wait(), sleep(), wakeup() and kill() of proc.c: what each section under
// ptable.lock does to the process table, and what every run keeps.
module Procs {
  import opened Common
  import opened Sched

  // What a process sleeps on: a process slot (only wait() does, on its own), or anything else.
  datatype Chan = NoChan | ProcChan(slot: nat) | OtherChan(id: nat)

  datatype P = P(state: ProcState, pid: int, parent: Option<nat>, chan: Chan, killed: bool) {
    // Started and not exited.
    predicate Live() {
      state == Sleeping || state == Runnable || state == Running
    }

    predicate Started() {
      Live() || state == Zombie
    }
  }

  // ---- What the loops compute ----

  function WakeOne(x: P, chan: Chan): P {
    if x.state == Sleeping && x.chan == chan then x.(state := Runnable) else x
  }

  function Woken(t: seq<P>, chan: Chan): (r: seq<P>)
    ensures |r| == |t| && forall i | 0 <= i < |t| :: r[i] == WakeOne(t[i], chan)
  {
    seq(|t|, i requires 0 <= i < |t| => WakeOne(t[i], chan))
  }

  function ParentChan(x: P): Chan {
    if x.parent.None? then NoChan else ProcChan(x.parent.value)
  }

  ghost predicate HasZombieChild(t: seq<P>, q: nat) {
    exists z :: 0 <= z < |t| && t[z].parent == Some(q) && t[z].state == Zombie
  }

  // The first k rounds of the loop of exit() that hands children of cur to init.
  function Adopted(t: seq<P>, cur: nat, init: nat, k: nat): (r: seq<P>)
    requires k <= |t|
    ensures |r| == |t|
  {
    if k == 0 then t
    else
      var u := Adopted(t, cur, init, k - 1);
      if u[k - 1].parent != Some(cur) then u
      else
        var v := u[k - 1 := u[k - 1].(parent := Some(init))];
        if v[k - 1].state == Zombie then Woken(v, ProcChan(init)) else v
  }

  function Exited(t: seq<P>, cur: nat, init: nat): (r: seq<P>)
    requires cur < |t|
    ensures |r| == |t|
  {
    var u := Adopted(Woken(t, ParentChan(t[cur])), cur, init, |t|);
    u[cur := u[cur].(state := Zombie)]
  }

  // The slot wait() reaps: the first ZOMBIE child.
  ghost predicate FirstZombie(t: seq<P>, cur: nat, z: nat) {
    && z < |t| && t[z].parent == Some(cur) && t[z].state == Zombie
    && forall i | 0 <= i < z :: !(t[i].parent == Some(cur) && t[i].state == Zombie)
  }

  function Reap(x: P): P {
    x.(state := Unused, pid := 0, parent := None, killed := false)
  }

  datatype WaitOutcome = Reaped(pid: int) | Error | Sleeps

  // ---- The code ----

  method Wakeup1(proc: array<P>, chan: Chan)
    modifies proc
    ensures proc[..] == Woken(old(proc[..]), chan)
    ensures forall i | 0 <= i < proc.Length && old(proc[i]).state == Sleeping && old(proc[i]).chan == chan ::
              proc[i] == old(proc[i]).(state := Runnable)
    ensures forall i | 0 <= i < proc.Length && !(old(proc[i]).state == Sleeping && old(proc[i]).chan == chan) ::
              proc[i] == old(proc[i])
  {
    var p := 0;
    while p < proc.Length
      invariant 0 <= p <= proc.Length
      invariant forall i | 0 <= i < p :: proc[i] == WakeOne(old(proc[i]), chan)
      invariant forall i | p <= i < proc.Length :: proc[i] == old(proc[i])
    {
      if proc[p].state == Sleeping && proc[p].chan == chan {
        proc[p] := proc[p].(state := Runnable);
      }
      p := p + 1;
    }
  }

  // The loop of exit() that passes abandoned children to init.
  method HandOver(proc: array<P>, cur: nat, initproc: nat)
    requires cur < proc.Length && initproc < proc.Length
    modifies proc
    ensures proc[..] == Adopted(old(proc[..]), cur, initproc, proc.Length)
  {
    ghost var w := proc[..];
    var p := 0;
    while p < proc.Length
      invariant 0 <= p <= proc.Length
      invariant proc[..] == Adopted(w, cur, initproc, p)
    {
      ghost var u := proc[..];
      if proc[p].parent == Some(cur) {
        proc[p] := proc[p].(parent := Some(initproc));
        assert proc[..] == u[p := u[p].(parent := Some(initproc))];
        if proc[p].state == Zombie {
          Wakeup1(proc, ProcChan(initproc));
        }
      }
      p := p + 1;
    }
  }

  // exit() of process cur, from acquire(&ptable.lock) to sched(); false is the panic "init
  // exiting".
  method Exit(proc: array<P>, cur: nat, initproc: nat) returns (ok: bool)
    requires cur < proc.Length && initproc < proc.Length
    modifies proc
    ensures ok <==> cur != initproc
    ensures proc[..] == if ok then Exited(old(proc[..]), cur, initproc) else old(proc[..])
    ensures ok ==> proc[cur].state == Zombie
    ensures ok ==> forall i | 0 <= i < proc.Length ::
              && proc[i].pid == old(proc[i]).pid && proc[i].chan == old(proc[i]).chan
              && proc[i].killed == old(proc[i]).killed
              && proc[i].parent == if old(proc[i]).parent == Some(cur) then Some(initproc) else old(proc[i]).parent
    ensures ok ==> forall i | 0 <= i < proc.Length && i != cur && old(proc[i]).state != Sleeping ::
              proc[i].state == old(proc[i]).state
    ensures ok ==> forall i | 0 <= i < proc.Length && i != cur && old(proc[i]).state == Sleeping ::
              var up := if old(proc[cur]).parent.None? then NoChan else ProcChan(old(proc[cur]).parent.value);
              var woken := old(proc[i]).chan == up ||
                           (old(proc[i]).chan == ProcChan(initproc) && HasZombieChild(old(proc[..]), cur));
              proc[i].state == if woken then Runnable else Sleeping
  {
    if cur == initproc {
      return false;
    }
    hide Adopted, HasZombieChild;
    ghost var t := proc[..];
    Wakeup1(proc, if proc[cur].parent.None? then NoChan else ProcChan(proc[cur].parent.value));
    ghost var w := Woken(t, ParentChan(t[cur]));
    assert proc[..] == w;
    HandOver(proc, cur, initproc);
    ghost var u := proc[..];
    proc[cur] := proc[cur].(state := Zombie);
    assert proc[..] == u[cur := u[cur].(state := Zombie)];
    ExitMeans(t, cur, initproc);
    return true;
  }

  // wait() of process cur, one turn of its outer loop.
  method Wait(proc: array<P>, cur: nat) returns (r: WaitOutcome, ghost z: nat)
    requires cur < proc.Length
    modifies proc
    ensures r.Reaped? ==> FirstZombie(old(proc[..]), cur, z) && r.pid == old(proc[z]).pid
    ensures r.Reaped? ==> proc[..] == old(proc[..])[z := Reap(old(proc[z]))]
    ensures r.Reaped? ==>
              && proc[z].state == Unused && proc[z].pid == 0 && proc[z].parent.None? && !proc[z].killed
              && proc[z].chan == old(proc[z]).chan
              && forall i | 0 <= i < proc.Length && i != z :: proc[i] == old(proc[i])
    ensures !r.Reaped? ==> !HasZombieChild(old(proc[..]), cur)
    ensures r == Error <==>
            (!HasZombieChild(old(proc[..]), cur) &&
             (old(proc[cur]).killed || forall i | 0 <= i < proc.Length :: old(proc[i]).parent != Some(cur)))
    ensures r == Error ==> proc[..] == old(proc[..])
    ensures r == Sleeps ==> proc[..] == old(proc[..])[cur := old(proc[cur]).(state := Sleeping, chan := ProcChan(cur))]
  {
    var havekids := false;
    var p := 0;
    while p < proc.Length
      invariant 0 <= p <= proc.Length && proc[..] == old(proc[..])
      invariant havekids <==> exists i :: 0 <= i < p && proc[i].parent == Some(cur)
      invariant forall i | 0 <= i < p :: !(proc[i].parent == Some(cur) && proc[i].state == Zombie)
    {
      if proc[p].parent == Some(cur) {
        havekids := true;
        if proc[p].state == Zombie {
          var pid := proc[p].pid;
          proc[p] := Reap(proc[p]);
          return Reaped(pid), p;
        }
      }
      p := p + 1;
    }
    if !havekids || proc[cur].killed {
      return Error, 0;
    }
    proc[cur] := proc[cur].(state := Sleeping, chan := ProcChan(cur));
    return Sleeps, 0;
  }

  // kill(): the first slot with the pid is marked, and woken if it sleeps.
  method Kill(proc: array<P>, pid: int) returns (r: int, ghost k: nat)
    modifies proc
    ensures r == -1 ==> proc[..] == old(proc[..]) && forall i | 0 <= i < proc.Length :: proc[i].pid != pid
    ensures r == -1 || r == 0
    ensures r == 0 ==> k < proc.Length && old(proc[k]).pid == pid && forall i | 0 <= i < k :: old(proc[i]).pid != pid
    ensures r == 0 ==> proc[..] == old(proc[..])[k := Killed(old(proc[k]))]
    ensures r == 0 ==> proc[k].killed && proc[k].state != Sleeping
    ensures r == 0 ==> proc[k].state == if old(proc[k]).state == Sleeping then Runnable else old(proc[k]).state
    ensures r == 0 ==>
              && proc[k].pid == pid && proc[k].parent == old(proc[k]).parent && proc[k].chan == old(proc[k]).chan
              && forall i | 0 <= i < proc.Length && i != k :: proc[i] == old(proc[i])
  {
    var p := 0;
    while p < proc.Length
      invariant 0 <= p <= proc.Length && proc[..] == old(proc[..])
      invariant forall i | 0 <= i < p :: proc[i].pid != pid
    {
      if proc[p].pid == pid {
        proc[p] := proc[p].(killed := true);
        if proc[p].state == Sleeping {
          proc[p] := proc[p].(state := Runnable);
        }
        return 0, p;
      }
      p := p + 1;
    }
    return -1, 0;
  }

  function Killed(x: P): P {
    if x.state == Sleeping then x.(killed := true, state := Runnable) else x.(killed := true)
  }

  // allocproc(): the first UNUSED slot becomes an EMBRYO with a new pid.
  method AllocEmbryo(proc: array<P>, nextpid: int) returns (r: Option<nat>)
    modifies proc
    ensures r.None? ==> proc[..] == old(proc[..]) && forall i | 0 <= i < proc.Length :: proc[i].state != Unused
    ensures r.Some? ==>
              && r.value < proc.Length && old(proc[r.value]).state == Unused
              && forall i | 0 <= i < r.value :: old(proc[i]).state != Unused
    ensures r.Some? ==> proc[..] == old(proc[..])[r.value := old(proc[r.value]).(state := Embryo, pid := nextpid)]
  {
    var p := 0;
    while p < proc.Length && proc[p].state != Unused
      invariant 0 <= p <= proc.Length
      invariant forall i | 0 <= i < p :: proc[i].state != Unused
    {
      p := p + 1;
    }
    if p == proc.Length {
      return None;
    }
    proc[p] := proc[p].(state := Embryo, pid := nextpid);
    return Some(p);
  }

  // ---- exit() in closed form ----

  // Whether one of the first k slots is a ZOMBIE child of cur.
  ghost predicate ZombieChildBefore(t: seq<P>, cur: nat, k: nat)
    requires k <= |t|
  {
    exists z :: 0 <= z < k && t[z].parent == Some(cur) && t[z].state == Zombie
  }

  lemma {:induction false} AdoptedIs(t: seq<P>, cur: nat, init: nat, k: nat, i: nat)
    requires k <= |t| && i < |t| && cur != init
    ensures
      var x := Adopted(t, cur, init, k)[i];
      var y := if ZombieChildBefore(t, cur, k) then WakeOne(t[i], ProcChan(init)) else t[i];
      x == if i < k && t[i].parent == Some(cur) then y.(parent := Some(init)) else y
  {
    if k == 0 {
    } else {
      AdoptedIs(t, cur, init, k - 1, i);
      AdoptedIs(t, cur, init, k - 1, k - 1);
      if t[k - 1].parent == Some(cur) && t[k - 1].state == Zombie {
        assert ZombieChildBefore(t, cur, k);
      } else {
        assert ZombieChildBefore(t, cur, k) <==> ZombieChildBefore(t, cur, k - 1);
      }
    }
  }

  // Slot i after exit().
  ghost function ExitedSlot(t: seq<P>, cur: nat, init: nat, i: nat): P
    requires cur < |t| && i < |t|
  {
    var x := WakeOne(t[i], ParentChan(t[cur]));
    var y := if HasZombieChild(t, cur) then WakeOne(x, ProcChan(init)) else x;
    var z := if t[i].parent == Some(cur) then y.(parent := Some(init)) else y;
    if i == cur then z.(state := Zombie) else z
  }

  lemma ExitedIs(t: seq<P>, cur: nat, init: nat, i: nat)
    requires cur < |t| && i < |t| && cur != init
    ensures Exited(t, cur, init)[i] == ExitedSlot(t, cur, init, i)
  {
    var w := Woken(t, ParentChan(t[cur]));
    AdoptedIs(w, cur, init, |t|, i);
    if HasZombieChild(t, cur) {
      var z :| 0 <= z < |t| && t[z].parent == Some(cur) && t[z].state == Zombie;
      assert w[z].parent == Some(cur) && w[z].state == Zombie;
    }
    if ZombieChildBefore(w, cur, |t|) {
      var z :| 0 <= z < |t| && w[z].parent == Some(cur) && w[z].state == Zombie;
      assert t[z].parent == Some(cur) && t[z].state == Zombie;
    }
  }

  // What exit() does to a slot, without the functions above.
  ghost predicate ExitsTo(x: P, y: P, i: nat, cur: nat, init: nat, up: Chan, zombies: bool) {
    && y.pid == x.pid && y.chan == x.chan && y.killed == x.killed
    && y.parent == (if x.parent == Some(cur) then Some(init) else x.parent)
    && (i == cur ==> y.state == Zombie)
    && (i != cur && x.state != Sleeping ==> y.state == x.state)
    && (i != cur && x.state == Sleeping ==>
          y.state == if x.chan == up || (zombies && x.chan == ProcChan(init)) then Runnable else Sleeping)
  }

  lemma ExitMeans(t: seq<P>, cur: nat, init: nat)
    requires cur < |t| && cur != init
    ensures forall i | 0 <= i < |t| ::
              ExitsTo(t[i], Exited(t, cur, init)[i], i, cur, init, ParentChan(t[cur]), HasZombieChild(t, cur))
  {
    hide Exited, HasZombieChild;
    forall i | 0 <= i < |t|
      ensures ExitsTo(t[i], Exited(t, cur, init)[i], i, cur, init, ParentChan(t[cur]), HasZombieChild(t, cur))
    {
      ExitedIs(t, cur, init, i);
    }
  }
}
