// Runs of fork(), exit(), wait(), sleep(), wakeup() and kill() by any number of
// processes: the process tree, the sleepers in wait() and the reaping of zombies.
module ProcRuns {
  import opened Common
  import opened Sched
  import opened Procs

  // np[i] is the EMBRYO process i is setting up inside fork(). `exited` and `reaped`
  // record the pids that left through exit() and that wait() returned.
  datatype System = System(t: seq<P>, np: seq<Option<nat>>, nextpid: int, init: nat, exited: set<int>, reaped: seq<int>)

  // One section under ptable.lock (ForkParent: the assignment of np->parent before it).
  datatype Step =
    | ForkAlloc(cur: nat, e: nat)
    | ForkFail(cur: nat)
    | ForkParent(cur: nat)
    | ForkStart(cur: nat)
    | ExitBy(cur: nat)
    | WaitReap(cur: nat, z: nat)
    | WaitSleep(cur: nat)
    | SleepOn(cur: nat, id: nat)
    | WakeupOn(id: nat)
    | KillPid(pid: int, k: nat)
    | Dispatch(k: nat)
    | Yield(cur: nat)

  ghost predicate Runs(s: System, cur: nat) {
    cur < |s.t| && s.t[cur].state == Running
  }

  // The EMBRYO cur is setting up.
  ghost predicate Building(s: System, cur: nat) {
    cur < |s.np| && s.np[cur].Some? && s.np[cur].value < |s.t|
  }

  ghost predicate Enabled(s: System, step: Step) {
    |s.np| == |s.t| && s.init < |s.t| &&
    match step
    case ForkAlloc(cur, e) => Runs(s, cur) && s.np[cur].None? && e < |s.t| && s.t[e].state == Unused
    case ForkFail(cur) => Runs(s, cur) && Building(s, cur) && s.t[s.np[cur].value].parent.None?
    case ForkParent(cur) => Runs(s, cur) && Building(s, cur)
    case ForkStart(cur) => Runs(s, cur) && Building(s, cur) && s.t[s.np[cur].value].parent == Some(cur)
    case ExitBy(cur) => Runs(s, cur) && s.np[cur].None? && cur != s.init
    case WaitReap(cur, z) => Runs(s, cur) && s.np[cur].None? && FirstZombie(s.t, cur, z)
    case WaitSleep(cur) =>
      Runs(s, cur) && s.np[cur].None? && !HasZombieChild(s.t, cur) && HasChild(s.t, cur) && !s.t[cur].killed
    case SleepOn(cur, _) => Runs(s, cur)
    case WakeupOn(_) => true
    case KillPid(pid, k) => k < |s.t| && s.t[k].pid == pid && forall i | 0 <= i < k :: s.t[i].pid != pid
    case Dispatch(k) => k < |s.t| && s.t[k].state == Runnable
    case Yield(cur) => Runs(s, cur)
  }

  ghost function Next(s: System, step: Step): System
    requires Enabled(s, step)
  {
    match step
    case ForkAlloc(cur, e) =>
      s.(t := s.t[e := s.t[e].(state := Embryo, pid := s.nextpid)], np := s.np[cur := Some(e)],
         nextpid := s.nextpid + 1)
    case ForkFail(cur) =>
      var e := s.np[cur].value;
      s.(t := s.t[e := s.t[e].(state := Unused)], np := s.np[cur := None])
    case ForkParent(cur) =>
      var e := s.np[cur].value;
      s.(t := s.t[e := s.t[e].(parent := Some(cur))])
    case ForkStart(cur) =>
      var e := s.np[cur].value;
      s.(t := s.t[e := s.t[e].(state := Runnable)], np := s.np[cur := None])
    case ExitBy(cur) => s.(t := Exited(s.t, cur, s.init), exited := s.exited + {s.t[cur].pid})
    case WaitReap(_, z) => s.(t := s.t[z := Reap(s.t[z])], reaped := s.reaped + [s.t[z].pid])
    case WaitSleep(cur) => s.(t := s.t[cur := s.t[cur].(state := Sleeping, chan := ProcChan(cur))])
    case SleepOn(cur, id) => s.(t := s.t[cur := s.t[cur].(state := Sleeping, chan := OtherChan(id))])
    case WakeupOn(id) => s.(t := Woken(s.t, OtherChan(id)))
    case KillPid(_, k) => s.(t := s.t[k := Killed(s.t[k])])
    case Dispatch(k) => s.(t := s.t[k := s.t[k].(state := Running, chan := NoChan)])
    case Yield(cur) => s.(t := s.t[cur := s.t[cur].(state := Runnable)])
  }

  // After userinit(): the init process alone.
  ghost predicate Boot(s: System) {
    && |s.np| == |s.t| && s.init < |s.t|
    && s.t[s.init].state == Runnable && s.t[s.init].chan == NoChan && s.t[s.init].parent.None? && s.t[s.init].pid == 1
    && (forall i | 0 <= i < |s.t| && i != s.init :: s.t[i].state == Unused && s.t[i].parent.None? && s.t[i].pid == 0)
    && (forall i | 0 <= i < |s.t| :: s.np[i].None?)
    && s.nextpid == 2 && s.exited == {} && s.reaped == []
  }

  // ---- The process tree ----

  // Every started process but init has a parent that has started and not exited.
  ghost predicate ParentsLive(s: System) {
    forall i | 0 <= i < |s.t| && s.t[i].Started() && i != s.init ::
      s.t[i].parent.Some? && s.t[i].parent.value < |s.t| && s.t[s.t[i].parent.value].Live()
  }

  // What fork() has under construction: each EMBRYO by one live process, whose child it is
  // or will be.
  ghost predicate Embryos(s: System) {
    && |s.np| == |s.t|
    && (forall i | 0 <= i < |s.t| && s.t[i].state == Unused :: s.t[i].parent.None?)
    && (forall q | 0 <= q < |s.np| && s.np[q].Some? ::
          && s.np[q].value < |s.t| && s.t[s.np[q].value].state == Embryo && s.t[q].Live()
          && (s.t[s.np[q].value].parent.None? || s.t[s.np[q].value].parent == Some(q)))
    && (forall q, r | 0 <= q < |s.np| && 0 <= r < |s.np| && s.np[q].Some? && s.np[q] == s.np[r] :: q == r)
    && (forall e | 0 <= e < |s.t| && s.t[e].state == Embryo && s.t[e].parent.Some? ::
          s.t[e].parent.value < |s.np| && s.np[s.t[e].parent.value] == Some(e))
  }

  ghost predicate Tree(s: System) {
    && |s.np| == |s.t| && s.init < |s.t| && s.t[s.init].Live() && s.t[s.init].parent.None?
    && (forall i | 0 <= i < |s.t| :: s.t[i].parent != Some(i))
    && ParentsLive(s) && Embryos(s)
  }

  // ---- Sleepers ----

  ghost predicate InWait(s: System, q: nat)
    requires q < |s.t|
  {
    s.t[q].state == Sleeping && s.t[q].chan == ProcChan(q)
  }

  ghost predicate HasChild(t: seq<P>, q: nat) {
    exists i :: 0 <= i < |t| && t[i].parent == Some(q)
  }

  ghost predicate HasLiveChild(t: seq<P>, q: nat) {
    exists i :: 0 <= i < |t| && t[i].parent == Some(q) && t[i].Live()
  }

  // Only wait() sleeps on a process, on its own, and never over a ZOMBIE child, without a live
  // one, or killed.
  ghost predicate Sleepers(s: System) {
    && (forall i | 0 <= i < |s.t| && s.t[i].state == Sleeping && s.t[i].chan.ProcChan? :: s.t[i].chan.slot == i)
    && (forall z, q | 0 <= z < |s.t| && 0 <= q < |s.t| && s.t[z].state == Zombie && s.t[z].parent == Some(q) ::
         !InWait(s, q))
    && (forall q | 0 <= q < |s.t| && InWait(s, q) :: !s.t[q].killed && HasLiveChild(s.t, q))
  }

  // ---- Pids ----

  ghost predicate Pids(s: System) {
    && (forall i | 0 <= i < |s.t| :: 0 <= s.t[i].pid < s.nextpid)
    && (forall i | 0 <= i < |s.t| && s.t[i].state != Unused :: s.t[i].pid > 0 && s.t[i].pid !in s.reaped)
    && (forall i, j | 0 <= i < |s.t| && 0 <= j < |s.t| && s.t[i].pid != 0 && s.t[i].pid == s.t[j].pid :: i == j)
    && (forall i | 0 <= i < |s.t| && s.t[i].state != Unused :: s.t[i].pid in s.exited <==> s.t[i].state == Zombie)
    && (forall i | 0 <= i < |s.reaped| :: s.reaped[i] < s.nextpid && s.reaped[i] in s.exited)
    && (forall i, j | 0 <= i < j < |s.reaped| :: s.reaped[i] != s.reaped[j])
    && s.nextpid > 0 && (forall p | p in s.exited :: p < s.nextpid)
  }

  ghost predicate Inv(s: System) {
    Tree(s) && Sleepers(s) && Pids(s)
  }

  lemma BootInv(s: System)
    requires Boot(s)
    ensures Inv(s)
  {
  }

  lemma ExitKeepsTree(s: System, cur: nat)
    requires Tree(s) && Enabled(s, ExitBy(cur))
    ensures Tree(Next(s, ExitBy(cur)))
  {
    hide Exited, ParentsLive, Embryos;
    ExitMeans(s.t, cur, s.init);
    ExitKeepsParents(s, cur);
    ExitKeepsEmbryos(s, cur);
  }

  lemma ExitKeepsParents(s: System, cur: nat)
    requires Tree(s) && Enabled(s, ExitBy(cur))
    ensures ParentsLive(Next(s, ExitBy(cur)))
  {
    hide Exited, HasZombieChild, ParentChan, Embryos;
    ExitMeans(s.t, cur, s.init);
    var s' := Next(s, ExitBy(cur));
    forall i | 0 <= i < |s.t| && s'.t[i].Started() && i != s.init
      ensures s'.t[i].parent.Some? && s'.t[i].parent.value < |s.t| && s'.t[s'.t[i].parent.value].Live()
    {
      assert s.t[i].Started() && s.t[i].parent.Some? && s.t[s.t[i].parent.value].Live();
    }
  }

  // Embryos, their makers and UNUSED slots are as before.
  lemma SameEmbryos(s: System, s': System)
    requires Embryos(s) && |s'.t| == |s.t| && s'.np == s.np
    requires forall i | 0 <= i < |s.t| :: (s'.t[i].state == Unused <==> s.t[i].state == Unused)
    requires forall i | 0 <= i < |s.t| :: (s'.t[i].state == Embryo <==> s.t[i].state == Embryo)
    requires forall i | 0 <= i < |s.t| && s.t[i].state in {Unused, Embryo} :: s'.t[i].parent == s.t[i].parent
    requires forall q | 0 <= q < |s.t| && s.np[q].Some? :: s'.t[q].Live()
    ensures Embryos(s')
  {
  }

  lemma EmbryoFacts(s: System, cur: nat)
    requires Embryos(s) && cur < |s.t| && s.np[cur].None?
    ensures forall i | 0 <= i < |s.t| && s.t[i].state in {Unused, Embryo} :: s.t[i].parent != Some(cur)
    ensures forall q | 0 <= q < |s.t| && s.np[q].Some? :: q != cur && s.t[q].Live()
  {
  }

  lemma ExitKeepsEmbryos(s: System, cur: nat)
    requires Tree(s) && Enabled(s, ExitBy(cur))
    ensures Embryos(Next(s, ExitBy(cur)))
  {
    hide Exited, HasZombieChild, ParentChan, ParentsLive, Embryos;
    ExitMeans(s.t, cur, s.init);
    EmbryoFacts(s, cur);
    SameEmbryos(s, Next(s, ExitBy(cur)));
  }

  lemma ExitKeepsSleepers(s: System, cur: nat)
    requires Tree(s) && Sleepers(s) && Enabled(s, ExitBy(cur))
    ensures Sleepers(Next(s, ExitBy(cur)))
  {
    hide Exited, ParentsLive, Embryos;
    ExitMeans(s.t, cur, s.init);
    var s' := Next(s, ExitBy(cur));
    forall z, q | 0 <= z < |s.t| && 0 <= q < |s.t| && s'.t[z].state == Zombie && s'.t[z].parent == Some(q)
      ensures !InWait(s', q)
    {
      if z == cur {
        assert s.t[cur].parent != Some(cur) by { NotOwnParent(s, cur); }
      } else if s.t[z].parent == Some(cur) {
        assert HasZombieChild(s.t, cur);
      } else {
        assert !InWait(s, q);
      }
    }
    forall q | 0 <= q < |s.t| && InWait(s', q)
      ensures !s'.t[q].killed && HasLiveChild(s'.t, q)
    {
      assert InWait(s, q) && q != cur && s.t[cur].parent != Some(q);
      var i :| 0 <= i < |s.t| && s.t[i].parent == Some(q) && s.t[i].Live();
      assert s'.t[i].parent == Some(q) && s'.t[i].Live();
    }
  }

  lemma NotOwnParent(s: System, cur: nat)
    requires Tree(s) && cur < |s.t|
    ensures s.t[cur].parent != Some(cur)
  {
  }

  lemma ExitKeepsPids(s: System, cur: nat)
    requires Pids(s) && Enabled(s, ExitBy(cur))
    ensures Pids(Next(s, ExitBy(cur)))
  {
    hide Exited, HasZombieChild, ParentChan;
    ExitMeans(s.t, cur, s.init);
    var s' := Next(s, ExitBy(cur));
    assert forall i | 0 <= i < |s.t| ::
        s'.t[i].pid == s.t[i].pid && (s'.t[i].state == Unused <==> s.t[i].state == Unused) &&
        (s'.t[i].state == Zombie <==> i == cur || s.t[i].state == Zombie);
  }

  // ---- Steps that only move processes between SLEEPING, RUNNABLE and RUNNING ----

  ghost predicate SameKind(x: P, y: P) {
    && y.pid == x.pid && y.parent == x.parent
    && (y.Live() <==> x.Live()) && (y.state == Zombie <==> x.state == Zombie)
    && (y.state == Unused <==> x.state == Unused) && (y.state == Embryo <==> x.state == Embryo)
  }

  // A process now asleep in wait() was so before, or has a live child and no ZOMBIE one. It is
  // not killed.
  ghost predicate SleepsSoundly(s: System, y: P, i: nat)
    requires i < |s.t|
  {
    y.state == Sleeping && y.chan.ProcChan? ==>
      || (s.t[i].state == Sleeping && s.t[i].chan == y.chan && s.t[i].killed == y.killed)
      || (y.chan == ProcChan(i) && !y.killed && !HasZombieChild(s.t, i) && HasLiveChild(s.t, i))
  }

  lemma ShuffleKeepsInv(s: System, t: seq<P>)
    requires Inv(s) && |t| == |s.t|
    requires forall i | 0 <= i < |t| :: SameKind(s.t[i], t[i])
    requires forall i | 0 <= i < |t| :: SleepsSoundly(s, t[i], i)
    ensures Inv(s.(t := t))
  {
    hide HasZombieChild;
    ShuffleKeepsTree(s, t);
    ShuffleKeepsPids(s, t);
    ShuffleKeepsSleepers(s, t);
  }

  lemma ShuffleKeepsTree(s: System, t: seq<P>)
    requires Tree(s) && |t| == |s.t|
    requires forall i | 0 <= i < |t| :: SameKind(s.t[i], t[i])
    ensures Tree(s.(t := t))
  {
  }

  lemma ShuffleKeepsPids(s: System, t: seq<P>)
    requires Pids(s) && |t| == |s.t|
    requires forall i | 0 <= i < |t| :: SameKind(s.t[i], t[i])
    ensures Pids(s.(t := t))
  {
  }

  lemma ShuffleKeepsSleepers(s: System, t: seq<P>)
    requires Sleepers(s) && |t| == |s.t|
    requires forall i | 0 <= i < |t| :: SameKind(s.t[i], t[i])
    requires forall i | 0 <= i < |t| :: SleepsSoundly(s, t[i], i)
    ensures Sleepers(s.(t := t))
  {
    hide HasLiveChild;
    forall q: nat | HasLiveChild(s.t, q)
      ensures HasLiveChild(t, q)
    {
      SameChildren(s, t, q);
    }
  }

  lemma SameChildren(s: System, t: seq<P>, q: nat)
    requires |t| == |s.t| && HasLiveChild(s.t, q) && forall i | 0 <= i < |t| :: SameKind(s.t[i], t[i])
    ensures HasLiveChild(t, q)
  {
    var i :| 0 <= i < |s.t| && s.t[i].parent == Some(q) && s.t[i].Live();
    assert SameKind(s.t[i], t[i]);
  }

  // A caller of wait() with children, none of them a ZOMBIE, has a live one.
  lemma WaitsForSomebody(s: System, cur: nat)
    requires Tree(s) && Enabled(s, WaitSleep(cur))
    ensures HasLiveChild(s.t, cur)
  {
    var i :| 0 <= i < |s.t| && s.t[i].parent == Some(cur);
    assert s.t[i].Live();
  }

  ghost predicate IsShuffle(step: Step) {
    step.WaitSleep? || step.SleepOn? || step.WakeupOn? || step.KillPid? || step.Dispatch? || step.Yield?
  }

  lemma ShuffleSlot(s: System, step: Step, i: nat)
    requires Enabled(s, step) && IsShuffle(step) && i < |s.t|
    requires step.WaitSleep? ==> HasLiveChild(s.t, step.cur)
    ensures
      var s' := Next(s, step);
      |s'.t| == |s.t| && s' == s.(t := s'.t) && SameKind(s.t[i], s'.t[i]) && SleepsSoundly(s, s'.t[i], i)
  {
    hide HasLiveChild, HasZombieChild, HasChild;
  }

  lemma ShuffleStep(s: System, step: Step)
    requires Inv(s) && Enabled(s, step) && IsShuffle(step)
    ensures Inv(Next(s, step))
  {
    if step.WaitSleep? {
      WaitsForSomebody(s, step.cur);
    }
    hide Tree, Sleepers, Pids, HasZombieChild, HasLiveChild, SameKind, SleepsSoundly, Next, Enabled;
    forall i: nat | i < |s.t|
      ensures
        var s' := Next(s, step);
        |s'.t| == |s.t| && s' == s.(t := s'.t) && SameKind(s.t[i], s'.t[i]) && SleepsSoundly(s, s'.t[i], i)
    {
      ShuffleSlot(s, step, i);
    }
    InitInTable(s);
    ShuffleKeepsInv(s, Next(s, step).t);
  }

  lemma InitInTable(s: System)
    requires Tree(s)
    ensures s.init < |s.t|
  {
  }

  // ---- Steps that change one slot ----

  // A slot that was nobody's parent takes a new value.
  lemma SlotKeepsParents(s: System, s': System, e: nat)
    requires ParentsLive(s) && s'.init == s.init && e < |s.t| && |s'.t| == |s.t| && s'.t == s.t[e := s'.t[e]]
    requires !s.t[e].Live()
    requires
      var y := s'.t[e];
      y.Started() ==> y.parent.Some? && y.parent.value != e && y.parent.value < |s.t| && s.t[y.parent.value].Live()
    ensures ParentsLive(s')
  {
  }

  lemma SlotKeepsSleepers(s: System, s': System, e: nat)
    requires Sleepers(s) && e < |s.t| && |s'.t| == |s.t| && s'.t == s.t[e := s'.t[e]]
    requires s'.t[e].state != Sleeping && s'.t[e].state != Zombie && !s.t[e].Live()
    ensures Sleepers(s')
  {
    forall q | 0 <= q < |s.t| && InWait(s', q)
      ensures HasLiveChild(s'.t, q)
    {
      assert InWait(s, q);
      var i :| 0 <= i < |s.t| && s.t[i].parent == Some(q) && s.t[i].Live();
      assert s'.t[i] == s.t[i];
    }
  }

  // ---- fork() ----

  lemma ForkAllocEmbryos(s: System, cur: nat, e: nat)
    requires Tree(s) && Enabled(s, ForkAlloc(cur, e))
    ensures Embryos(Next(s, ForkAlloc(cur, e)))
  {
    hide ParentsLive;
    AllocEmbryos(s, Next(s, ForkAlloc(cur, e)), cur, e);
  }

  lemma AllocEmbryos(s: System, s': System, cur: nat, e: nat)
    requires Embryos(s) && cur < |s.np| && e < |s.t| && s.np[cur].None? && s.t[cur].Live() && s.t[e].state == Unused
    requires |s'.t| == |s.t| && s'.t == s.t[e := s'.t[e]] && s'.np == s.np[cur := Some(e)]
    requires s'.t[e].state == Embryo && s'.t[e].parent.None?
    ensures Embryos(s')
  {
    forall q | 0 <= q < |s.np| && s.np[q].Some?
      ensures s.np[q].value != e && s'.t[s.np[q].value] == s.t[s.np[q].value] && s'.t[q].Live()
    {
    }
    forall f | 0 <= f < |s.t| && s'.t[f].state == Embryo && s'.t[f].parent.Some?
      ensures s'.t[f].parent.value < |s'.np| && s'.np[s'.t[f].parent.value] == Some(f)
    {
      assert f != e && s.np[s.t[f].parent.value] == Some(f);
    }
  }

  // cur gives up the EMBRYO in slot e, which becomes UNUSED or a process.
  lemma ReleaseEmbryo(s: System, s': System, cur: nat, e: nat)
    requires Embryos(s) && cur < |s.np| && s.np[cur] == Some(e) && e < |s.t|
    requires |s'.t| == |s.t| && s'.t == s.t[e := s'.t[e]] && s'.np == s.np[cur := None]
    requires s'.t[e].state != Embryo && (s'.t[e].state == Unused ==> s'.t[e].parent.None?)
    ensures Embryos(s')
  {
    assert s.t[e].state == Embryo;
    forall q | 0 <= q < |s.np| && q != cur && s.np[q].Some?
      ensures s.np[q].value != e && q != e
    {
    }
    forall f | 0 <= f < |s.t| && s'.t[f].state == Embryo && s'.t[f].parent.Some?
      ensures s'.t[f].parent.value < |s'.np| && s'.np[s'.t[f].parent.value] == Some(f)
    {
      assert f != e && s.np[s.t[f].parent.value] == Some(f);
    }
  }

  lemma ForkFailEmbryos(s: System, cur: nat)
    requires Tree(s) && Enabled(s, ForkFail(cur))
    ensures Embryos(Next(s, ForkFail(cur)))
  {
    hide ParentsLive, Embryos;
    ReleaseEmbryo(s, Next(s, ForkFail(cur)), cur, s.np[cur].value);
  }

  lemma ForkParentEmbryos(s: System, cur: nat)
    requires Tree(s) && Enabled(s, ForkParent(cur))
    ensures Embryos(Next(s, ForkParent(cur)))
  {
    hide ParentsLive;
    var e := s.np[cur].value;
    assert forall q | 0 <= q < |s.np| && q != cur && s.np[q].Some? :: s.np[q].value != e;
  }

  lemma ForkStartEmbryos(s: System, cur: nat)
    requires Tree(s) && Enabled(s, ForkStart(cur))
    ensures Embryos(Next(s, ForkStart(cur)))
  {
    hide ParentsLive, Embryos;
    ReleaseEmbryo(s, Next(s, ForkStart(cur)), cur, s.np[cur].value);
  }

  ghost predicate IsFork(step: Step) {
    step.ForkAlloc? || step.ForkFail? || step.ForkParent? || step.ForkStart?
  }

  // The slot a fork step changes.
  ghost function ForkSlot(s: System, step: Step): nat
    requires IsFork(step) && Enabled(s, step)
  {
    if step.ForkAlloc? then step.e else s.np[step.cur].value
  }

  lemma ForkSlotNotLive(s: System, step: Step)
    requires Tree(s) && IsFork(step) && Enabled(s, step)
    ensures
      var e := ForkSlot(s, step);
      e < |s.t| && !s.t[e].Live() && s.t[e].state != Zombie && e != step.cur && e != s.init
  {
  }

  lemma ForkKeepsInv(s: System, step: Step)
    requires Inv(s) && IsFork(step) && Enabled(s, step)
    ensures Inv(Next(s, step))
  {
    hide ParentsLive, Embryos, Sleepers, Pids;
    var s', e := Next(s, step), ForkSlot(s, step);
    ForkSlotNotLive(s, step);
    SlotKeepsParents(s, s', e);
    SlotKeepsSleepers(s, s', e);
    ForkKeepsPids(s, step);
    match step
    case ForkAlloc(cur, e) => ForkAllocEmbryos(s, cur, e);
    case ForkFail(cur) => ForkFailEmbryos(s, cur);
    case ForkParent(cur) => ForkParentEmbryos(s, cur);
    case ForkStart(cur) => ForkStartEmbryos(s, cur);
  }

  lemma ForkKeepsPids(s: System, step: Step)
    requires Tree(s) && Pids(s) && IsFork(step) && Enabled(s, step)
    ensures Pids(Next(s, step))
  {
    hide ParentsLive, Embryos;
    ForkSlotNotLive(s, step);
    if step.ForkAlloc? {
      FreshPid(s, Next(s, step), step.e);
    } else {
      ForkSlotIsEmbryo(s, step);
      SamePids(s, Next(s, step), ForkSlot(s, step));
    }
  }

  // An UNUSED slot gets the next pid.
  lemma FreshPid(s: System, s': System, e: nat)
    requires Pids(s) && e < |s.t| && |s'.t| == |s.t| && s'.t == s.t[e := s'.t[e]] && s'.nextpid == s.nextpid + 1
    requires s.nextpid > 0
    requires s.t[e].state == Unused && s'.t[e].state == Embryo && s'.t[e].pid == s.nextpid && s'.exited == s.exited
    requires s'.reaped == s.reaped
    ensures Pids(s')
  {
  }

  // A slot that is neither UNUSED nor ZOMBIE stays so, or becomes UNUSED.
  lemma SamePids(s: System, s': System, e: nat)
    requires Pids(s) && e < |s.t| && |s'.t| == |s.t| && s'.t == s.t[e := s'.t[e]] && s'.nextpid == s.nextpid
    requires s.t[e].state == Embryo && s'.t[e].state != Zombie && s'.t[e].pid == s.t[e].pid && s'.exited == s.exited
    requires s'.reaped == s.reaped
    ensures Pids(s')
  {
  }

  lemma ForkSlotIsEmbryo(s: System, step: Step)
    requires Tree(s) && IsFork(step) && !step.ForkAlloc? && Enabled(s, step)
    ensures s.t[ForkSlot(s, step)].state == Embryo
  {
  }

  // ---- wait() ----

  lemma ReapEmbryos(s: System, cur: nat, z: nat)
    requires Tree(s) && Enabled(s, WaitReap(cur, z))
    ensures Embryos(Next(s, WaitReap(cur, z)))
  {
    hide ParentsLive;
  }

  lemma ReapKeepsPids(s: System, cur: nat, z: nat)
    requires Pids(s) && Enabled(s, WaitReap(cur, z))
    ensures Pids(Next(s, WaitReap(cur, z)))
  {
  }

  lemma ReapKeepsInv(s: System, cur: nat, z: nat)
    requires Inv(s) && Enabled(s, WaitReap(cur, z))
    ensures Inv(Next(s, WaitReap(cur, z)))
  {
    hide ParentsLive, Embryos, Sleepers, Pids;
    var s' := Next(s, WaitReap(cur, z));
    SlotKeepsParents(s, s', z);
    SlotKeepsSleepers(s, s', z);
    ReapEmbryos(s, cur, z);
    ReapKeepsPids(s, cur, z);
  }

  // ---- Runs ----

  lemma StepKeepsInv(s: System, step: Step)
    requires Inv(s) && Enabled(s, step)
    ensures Inv(Next(s, step))
  {
    hide Tree, Sleepers, Pids;
    match step
    case ForkAlloc(_, _) => ForkKeepsInv(s, step);
    case ForkFail(_) => ForkKeepsInv(s, step);
    case ForkParent(_) => ForkKeepsInv(s, step);
    case ForkStart(_) => ForkKeepsInv(s, step);
    case ExitBy(cur) =>
      ExitKeepsTree(s, cur);
      ExitKeepsSleepers(s, cur);
      ExitKeepsPids(s, cur);
    case WaitReap(cur, z) => ReapKeepsInv(s, cur, z);
    case _ => ShuffleStep(s, step);
  }

  // kill() leaves no process with that pid asleep, and marks every one there is.
  lemma KillWakes(s: System, pid: int, k: nat)
    requires Inv(s) && Enabled(s, KillPid(pid, k))
    ensures
      var t := Next(s, KillPid(pid, k)).t;
      && (forall i | 0 <= i < |t| && t[i].state != Unused && t[i].pid == pid :: t[i].killed && t[i].state != Sleeping)
      && (forall i | 0 <= i < |t| && t[i].pid != pid :: t[i] == s.t[i])
      && (pid > 0 ==> forall i | 0 <= i < |t| && i != k :: t[i] == s.t[i])
  {
    hide Tree, Sleepers;
  }

  ghost predicate IsRun(s: System, steps: seq<Step>)
    decreases |steps|
  {
    steps == [] || (Enabled(s, steps[0]) && IsRun(Next(s, steps[0]), steps[1..]))
  }

  ghost function Run(s: System, steps: seq<Step>): System
    requires IsRun(s, steps)
    decreases |steps|
  {
    if steps == [] then s else Run(Next(s, steps[0]), steps[1..])
  }

  lemma {:induction false} RunKeepsInv(s: System, steps: seq<Step>)
    requires Inv(s) && IsRun(s, steps)
    ensures Inv(Run(s, steps))
    decreases |steps|
  {
    hide Inv;
    if steps == [] {
    } else {
      StepKeepsInv(s, steps[0]);
      RunKeepsInv(Next(s, steps[0]), steps[1..]);
    }
  }

  // In every run from boot: each started process but init, zombies included, has a parent
  // that has started and not exited; a process asleep in wait() has a live child and no
  // ZOMBIE one, and is not killed; and no pid is returned by wait() twice, nor before its
  // process exited.
  lemma ProcessTree(s: System, steps: seq<Step>)
    requires Boot(s) && IsRun(s, steps)
    ensures
      var r := Run(s, steps);
      && (forall i | 0 <= i < |r.t| && r.t[i].Started() && i != r.init ::
            r.t[i].parent.Some? && r.t[i].parent.value < |r.t| && r.t[r.t[i].parent.value].Live())
      && (forall q | 0 <= q < |r.t| && r.t[q].state == Sleeping && r.t[q].chan == ProcChan(q) ::
           !HasZombieChild(r.t, q) && !r.t[q].killed && HasLiveChild(r.t, q))
      && (forall i, j | 0 <= i < j < |r.reaped| :: r.reaped[i] != r.reaped[j])
      && (forall i | 0 <= i < |r.reaped| :: r.reaped[i] in r.exited)
  {
    BootInv(s);
    RunKeepsInv(s, steps);
    var r := Run(s, steps);
    hide Embryos;
    forall q | 0 <= q < |r.t| && r.t[q].state == Sleeping && r.t[q].chan == ProcChan(q)
      ensures !HasZombieChild(r.t, q) && !r.t[q].killed && HasLiveChild(r.t, q)
    {
      assert InWait(r, q);
    }
  }
}
