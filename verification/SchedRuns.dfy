// What the scheduler guarantees over whole runs: bounded starvation with aging on any
// number of CPUs, and round robin within the top priority class without it.
module SchedRuns {
  import opened Sched

  // ---- Bounded starvation with aging (proc_3.c) ----

  // A CPU in scheduler(): its cursor p, and whether a process it dispatched has not yet
  // come back to it.
  datatype Cpu = Cpu(cursor: nat, busy: bool)

  datatype System = System(table: seq<Proc>, cpus: seq<Cpu>)

  // Dispatch: CPU c scans to slot p and runs h. Return: the process comes back, the table
  // ages and the cursor moves on. Wrap: the scan meets the end of the table and restarts.
  // Other: anything the rest of the system does to the table.
  datatype Step =
    | Dispatch(c: nat, p: nat, h: nat)
    | Return(c: nat)
    | Wrap(c: nat)
    | Other(table: seq<Proc>)

  ghost predicate Wf(s: System) {
    && IsTable(s.table) && InBounds(s.table)
    && forall i | 0 <= i < |s.cpus| :: s.cpus[i].cursor <= NPROC && (s.cpus[i].busy ==> s.cpus[i].cursor < NPROC)
  }

  // Process t stays RUNNABLE, its priority is not lowered and its counter is left to the
  // aging loop; everything else may change.
  ghost predicate Leaves(t: nat, before: seq<Proc>, after: seq<Proc>) {
    && |before| == |after| == NPROC && t < NPROC && InBounds(after)
    && after[t].state == Runnable && after[t].priority >= before[t].priority && after[t].counter == before[t].counter
  }

  ghost predicate Enabled(s: System, t: nat, step: Step)
    requires Wf(s)
  {
    match step
    case Dispatch(c, p, h) =>
      && c < |s.cpus| && !s.cpus[c].busy
      && FirstRunnable(s.table, s.cpus[c].cursor, p) && p < NPROC && CircularChoice(s.table, p, h)
    case Return(c) => c < |s.cpus| && s.cpus[c].busy
    case Wrap(c) => c < |s.cpus| && !s.cpus[c].busy && FirstRunnable(s.table, s.cpus[c].cursor, NPROC)
    case Other(table) => Leaves(t, s.table, table)
  }

  ghost function Next(s: System, t: nat, step: Step): System
    requires Wf(s) && Enabled(s, t, step)
  {
    match step
    case Dispatch(c, _, h) => System(s.table[h := s.table[h].(state := Running)], s.cpus[c := Cpu(h, true)])
    case Return(c) => System(Aged(s.table), s.cpus[c := Cpu(s.cpus[c].cursor + 1, false)])
    case Wrap(c) => s.(cpus := s.cpus[c := Cpu(0, false)])
    case Other(table) => s.(table := table)
  }

  // A run in which t, RUNNABLE throughout, is never the process dispatched.
  ghost predicate Starves(s: System, t: nat, steps: seq<Step>)
    requires Wf(s) && t < NPROC
    decreases |steps|
  {
    && s.table[t].state == Runnable
    && (steps == [] ||
        (&& Enabled(s, t, steps[0])
         && !(steps[0].Dispatch? && steps[0].h == t)
         && (NextWf(s, t, steps[0]); Starves(Next(s, t, steps[0]), t, steps[1..]))))
  }

  lemma NextWf(s: System, t: nat, step: Step)
    requires Wf(s) && Enabled(s, t, step)
    ensures Wf(Next(s, t, step))
  {
  }

  function Dispatches(steps: seq<Step>): nat {
    if steps == [] then 0 else (if steps[0].Dispatch? then 1 else 0) + Dispatches(steps[1..])
  }

  // How many more processes CPU x can dispatch before t, once t has the top priority.
  function Ahead(x: Cpu, t: nat): (d: nat)
    requires x.cursor <= NPROC && (x.busy ==> x.cursor < NPROC) && t < NPROC
    ensures d < NPROC
  {
    Dist(if x.busy then x.cursor + 1 else x.cursor, t)
  }

  function AheadAll(cpus: seq<Cpu>, t: nat): nat
    requires t < NPROC
    requires forall i | 0 <= i < |cpus| :: cpus[i].cursor <= NPROC && (cpus[i].busy ==> cpus[i].cursor < NPROC)
  {
    if cpus == [] then 0 else Ahead(cpus[0], t) + AheadAll(cpus[1..], t)
  }

  function Idle(cpus: seq<Cpu>): nat {
    if cpus == [] then 0 else (if cpus[0].busy then 0 else 1) + Idle(cpus[1..])
  }

  // Completed dispatches until aging has raised t to the top.
  function Needed(x: Proc): int {
    50 * (MAXPRIO - x.priority) - x.counter
  }

  // An upper bound on the dispatches still possible without running t.
  function Patience(s: System, t: nat): int
    requires IsTable(s.table) && t < NPROC
    requires forall i | 0 <= i < |s.cpus| :: s.cpus[i].cursor <= NPROC && (s.cpus[i].busy ==> s.cpus[i].cursor < NPROC)
  {
    if s.table[t].priority < MAXPRIO
    then Needed(s.table[t]) - 1 + Idle(s.cpus) + |s.cpus| * (NPROC - 1)
    else AheadAll(s.cpus, t)
  }

  lemma {:induction false} AheadAllAt(cpus: seq<Cpu>, t: nat, c: nat, x: Cpu)
    requires t < NPROC && c < |cpus| && x.cursor <= NPROC && (x.busy ==> x.cursor < NPROC)
    requires forall i | 0 <= i < |cpus| :: cpus[i].cursor <= NPROC && (cpus[i].busy ==> cpus[i].cursor < NPROC)
    ensures AheadAll(cpus[c := x], t) == AheadAll(cpus, t) - Ahead(cpus[c], t) + Ahead(x, t)
  {
    if c == 0 {
      assert cpus[c := x][1..] == cpus[1..];
    } else {
      assert cpus[c := x][1..] == cpus[1..][c - 1 := x];
      AheadAllAt(cpus[1..], t, c - 1, x);
    }
  }

  lemma {:induction false} AheadAllBound(cpus: seq<Cpu>, t: nat)
    requires t < NPROC
    requires forall i | 0 <= i < |cpus| :: cpus[i].cursor <= NPROC && (cpus[i].busy ==> cpus[i].cursor < NPROC)
    ensures AheadAll(cpus, t) <= |cpus| * (NPROC - 1)
  {
    if cpus == [] {
    } else {
      AheadAllBound(cpus[1..], t);
    }
  }

  lemma {:induction false} IdleAt(cpus: seq<Cpu>, c: nat, x: Cpu)
    requires c < |cpus|
    ensures Idle(cpus[c := x]) == Idle(cpus) - (if cpus[c].busy then 0 else 1) + (if x.busy then 0 else 1)
  {
    if c == 0 {
      assert cpus[c := x][1..] == cpus[1..];
    } else {
      assert cpus[c := x][1..] == cpus[1..][c - 1 := x];
      IdleAt(cpus[1..], c - 1, x);
    }
  }

  lemma {:induction false} IdleBound(cpus: seq<Cpu>)
    ensures Idle(cpus) <= |cpus|
  {
    if cpus == [] {
    } else {
      IdleBound(cpus[1..]);
    }
  }

  // Once t has the top priority, a dispatch of another process brings the CPU closer to t.
  lemma CloserToTop(table: seq<Proc>, cursor: nat, p: nat, h: nat, t: nat)
    requires IsTable(table) && InBounds(table) && cursor <= NPROC && FirstRunnable(table, cursor, p) && p < NPROC
    requires CircularChoice(table, p, h) && t < NPROC && t != h && table[t].state == Runnable
    requires table[t].priority == MAXPRIO
    ensures Dist(h + 1, t) < Dist(cursor, t)
  {
    assert Dist(p, h) <= Dist(p, t);
  }

  lemma DispatchPatience(s: System, t: nat, c: nat, p: nat, h: nat)
    requires Wf(s) && t < NPROC && s.table[t].state == Runnable && h != t && Enabled(s, t, Dispatch(c, p, h))
    ensures Patience(Next(s, t, Dispatch(c, p, h)), t) <= Patience(s, t) - 1
  {
    IdleAt(s.cpus, c, Cpu(h, true));
    AheadAllAt(s.cpus, t, c, Cpu(h, true));
    if s.table[t].priority == MAXPRIO {
      CloserToTop(s.table, s.cpus[c].cursor, p, h, t);
    }
  }

  lemma ReturnPatience(s: System, t: nat, c: nat)
    requires Wf(s) && t < NPROC && s.table[t].state == Runnable && Enabled(s, t, Return(c))
    ensures Patience(Next(s, t, Return(c)), t) <= Patience(s, t)
  {
    var x := Cpu(s.cpus[c].cursor + 1, false);
    IdleAt(s.cpus, c, x);
    AheadAllAt(s.cpus, t, c, x);
    AheadAllBound(s.cpus[c := x], t);
    assert Aged(s.table)[t] == AgeOne(s.table[t]);
  }

  // No step without t raises the bound, and every dispatch of another process lowers it.
  lemma PatienceFalls(s: System, t: nat, step: Step)
    requires Wf(s) && t < NPROC && s.table[t].state == Runnable
    requires Enabled(s, t, step) && !(step.Dispatch? && step.h == t)
    ensures Wf(Next(s, t, step))
    ensures Patience(Next(s, t, step), t) <= Patience(s, t) - (if step.Dispatch? then 1 else 0)
  {
    NextWf(s, t, step);
    match step
    case Dispatch(c, p, h) => DispatchPatience(s, t, c, p, h);
    case Return(c) => ReturnPatience(s, t, c);
    case Wrap(c) =>
      IdleAt(s.cpus, c, Cpu(0, false));
      AheadAllAt(s.cpus, t, c, Cpu(0, false));
    case Other(table) =>
      AheadAllBound(s.cpus, t);
  }

  lemma PatienceNotNegative(s: System, t: nat)
    requires Wf(s) && t < NPROC
    ensures Patience(s, t) >= 0
  {
  }

  lemma {:induction false} DispatchesWithinPatience(s: System, t: nat, steps: seq<Step>)
    requires Wf(s) && t < NPROC && |s.cpus| > 0 && Starves(s, t, steps)
    ensures Dispatches(steps) <= Patience(s, t)
    decreases |steps|
  {
    PatienceNotNegative(s, t);
    if steps == [] {
    } else {
      var s' := Next(s, t, steps[0]);
      PatienceFalls(s, t, steps[0]);
      DispatchesWithinPatience(s', t, steps[1..]);
    }
  }

  // Bounded starvation: however other processes and the CPUs behave, a process that stays
  // RUNNABLE and is not lowered sees fewer than 50 * (20 - priority) + ncpu * NPROC
  // dispatches of others. On one CPU it runs within 50 * (20 - priority) + NPROC of them.
  lemma BoundedStarvation(s: System, t: nat, steps: seq<Step>)
    requires Wf(s) && t < NPROC && |s.cpus| > 0 && Starves(s, t, steps)
    ensures Dispatches(steps) < 50 * (MAXPRIO - s.table[t].priority) + |s.cpus| * NPROC
  {
    DispatchesWithinPatience(s, t, steps);
    AheadAllBound(s.cpus, t);
    IdleBound(s.cpus);
  }

  // ---- The bound for one CPU does not hold for more ----

  // Nobody of priority `prio` sees 50 * (20 - prio) + NPROC dispatches of others on n CPUs.
  ghost predicate OneCpuBound(n: nat, prio: int) {
    forall s, t: nat, steps |
      Wf(s) && t < NPROC && |s.cpus| == n && s.table[t].priority == prio && Starves(s, t, steps) ::
      Dispatches(steps) < 50 * (MAXPRIO - prio) + NPROC
  }

  // The waiting process in slot 0 and one of the top priority in slot 1; the rest sleep.
  function Pair(prio: int, counter: int): seq<Proc> {
    seq(NPROC, i => if i == 0 then Proc(Runnable, 1, prio, counter)
                    else if i == 1 then Proc(Runnable, 2, MAXPRIO, counter)
                    else Proc(Sleeping, i + 1, MAXPRIO, 0))
  }

  // All processes RUNNABLE at the top priority.
  function Crowd(counter: int): seq<Proc> {
    seq(NPROC, i => Proc(Runnable, i + 1, MAXPRIO, counter))
  }

  // CPUs below j have met the end of the table, CPU j is at slot k, the others are at slot 1.
  function Cursors(n: nat, j: nat, k: nat): (cpus: seq<Cpu>)
    ensures |cpus| == n
  {
    seq(n, i => Cpu(if i < j then NPROC else if i == j then k else 1, false))
  }

  lemma OneStep(s: System, t: nat, step: Step, rest: seq<Step>)
    requires Wf(s) && t < NPROC && s.table[t].state == Runnable && Enabled(s, t, step)
    requires !(step.Dispatch? && step.h == t) && Wf(Next(s, t, step)) && Starves(Next(s, t, step), t, rest)
    ensures Starves(s, t, [step] + rest)
    ensures Dispatches([step] + rest) == Dispatches(rest) + if step.Dispatch? then 1 else 0
  {
    assert ([step] + rest)[1..] == rest;
  }

  // Slot k runs on CPU c, yields and comes back.
  lemma Turnaround(s: System, c: nat, p: nat, k: nat, rest: seq<Step>) returns (steps: seq<Step>)
    requires Wf(s) && s.table[0].state == Runnable && k > 0 && Enabled(s, 0, Dispatch(c, p, k))
    requires
      var s' := System(Aged(s.table), s.cpus[c := Cpu(k + 1, false)]);
      Wf(s') && Starves(s', 0, rest)
    ensures Starves(s, 0, steps) && Dispatches(steps) == Dispatches(rest) + 1
  {
    hide CircularChoice, FirstRunnable, Starves, Dispatches;
    var d, o, r := Dispatch(c, p, k), Other(s.table), Return(c);
    var s1 := Next(s, 0, d);
    NextWf(s, 0, d);
    var s2 := Next(s1, 0, o);
    NextWf(s1, 0, o);
    assert Next(s2, 0, r) == System(Aged(s.table), s.cpus[c := Cpu(k + 1, false)]);
    OneStep(s2, 0, r, rest);
    OneStep(s1, 0, o, [r] + rest);
    OneStep(s, 0, d, [o] + ([r] + rest));
    steps := [d] + ([o] + ([r] + rest));
  }

  lemma CrowdAges(counter: int)
    requires 0 <= counter < 50
    ensures Aged(Crowd(counter)) == Crowd(if counter == 49 then 0 else counter + 1)
  {
  }

  lemma CrowdReady(n: nat, j: nat, k: nat, counter: int)
    requires j < n && 1 <= k <= NPROC && 0 <= counter < 50
    ensures
      var s := System(Crowd(counter), Cursors(n, j, k));
      && Wf(s) && s.table[0].state == Runnable
      && (k < NPROC ==> Enabled(s, 0, Dispatch(j, k, k)) && s.cpus[j := Cpu(k + 1, false)] == Cursors(n, j, k + 1))
  {
  }

  // One CPU after the other goes through the table from slot 1 to the end, past slot 0.
  lemma {:induction false} CrowdStarves(n: nat, j: nat, k: nat, counter: int) returns (steps: seq<Step>)
    requires j < n && 1 <= k <= NPROC && 0 <= counter < 50
    ensures
      var s := System(Crowd(counter), Cursors(n, j, k));
      Wf(s) && Starves(s, 0, steps) && Dispatches(steps) == NPROC - k + (n - j - 1) * (NPROC - 1)
    decreases n - j, NPROC - k
  {
    hide Crowd, Cursors, Enabled, Wf, Aged;
    CrowdReady(n, j, k, counter);
    if k == NPROC && j + 1 == n {
      steps := [];
    } else if k == NPROC {
      steps := CrowdStarves(n, j + 1, 1, counter);
      NextCpu(n, j);
    } else {
      var counter' := if counter == 49 then 0 else counter + 1;
      var rest := CrowdStarves(n, j, k + 1, counter');
      CrowdAges(counter);
      steps := Turnaround(System(Crowd(counter), Cursors(n, j, k)), j, k, k, rest);
    }
  }

  // A process of the top priority sees at most n * (NPROC - 1) dispatches of others on n CPUs,
  // and some process sees as many.
  lemma WorstAtTop(n: nat) returns (s: System, steps: seq<Step>)
    requires n > 0
    ensures forall s, t: nat, steps |
              Wf(s) && t < NPROC && |s.cpus| == n && s.table[t].priority == MAXPRIO && Starves(s, t, steps) ::
              Dispatches(steps) <= n * (NPROC - 1)
    ensures Wf(s) && |s.cpus| == n && s.table[0].priority == MAXPRIO && Starves(s, 0, steps)
    ensures Dispatches(steps) == n * (NPROC - 1)
  {
    hide Starves, Dispatches;
    forall s, t: nat, steps |
      Wf(s) && t < NPROC && |s.cpus| == n && s.table[t].priority == MAXPRIO && Starves(s, t, steps)
      ensures Dispatches(steps) <= n * (NPROC - 1)
    {
      DispatchesWithinPatience(s, t, steps);
      AheadAllBound(s.cpus, t);
    }
    s := System(Crowd(0), Cursors(n, 0, 1));
    steps := CrowdStarves(n, 0, 1, 0);
  }

  lemma NextCpu(n: nat, j: nat)
    requires j + 1 < n
    ensures Cursors(n, j, NPROC) == Cursors(n, j + 1, 1)
  {
  }

  lemma PairAges(prio: int, counter: int)
    requires prio < MAXPRIO && 0 <= counter < 50
    ensures Aged(Pair(prio, counter)) == if counter == 49 then Pair(prio + 1, 0) else Pair(prio, counter + 1)
  {
  }

  // CPU 0 meets the end of the table, restarts, and prefers slot 1 while slot 0 is below it.
  lemma PairReady(n: nat, prio: int, counter: int)
    requires n > 0 && prio <= MAXPRIO && 0 <= counter < 50
    ensures
      var s, s1 := System(Pair(prio, counter), Cursors(n, 0, 2)), System(Pair(prio, counter), Cursors(n, 0, 0));
      && Wf(s) && s.table[0].state == Runnable && s.table[0].priority == prio
      && Enabled(s, 0, Wrap(0)) && Next(s, 0, Wrap(0)) == s1 && Wf(s1)
      && (prio < MAXPRIO ==> Enabled(s1, 0, Dispatch(0, 0, 1)) && s1.cpus[0 := Cpu(2, false)] == s.cpus)
      && (prio == MAXPRIO ==> Enabled(s, 0, Other(Crowd(counter))))
  {
  }

  // Slot 1 runs over and over until slot 0 has aged to the top; then all the others wake up.
  lemma {:induction false} PairStarves(n: nat, prio: int, counter: int) returns (steps: seq<Step>)
    requires n > 0 && prio <= MAXPRIO && 0 <= counter < 50 && (prio == MAXPRIO ==> counter == 0)
    ensures
      var s := System(Pair(prio, counter), Cursors(n, 0, 2));
      && Wf(s) && s.table[0].priority == prio && Starves(s, 0, steps)
      && Dispatches(steps) == 50 * (MAXPRIO - prio) - counter + NPROC - 2 + (n - 1) * (NPROC - 1)
    decreases 50 * (MAXPRIO - prio) - counter
  {
    hide Pair, Crowd, Cursors, Enabled, Wf, Aged, Dispatches;
    PairReady(n, prio, counter);
    var s, s1 := System(Pair(prio, counter), Cursors(n, 0, 2)), System(Pair(prio, counter), Cursors(n, 0, 0));
    if prio == MAXPRIO {
      var rest := CrowdStarves(n, 0, 2, 0);
      OneStep(s, 0, Other(Crowd(0)), rest);
      steps := [Other(Crowd(0))] + rest;
    } else {
      PairAges(prio, counter);
      var rest;
      if counter == 49 {
        rest := PairStarves(n, prio + 1, 0);
      } else {
        rest := PairStarves(n, prio, counter + 1);
      }
      var turn := Turnaround(s1, 0, 0, 1, rest);
      OneStep(s, 0, Wrap(0), turn);
      steps := [Wrap(0)] + turn;
    }
  }

  // On n CPUs, at every priority, the bound for one CPU holds if and only if n is one.
  lemma OneCpuBoundIff(n: nat, prio: int)
    requires n > 0 && prio <= MAXPRIO
    ensures OneCpuBound(n, prio) <==> n == 1
  {
    hide Starves, Dispatches, Pair, Cursors;
    if n == 1 {
      forall s, t: nat, steps |
        Wf(s) && t < NPROC && |s.cpus| == n && s.table[t].priority == prio && Starves(s, t, steps)
        ensures Dispatches(steps) < 50 * (MAXPRIO - prio) + NPROC
      {
        BoundedStarvation(s, t, steps);
      }
    } else {
      var steps := PairStarves(n, prio, 0);
      var s := System(Pair(prio, 0), Cursors(n, 0, 2));
      assert Starves(s, 0, steps) && Dispatches(steps) >= 50 * (MAXPRIO - prio) + NPROC;
    }
  }

  // ---- Round robin within the top class (proc.c, one CPU) ----

  // ks lists, in slot order, exactly the RUNNABLE processes of maximal priority.
  ghost predicate TopClass(t: seq<Proc>, ks: seq<nat>)
    requires IsTable(t)
  {
    && |ks| > 0
    && (forall i, j | 0 <= i < j < |ks| :: ks[i] < ks[j])
    && (forall i | 0 <= i < |ks| :: ks[i] < NPROC && t[ks[i]].state == Runnable)
    && (forall i, q | 0 <= i < |ks| && 0 <= q < NPROC && t[q].state == Runnable :: t[q].priority <= t[ks[i]].priority)
    && (forall q | 0 <= q < NPROC && t[q].state == Runnable && t[q].priority == t[ks[0]].priority :: q in ks)
  }

  // Successive dispatches of one CPU: dispatch j finds table ts[j], scans on from the slot
  // after the process dispatched before and runs hs[j].
  ghost predicate Rotation(ts: seq<seq<Proc>>, hs: seq<nat>, ks: seq<nat>) {
    && |ts| == |hs|
    && (forall j | 0 <= j < |ts| :: IsTable(ts[j]) && TopClass(ts[j], ks) && hs[j] < NPROC)
    && (forall j | 0 < j < |ts| :: CircularChoice(ts[j], hs[j - 1] + 1, hs[j]))
    && (|ts| > 0 ==> exists c: nat :: c <= NPROC && CircularChoice(ts[0], c, hs[0]))
  }

  lemma ChoiceInClass(t: seq<Proc>, ks: seq<nat>, c: nat, h: nat)
    requires IsTable(t) && TopClass(t, ks) && c <= NPROC && CircularChoice(t, c, h)
    ensures h in ks
  {
  }

  // The position d steps after x on a circle of k positions.
  function Turn(x: nat, d: nat, k: nat): (y: nat)
    requires x < k && d < k
    ensures y < k
  {
    if x + d < k then x + d else x + d - k
  }

  function Succ(x: nat, k: nat): (y: nat)
    requires x < k
    ensures y < k
  {
    if x + 1 < k then x + 1 else 0
  }

  // After ks[x] comes the next member in slot order, and after the last one the first.
  lemma NextInClass(t: seq<Proc>, ks: seq<nat>, x: nat, h: nat)
    requires IsTable(t) && TopClass(t, ks) && x < |ks| && CircularChoice(t, ks[x] + 1, h)
    ensures h == ks[Succ(x, |ks|)]
  {
    ChoiceInClass(t, ks, ks[x] + 1, h);
    var y :| 0 <= y < |ks| && ks[y] == h;
    var z := Succ(x, |ks|);
    assert t[ks[z]].state == Runnable && t[ks[z]].priority == t[h].priority by { SamePriority(t, ks, z, y); }
    assert Dist(ks[x] + 1, h) <= Dist(ks[x] + 1, ks[z]);
    OrderOnCircle(ks, x, y, z);
  }

  lemma SamePriority(t: seq<Proc>, ks: seq<nat>, x: nat, y: nat)
    requires IsTable(t) && TopClass(t, ks) && x < |ks| && y < |ks|
    ensures t[ks[x]].priority == t[ks[y]].priority
  {
  }

  lemma OrderOnCircle(ks: seq<nat>, x: nat, y: nat, z: nat)
    requires (forall i, j | 0 <= i < j < |ks| :: ks[i] < ks[j]) && forall i | 0 <= i < |ks| :: ks[i] < NPROC
    requires x < |ks| && y < |ks| && z == Succ(x, |ks|) && Dist(ks[x] + 1, ks[y]) <= Dist(ks[x] + 1, ks[z])
    ensures y == z
  {
  }

  // From the dispatch of ks[x] on, the dispatches go round the class.
  lemma {:induction false} GoesRound(ts: seq<seq<Proc>>, hs: seq<nat>, ks: seq<nat>, a: nat, x: nat, d: nat)
    requires Rotation(ts, hs, ks) && x < |ks| && d < |ks| && a + d < |hs| && hs[a] == ks[x]
    ensures hs[a + d] == ks[Turn(x, d, |ks|)]
  {
    hide TopClass, CircularChoice;
    if d == 0 {
    } else {
      GoesRound(ts, hs, ks, a, x, d - 1);
      NextInClass(ts[a + d], ks, Turn(x, d - 1, |ks|), hs[a + d]);
    }
  }

  lemma Distinct(ts: seq<seq<Proc>>, hs: seq<nat>, ks: seq<nat>, x: nat, y: nat)
    requires Rotation(ts, hs, ks) && |hs| > 0 && x < |ks| && y < |ks| && x != y
    ensures ks[x] != ks[y]
  {
  }

  lemma DispatchInClass(ts: seq<seq<Proc>>, hs: seq<nat>, ks: seq<nat>, a: nat)
    requires Rotation(ts, hs, ks) && a < |hs|
    ensures hs[a] in ks
  {
    if a == 0 {
      var c: nat :| c <= NPROC && CircularChoice(ts[0], c, hs[0]);
      ChoiceInClass(ts[0], ks, c, hs[0]);
    } else {
      ChoiceInClass(ts[a], ks, hs[a - 1] + 1, hs[a]);
    }
  }

  // While a top class of k processes stays RUNNABLE and top, every member runs exactly once
  // in any k consecutive dispatches.
  lemma RotationIsFair(ts: seq<seq<Proc>>, hs: seq<nat>, ks: seq<nat>, a: nat, m: nat)
    requires Rotation(ts, hs, ks) && a + |ks| <= |hs| && m < |ks|
    ensures exists j :: a <= j < a + |ks| && hs[j] == ks[m]
    ensures forall i, j | a <= i < j < a + |ks| :: hs[i] != hs[j]
  {
    hide Rotation;
    var k := |ks|;
    DispatchInClass(ts, hs, ks, a);
    var x :| 0 <= x < k && ks[x] == hs[a];
    var d := if m >= x then m - x else m - x + k;
    GoesRound(ts, hs, ks, a, x, d);
    assert hs[a + d] == ks[m];
    forall i, j | a <= i < j < a + k
      ensures hs[i] != hs[j]
    {
      GoesRound(ts, hs, ks, a, x, i - a);
      GoesRound(ts, hs, ks, a, x, j - a);
      Distinct(ts, hs, ks, Turn(x, i - a, k), Turn(x, j - a, k));
    }
  }

  // ---- Runs of one CPU without aging ----

  // The steps of scheduler() in proc.c: as above, but a process that comes back ages nobody,
  // and the rest of the system may do anything to the table.
  ghost predicate PlainEnabled(s: System, step: Step) {
    && IsTable(s.table) && |s.cpus| == 1 && s.cpus[0].cursor <= NPROC
    && match step
       case Dispatch(c, p, h) =>
         && c == 0 && !s.cpus[0].busy
         && FirstRunnable(s.table, s.cpus[0].cursor, p) && p < NPROC && CircularChoice(s.table, p, h)
       case Return(c) => c == 0 && s.cpus[0].busy && s.cpus[0].cursor < NPROC
       case Wrap(c) => c == 0 && !s.cpus[0].busy && FirstRunnable(s.table, s.cpus[0].cursor, NPROC)
       case Other(table) => IsTable(table)
  }

  ghost function PlainNext(s: System, step: Step): System
    requires PlainEnabled(s, step)
  {
    match step
    case Dispatch(_, _, h) => System(s.table[h := s.table[h].(state := Running)], [Cpu(h, true)])
    case Return(_) => s.(cpus := [Cpu(s.cpus[0].cursor + 1, false)])
    case Wrap(_) => s.(cpus := [Cpu(0, false)])
    case Other(table) => s.(table := table)
  }

  // A run in which ks is the top class whenever the CPU is in the scheduler. While it runs a
  // process, and between any two steps, the table may change otherwise.
  ghost predicate Steady(s: System, ks: seq<nat>, steps: seq<Step>)
    decreases |steps|
  {
    && IsTable(s.table) && |s.cpus| == 1 && (s.cpus[0].busy || TopClass(s.table, ks))
    && (steps == [] || (PlainEnabled(s, steps[0]) && Steady(PlainNext(s, steps[0]), ks, steps[1..])))
  }

  // The processes dispatched, in order, and the table each dispatch found.
  function Chosen(steps: seq<Step>): seq<nat> {
    if steps == [] then []
    else if steps[0].Dispatch? then [steps[0].h] + Chosen(steps[1..])
    else Chosen(steps[1..])
  }

  ghost function Found(s: System, ks: seq<nat>, steps: seq<Step>): (ts: seq<seq<Proc>>)
    requires Steady(s, ks, steps)
    ensures |ts| == |Chosen(steps)|
    decreases |steps|
  {
    if steps == [] then []
    else
      var ts := Found(PlainNext(s, steps[0]), ks, steps[1..]);
      if steps[0].Dispatch? then [s.table] + ts else ts
  }

  // Running off the end of one table and choosing from slot 0 of another is choosing in
  // circular order, if both have the same top class: none of it was left in the first.
  lemma WrapIsCircular(t1: seq<Proc>, t2: seq<Proc>, ks: seq<nat>, c: nat, p: nat, h: nat)
    requires IsTable(t1) && IsTable(t2) && TopClass(t1, ks) && TopClass(t2, ks) && c <= NPROC
    requires FirstRunnable(t1, c, NPROC) && FirstRunnable(t2, 0, p) && p < NPROC && CircularChoice(t2, p, h)
    ensures CircularChoice(t2, c, h)
  {
    NoneLeft(t1, ks, c);
    ScanIsCircular(t2, 0, p, h);
    BelowIsCircular(t2, ks, c, h);
  }

  lemma NoneLeft(t: seq<Proc>, ks: seq<nat>, c: nat)
    requires IsTable(t) && TopClass(t, ks) && c <= NPROC && FirstRunnable(t, c, NPROC)
    ensures forall i | 0 <= i < |ks| :: ks[i] < c
  {
  }

  lemma BelowIsCircular(t: seq<Proc>, ks: seq<nat>, c: nat, h: nat)
    requires IsTable(t) && TopClass(t, ks) && c <= NPROC && CircularChoice(t, 0, h)
    requires forall i | 0 <= i < |ks| :: ks[i] < c
    ensures CircularChoice(t, c, h)
  {
    ChoiceInClass(t, ks, 0, h);
    forall q | 0 <= q < NPROC && t[q].state == Runnable && t[q].priority == t[h].priority
      ensures Dist(c, h) <= Dist(c, q)
    {
      assert q in ks;
    }
  }

  // A scan from slot c has met the end of a table with this top class.
  ghost predicate RanOff(c: nat, ks: seq<nat>)
    requires c <= NPROC
  {
    exists t :: IsTable(t) && TopClass(t, ks) && FirstRunnable(t, c, NPROC)
  }

  // Where the cursor stands after a dispatch of `last`: on it, just past it, or back at the
  // start of the table after a scan that ran off its end.
  ghost predicate Past(x: Cpu, last: nat, ks: seq<nat>) {
    && last < NPROC
    && if x.busy then x.cursor == last
       else x.cursor == last + 1 || (x.cursor == 0 && RanOff(last + 1, ks))
  }

  // Each dispatch after that of `last` continues from the slot after it.
  lemma {:induction false} RotatesAfter(s: System, ks: seq<nat>, steps: seq<Step>, last: nat)
    requires Steady(s, ks, steps) && Past(s.cpus[0], last, ks)
    ensures
      var ts, hs := Found(s, ks, steps), Chosen(steps);
      Rotation(ts, hs, ks) && (|hs| > 0 ==> CircularChoice(ts[0], last + 1, hs[0]))
    decreases |steps|
  {
    hide TopClass, CircularChoice, FirstRunnable, Rotation;
    if steps == [] {
      NoRotation(ks);
    } else {
      var s' := PlainNext(s, steps[0]);
      match steps[0]
      case Dispatch(_, p, h) =>
        DispatchContinues(s, ks, last, p, h);
        RotatesAfter(s', ks, steps[1..], h);
        OneMore(s.table, h, Found(s', ks, steps[1..]), Chosen(steps[1..]), ks, last + 1);
      case Return(_) => RotatesAfter(s', ks, steps[1..], last);
      case Wrap(_) =>
        WrapsPast(s, ks, last);
        RotatesAfter(s', ks, steps[1..], last);
      case Other(_) => RotatesAfter(s', ks, steps[1..], last);
    }
  }

  lemma NoRotation(ks: seq<nat>)
    ensures Rotation([], [], ks)
  {
  }

  lemma DispatchContinues(s: System, ks: seq<nat>, last: nat, p: nat, h: nat)
    requires PlainEnabled(s, Dispatch(0, p, h)) && TopClass(s.table, ks) && Past(s.cpus[0], last, ks)
    ensures CircularChoice(s.table, last + 1, h) && h < NPROC
  {
    if s.cpus[0].cursor == 0 {
      var t :| IsTable(t) && TopClass(t, ks) && FirstRunnable(t, last + 1, NPROC);
      WrapIsCircular(t, s.table, ks, last + 1, p, h);
    } else {
      ScanIsCircular(s.table, last + 1, p, h);
    }
  }

  lemma WrapsPast(s: System, ks: seq<nat>, last: nat)
    requires PlainEnabled(s, Wrap(0)) && TopClass(s.table, ks) && Past(s.cpus[0], last, ks)
    ensures Past(Cpu(0, false), last, ks)
  {
    if s.cpus[0].cursor == last + 1 {
      assert FirstRunnable(s.table, last + 1, NPROC);
    }
  }

  lemma OneMore(t: seq<Proc>, h: nat, ts: seq<seq<Proc>>, hs: seq<nat>, ks: seq<nat>, c: nat)
    requires Rotation(ts, hs, ks) && IsTable(t) && TopClass(t, ks) && h < NPROC
    requires c <= NPROC && CircularChoice(t, c, h) && (|hs| > 0 ==> CircularChoice(ts[0], h + 1, hs[0]))
    ensures Rotation([t] + ts, [h] + hs, ks)
  {
    hide TopClass, CircularChoice;
    var ts', hs' := [t] + ts, [h] + hs;
    forall j | 0 < j < |ts'|
      ensures CircularChoice(ts'[j], hs'[j - 1] + 1, hs'[j])
    {
      assert ts'[j] == ts[j - 1] && hs'[j] == hs[j - 1];
      assert j > 1 ==> hs'[j - 1] == hs[j - 2];
    }
    assert CircularChoice(ts'[0], c, hs'[0]);
  }

  lemma {:induction false} Rotates(s: System, ks: seq<nat>, steps: seq<Step>)
    requires Steady(s, ks, steps)
    ensures Rotation(Found(s, ks, steps), Chosen(steps), ks)
    decreases |steps|
  {
    hide TopClass, CircularChoice, FirstRunnable, Rotation;
    if steps == [] {
      NoRotation(ks);
    } else if steps[0].Dispatch? {
      var s', h, c := PlainNext(s, steps[0]), steps[0].h, s.cpus[0].cursor;
      assert h < NPROC && CircularChoice(s.table, c, h) by {
        FirstChoice(s, steps[0].p, h);
      }
      RotatesAfter(s', ks, steps[1..], h);
      OneMore(s.table, h, Found(s', ks, steps[1..]), Chosen(steps[1..]), ks, c);
    } else {
      Rotates(PlainNext(s, steps[0]), ks, steps[1..]);
    }
  }

  lemma FirstChoice(s: System, p: nat, h: nat)
    requires PlainEnabled(s, Dispatch(0, p, h))
    ensures h < NPROC && CircularChoice(s.table, s.cpus[0].cursor, h)
  {
    ScanIsCircular(s.table, s.cpus[0].cursor, p, h);
  }

  // Round robin: in a run of one CPU without aging, with a top class of k processes that is
  // RUNNABLE and top whenever the scheduler runs, every member runs exactly once in any k
  // consecutive dispatches.
  lemma RoundRobin(s: System, ks: seq<nat>, steps: seq<Step>, a: nat, m: nat)
    requires Steady(s, ks, steps) && a + |ks| <= |Chosen(steps)| && m < |ks|
    ensures exists j :: a <= j < a + |ks| && Chosen(steps)[j] == ks[m]
    ensures forall i, j | a <= i < j < a + |ks| :: Chosen(steps)[i] != Chosen(steps)[j]
  {
    Rotates(s, ks, steps);
    RotationIsFair(Found(s, ks, steps), Chosen(steps), ks, a, m);
  }
}
