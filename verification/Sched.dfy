// The priority scheduler of proc.c and its aging variant in proc_3.c.
module Sched {
  import opened Common

  const NPROC: nat := 64
  const MAXPRIO: nat := 20

  datatype ProcState = Unused | Embryo | Sleeping | Runnable | Running | Zombie

  datatype Proc = Proc(state: ProcState, pid: int, priority: int, counter: int)

  ghost predicate IsTable(t: seq<Proc>) { |t| == NPROC }

  // ---- One dispatch ----

  // Steps from slot c to slot q along the circular table; c may be NPROC, the end of the
  // table, which the scan leaves to restart at slot 0.
  function Dist(c: nat, q: nat): (d: nat)
    requires c <= NPROC && q < NPROC
    ensures d < NPROC || (c == NPROC && d == q)
  {
    if q >= c then q - c else if c == NPROC then q else q + NPROC - c
  }

  // h is a RUNNABLE process of maximal priority, the first such from slot c on.
  ghost predicate CircularChoice(t: seq<Proc>, c: nat, h: nat)
    requires IsTable(t) && c <= NPROC
  {
    && h < NPROC && t[h].state == Runnable
    && forall q | 0 <= q < NPROC && t[q].state == Runnable ::
         && t[q].priority <= t[h].priority
         && (t[q].priority == t[h].priority ==> Dist(c, h) <= Dist(c, q))
  }

  // Where the scan of the table stops: the first RUNNABLE slot from c, or the end.
  ghost predicate FirstRunnable(t: seq<Proc>, c: nat, p: nat)
    requires IsTable(t) && c <= NPROC
  {
    && c <= p <= NPROC
    && (forall q | c <= q < p :: t[q].state != Runnable)
    && (p < NPROC ==> t[p].state == Runnable)
  }

  method NextRunnable(proc: array<Proc>, c: nat) returns (p: nat)
    requires proc.Length == NPROC && c <= NPROC
    ensures FirstRunnable(proc[..], c, p)
  {
    p := c;
    while p < NPROC && proc[p].state != Runnable
      invariant c <= p <= NPROC
      invariant forall q | c <= q < p :: proc[q].state != Runnable
    {
      p := p + 1;
    }
  }

  // The two inner scans: from p to the end, then from the start to p.
  method PickHighest(proc: array<Proc>, p: nat) returns (h: nat)
    requires proc.Length == NPROC && p < NPROC && proc[p].state == Runnable
    ensures CircularChoice(proc[..], p, h)
  {
    h := p;
    var p1 := p;
    while p1 < NPROC
      invariant p <= p1 <= NPROC
      invariant p <= h < NPROC && proc[h].state == Runnable && (h < p1 || h == p)
      invariant forall q | p <= q < p1 && proc[q].state == Runnable ::
                  proc[q].priority <= proc[h].priority && (proc[q].priority == proc[h].priority ==> h <= q)
    {
      if proc[p1].state == Runnable {
        if proc[p1].priority > proc[h].priority {
          h := p1;
        }
      }
      p1 := p1 + 1;
    }
    p1 := 0;
    while p1 < p
      invariant 0 <= p1 <= p
      invariant h < NPROC && proc[h].state == Runnable && (h >= p || h < p1)
      invariant forall q | p <= q < NPROC && proc[q].state == Runnable ::
                  proc[q].priority <= proc[h].priority && (proc[q].priority == proc[h].priority ==> p <= h <= q)
      invariant forall q | 0 <= q < p1 && proc[q].state == Runnable ::
                  proc[q].priority <= proc[h].priority && (proc[q].priority == proc[h].priority ==> h >= p || h <= q)
    {
      if proc[p1].state == Runnable {
        if proc[p1].priority > proc[h].priority {
          h := p1;
        }
      }
      p1 := p1 + 1;
    }
  }

  // Scanning on from c to a RUNNABLE slot is choosing from c in circular order.
  lemma ScanIsCircular(t: seq<Proc>, c: nat, p: nat, h: nat)
    requires IsTable(t) && c <= NPROC && FirstRunnable(t, c, p) && p < NPROC
    requires CircularChoice(t, p, h)
    ensures CircularChoice(t, c, h)
  {
  }

  // One pass of a CPU over the table under ptable.lock, from slot c on: the chosen process
  // becomes RUNNING, or the pass meets the end of the table, where the lock is released.
  method Dispatch(proc: array<Proc>, c: nat) returns (r: Option<nat>)
    requires proc.Length == NPROC && c <= NPROC
    modifies proc
    ensures r.None? <==> FirstRunnable(old(proc[..]), c, NPROC)
    ensures r.None? ==> proc[..] == old(proc[..])
    ensures r.Some? ==> CircularChoice(old(proc[..]), c, r.value)
    ensures r.Some? ==> proc[..] == old(proc[..])[r.value := old(proc[r.value]).(state := Running)]
  {
    var p := NextRunnable(proc, c);
    if p == NPROC {
      return None;
    }
    var h := PickHighest(proc, p);
    ScanIsCircular(proc[..], c, p, h);
    proc[h] := proc[h].(state := Running);
    return Some(h);
  }

  // ---- Aging ----

  function AgeOne(x: Proc): Proc {
    if x.state != Runnable && x.state != Running then x
    else if x.counter + 1 == 50 then
      x.(counter := 0, priority := if x.priority < MAXPRIO then x.priority + 1 else x.priority)
    else x.(counter := x.counter + 1)
  }

  function Aged(t: seq<Proc>): (r: seq<Proc>)
    ensures |r| == |t| && forall i | 0 <= i < |t| :: r[i] == AgeOne(t[i])
  {
    seq(|t|, i requires 0 <= i < |t| => AgeOne(t[i]))
  }

  // The loop proc_3.c adds after a process has run. A process that waits or runs gains one
  // point, fifty of which make a priority; at the top priority the points go round. All other
  // processes stay as they are.
  method Age(proc: array<Proc>)
    modifies proc
    ensures proc[..] == Aged(old(proc[..]))
    ensures forall i | 0 <= i < proc.Length :: proc[i].state == old(proc[i]).state && proc[i].pid == old(proc[i]).pid
    ensures forall i | 0 <= i < proc.Length && old(proc[i]).state !in {Runnable, Running} :: proc[i] == old(proc[i])
    ensures forall i |
              0 <= i < proc.Length && old(proc[i]).state in {Runnable, Running} && old(proc[i]).priority < 20 ::
              50 * proc[i].priority + proc[i].counter == 50 * old(proc[i]).priority + old(proc[i]).counter + 1
    ensures forall i |
              && 0 <= i < proc.Length && old(proc[i]).state in {Runnable, Running}
              && old(proc[i]).priority >= 20 && 0 <= old(proc[i]).counter < 50 ::
              proc[i].priority == old(proc[i]).priority && proc[i].counter == (old(proc[i]).counter + 1) % 50
    ensures (forall i | 0 <= i < proc.Length :: old(proc[i]).priority <= 20 && 0 <= old(proc[i]).counter < 50) ==>
              forall i | 0 <= i < proc.Length :: proc[i].priority <= 20 && 0 <= proc[i].counter < 50
  {
    var p1 := 0;
    while p1 < proc.Length
      invariant 0 <= p1 <= proc.Length
      invariant forall i | 0 <= i < p1 :: proc[i] == AgeOne(old(proc[i]))
      invariant forall i | p1 <= i < proc.Length :: proc[i] == old(proc[i])
    {
      if proc[p1].state == Runnable || proc[p1].state == Running {
        proc[p1] := proc[p1].(counter := proc[p1].counter + 1);
        if proc[p1].counter == 50 {
          proc[p1] := proc[p1].(counter := 0);
          if proc[p1].priority < 20 {
            proc[p1] := proc[p1].(priority := proc[p1].priority + 1);
          }
        }
      }
      p1 := p1 + 1;
    }
  }

  // Priorities never exceed MAXPRIO and counters stay below 50.
  ghost predicate InBounds(t: seq<Proc>) {
    forall i | 0 <= i < |t| :: t[i].priority <= MAXPRIO && 0 <= t[i].counter < 50
  }

  // allocproc(): the first UNUSED slot becomes an EMBRYO of priority 5.
  method AllocProc(proc: array<Proc>, nextpid: int) returns (r: Option<nat>, nextpid': int)
    modifies proc
    ensures r.None? ==>
              && proc[..] == old(proc[..]) && nextpid' == nextpid
              && forall i | 0 <= i < proc.Length :: proc[i].state != Unused
    ensures r.Some? ==>
              && r.value < proc.Length && old(proc[r.value]).state == Unused
              && forall i | 0 <= i < r.value :: old(proc[i]).state != Unused
    ensures r.Some? ==> proc[..] == old(proc[..])[r.value := Proc(Embryo, nextpid, 5, 0)] && nextpid' == nextpid + 1
    ensures InBounds(old(proc[..])) ==> InBounds(proc[..])
  {
    var p := 0;
    while p < proc.Length && proc[p].state != Unused
      invariant 0 <= p <= proc.Length
      invariant forall i | 0 <= i < p :: proc[i].state != Unused
    {
      p := p + 1;
    }
    if p == proc.Length {
      return None, nextpid;
    }
    proc[p] := Proc(Embryo, nextpid, 5, 0);
    return Some(p), nextpid + 1;
  }

  // set_priority(): -1 for a priority outside 1..20, else the first slot with the pid, if
  // any, takes the new priority.
  method SetPriority(proc: array<Proc>, pid: int, priority: int) returns (r: int)
    modifies proc
    ensures r == if priority <= 0 || priority > MAXPRIO then -1 else 0
    ensures r == -1 || (forall i | 0 <= i < proc.Length :: old(proc[i]).pid != pid) ==> proc[..] == old(proc[..])
    ensures r == 0 ==>
              forall k |
                && 0 <= k < proc.Length && old(proc[k]).pid == pid
                && (forall i | 0 <= i < k :: old(proc[i]).pid != pid) ::
                proc[..] == old(proc[..])[k := old(proc[k]).(priority := priority)]
    ensures InBounds(old(proc[..])) ==> InBounds(proc[..])
  {
    if priority <= 0 || priority > 20 {
      return -1;
    }
    var p := 0;
    while p < proc.Length && proc[p].pid != pid
      invariant 0 <= p <= proc.Length
      invariant forall i | 0 <= i < p :: proc[i].pid != pid
    {
      p := p + 1;
    }
    if p < proc.Length {
      proc[p] := proc[p].(priority := priority);
    }
    return 0;
  }
}
