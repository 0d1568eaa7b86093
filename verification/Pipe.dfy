// Pipes (pipe.c): a ring of PIPESIZE bytes with free-running 32-bit counters, shared by
// readers and writers that sleep on it. A call runs from taking the lock until it returns
// or sleeps; a sleeping call starts again at its loop head once woken.
module Pipe {
  import opened Blocks

  const PIPESIZE: nat := 512
  const WRAP: nat := 0x1_0000_0000

  // ---- The pipe as a bounded queue with sleepers ----

  datatype View = View(queue: seq<Byte>, readopen: bool, writeopen: bool, readers: set<nat>, writers: set<nat>)

  // How a call gives up the lock. Slept(k) of a writer: k bytes are stored so far.
  datatype Outcome = Returned(value: int) | Slept(done: nat)

  function Min(a: nat, b: nat): nat { if a < b then a else b }

  // The number of bytes that a writer can store before the pipe is full.
  function Accepted(s: View, bytes: seq<Byte>): (k: nat)
    requires |s.queue| <= PIPESIZE
    ensures k <= |bytes|
  {
    Min(|bytes|, PIPESIZE - |s.queue|)
  }

  function AfterWrite(s: View, pid: nat, bytes: seq<Byte>, killed: bool): View
    requires |s.queue| <= PIPESIZE
  {
    var k := Accepted(s, bytes);
    var t := s.(queue := s.queue + bytes[..k]);
    if k == |bytes| then t.(readers := {})
    else if !s.readopen || killed then t
    else t.(readers := {}, writers := s.writers + {pid})
  }

  // A reader with nothing to read and a writer that may still come.
  predicate MustWait(s: View) { s.queue == [] && s.writeopen }

  function AfterRead(s: View, pid: nat, n: int, killed: bool): View {
    if MustWait(s) then (if killed then s else s.(readers := s.readers + {pid}))
    else s.(queue := s.queue[Min(Positive(n), |s.queue|)..], writers := {})
  }

  function Positive(n: int): nat { if n < 0 then 0 else n }

  function AfterClose(s: View, writable: bool): View {
    if writable then s.(writeopen := false, readers := {}) else s.(readopen := false, writers := {})
  }

  // ---- The ring ----

  function Slot(nread: nat, k: nat): (j: nat)
    ensures j < PIPESIZE
  {
    (nread + k) % PIPESIZE
  }

  // The ring holds the queue from the read counter on.
  ghost predicate RingOk(data: seq<Byte>, nread: nat, nwrite: nat, queue: seq<Byte>) {
    && |data| == PIPESIZE && nread < WRAP && |queue| <= PIPESIZE
    && nwrite == (nread + |queue|) % WRAP
    && forall k | 0 <= k < |queue| :: data[Slot(nread, k)] == queue[k]
  }

  // The counters tell an empty ring from a full one, also when the write counter has
  // wrapped and the read counter has not.
  lemma Counters(data: seq<Byte>, nread: nat, nwrite: nat, queue: seq<Byte>)
    requires RingOk(data, nread, nwrite, queue)
    ensures nwrite == nread <==> queue == []
    ensures nwrite == (nread + PIPESIZE) % WRAP <==> |queue| == PIPESIZE
  {
  }

  lemma EmptyRing(data: seq<Byte>, nread: nat, nwrite: nat, queue: seq<Byte>)
    requires RingOk(data, nread, nwrite, queue)
    ensures nwrite == nread <==> queue == []
  {
    Counters(data, nread, nwrite, queue);
  }

  lemma StoreOk(data: seq<Byte>, nread: nat, nwrite: nat, queue: seq<Byte>, b: Byte)
    requires RingOk(data, nread, nwrite, queue) && |queue| < PIPESIZE
    ensures RingOk(data[nwrite % PIPESIZE := b], nread, (nwrite + 1) % WRAP, queue + [b])
  {
    var data', queue' := data[nwrite % PIPESIZE := b], queue + [b];
    assert nwrite % PIPESIZE == Slot(nread, |queue|);
    forall k | 0 <= k < |queue'|
      ensures data'[Slot(nread, k)] == queue'[k]
    {
      if k < |queue| {
        OtherSlot(nread, k, |queue|);
      }
    }
  }

  lemma FetchOk(data: seq<Byte>, nread: nat, nwrite: nat, queue: seq<Byte>)
    requires RingOk(data, nread, nwrite, queue) && queue != []
    ensures data[nread % PIPESIZE] == queue[0]
    ensures RingOk(data, (nread + 1) % WRAP, nwrite, queue[1..])
  {
    assert nread % PIPESIZE == Slot(nread, 0);
    var nread', queue' := (nread + 1) % WRAP, queue[1..];
    forall k | 0 <= k < |queue'|
      ensures data[Slot(nread', k)] == queue'[k]
    {
      NextSlot(nread, k);
      assert queue'[k] == queue[k + 1];
    }
    NextCounter(nread, |queue'|);
  }

  lemma NextCounter(nread: nat, k: nat)
    requires nread < WRAP
    ensures ((nread + 1) % WRAP + k) % WRAP == (nread + k + 1) % WRAP
  {
  }

  lemma OtherSlot(nread: nat, k: nat, l: nat)
    requires k < l < k + PIPESIZE
    ensures Slot(nread, k) != Slot(nread, l)
  {
  }

  // The counters wrap at a multiple of the ring size.
  lemma NextSlot(nread: nat, k: nat)
    requires nread < WRAP
    ensures Slot((nread + 1) % WRAP, k) == Slot(nread, k + 1)
  {
  }

  class Ring {
    const data: array<Byte>
    var nread: nat
    var nwrite: nat
    var readopen: bool
    var writeopen: bool
    var readers: set<nat>              // asleep on &nread
    var writers: set<nat>              // asleep on &nwrite
    ghost var queue: seq<Byte>

    ghost predicate Valid()
      reads this, data
    {
      data.Length == PIPESIZE && |queue| <= PIPESIZE && RingOk(data[..], nread, nwrite, queue)
    }

    ghost function Abs(): View
      reads this
    {
      View(queue, readopen, writeopen, readers, writers)
    }

    // pipealloc()
    constructor ()
      ensures Valid() && fresh(data) && Abs() == Fresh
    {
      data := new Byte[PIPESIZE](_ => 0);
      nread, nwrite := 0, 0;
      readopen, writeopen := true, true;
      readers, writers := {}, {};
      queue := [];
    }

    // pipewrite() from byte i on, until it returns or sleeps.
    method Write(pid: nat, addr: seq<Byte>, n: int, i: nat, killed: bool) returns (r: Outcome)
      requires Valid() && n <= |addr| && i <= Positive(n)
      modifies this, data
      ensures Valid()
      ensures
        var rest := addr[i..Positive(n)];
        && Abs() == AfterWrite(old(Abs()), pid, rest, killed)
        && r == if Accepted(old(Abs()), rest) == |rest| then Returned(n)
                else if !old(readopen) || killed then Returned(-1)
                else Slept(i + Accepted(old(Abs()), rest))
      ensures readopen == old(readopen) && writeopen == old(writeopen)
      ensures n < 0 ==> r == Returned(n) && queue == old(queue)
      ensures n >= 0 ==> (r == Returned(n) <==> |old(queue)| + n - i <= 512)
      ensures n >= 0 && r == Returned(n) ==> queue == old(queue) + addr[i..n]
      ensures n >= 0 && r != Returned(n) ==> queue == old(queue) + addr[i..i + 512 - |old(queue)|] && |queue| == 512
      ensures r.Slept? ==> i <= r.done < n && queue == old(queue) + addr[i..r.done]
      ensures r.Slept? ==> readers == {} && writers == old(writers) + {pid}
      ensures r == Returned(n) ==> readers == {} && writers == old(writers)
      ensures r.Returned? && r != Returned(n) ==> r == Returned(-1)
      ensures r.Returned? && r != Returned(n) ==> readers == old(readers) && writers == old(writers)
    {
      hide RingOk;
      var j := i;
      while j < n
        invariant i <= j <= Positive(n) && Valid()
        invariant queue == old(queue) + addr[i..j]
        invariant Abs() == old(Abs()).(queue := queue)
      {
        Counters(data[..], nread, nwrite, queue);
        if nwrite == (nread + PIPESIZE) % WRAP {
          assert addr[i..j] == addr[i..Positive(n)][..j - i];
          if !readopen || killed {
            return Returned(-1);
          }
          readers := {};
          writers := writers + {pid};
          return Slept(j);
        }
        Store(addr[j]);
        assert old(queue) + addr[i..j + 1] == old(queue) + addr[i..j] + [addr[j]];
        j := j + 1;
      }
      assert addr[i..j] == addr[i..Positive(n)] == addr[i..Positive(n)][..j - i];
      readers := {};
      return Returned(n);
    }

    // One byte into a ring that is not full.
    method Store(b: Byte)
      requires Valid() && |queue| < PIPESIZE
      modifies this`nwrite, this`queue, data
      ensures Valid() && queue == old(queue) + [b]
    {
      hide RingOk;
      StoreOk(data[..], nread, nwrite, queue, b);
      data[nwrite % PIPESIZE] := b;
      assert data[..] == old(data[..])[nwrite % PIPESIZE := b];
      nwrite := (nwrite + 1) % WRAP;
      queue := queue + [b];
    }

    // One byte out of a ring that is not empty.
    method Fetch() returns (b: Byte)
      requires Valid() && queue != []
      modifies this`nread, this`queue
      ensures Valid() && b == old(queue)[0] && queue == old(queue)[1..]
    {
      hide RingOk;
      FetchOk(data[..], nread, nwrite, queue);
      b := data[nread % PIPESIZE];
      nread := (nread + 1) % WRAP;
      queue := queue[1..];
    }

    // The loop of piperead().
    method Drain(n: int) returns (out: seq<Byte>)
      requires Valid()
      modifies this`nread, this`queue
      ensures Valid() && |out| == Min(Positive(n), |old(queue)|)
      ensures |out| == if n < 0 then 0 else if n < |old(queue)| then n else |old(queue)|
      ensures out == old(queue)[..|out|] && queue == old(queue)[|out|..]
    {
      hide RingOk;
      out := [];
      var i := 0;
      EmptyRing(data[..], nread, nwrite, queue);
      while i < n && nread != nwrite
        invariant 0 <= i <= |old(queue)| && (n < 0 ==> i == 0) && (n >= 0 ==> i <= n) && Valid()
        invariant queue == old(queue)[i..] && out == old(queue)[..i]
        invariant nread == nwrite <==> queue == []
      {
        var b := Fetch();
        assert old(queue)[..i + 1] == old(queue)[..i] + [b];
        out := out + [b];
        i := i + 1;
        EmptyRing(data[..], nread, nwrite, queue);
      }
    }

    // piperead(), until it returns or sleeps.
    method Read(pid: nat, n: int, killed: bool) returns (r: Outcome, out: seq<Byte>)
      requires Valid()
      modifies this
      ensures Valid()
      ensures Abs() == AfterRead(old(Abs()), pid, n, killed)
      ensures MustWait(old(Abs())) ==> out == [] && r == if killed then Returned(-1) else Slept(0)
      ensures !MustWait(old(Abs())) ==> out + queue == old(queue) && r == Returned(|out|)
      ensures readopen == old(readopen) && writeopen == old(writeopen)
      ensures old(queue) == [] && old(writeopen) ==>
                && (killed ==> r == Returned(-1) && readers == old(readers))
                && (!killed ==> r.Slept? && readers == old(readers) + {pid})
                && out == [] && queue == [] && writers == old(writers)
      ensures !(old(queue) == [] && old(writeopen)) ==>
                && r == Returned(|out|) && writers == {} && readers == old(readers)
                && |out| == (if n < 0 then 0 else if n < |old(queue)| then n else |old(queue)|)
    {
      hide RingOk;
      EmptyRing(data[..], nread, nwrite, queue);
      out := [];
      if nread == nwrite && writeopen {
        if killed {
          return Returned(-1), [];
        }
        readers := readers + {pid};
        return Slept(0), [];
      }
      out := Drain(n);
      writers := {};
      return Returned(|out|), out;
    }

    // pipeclose()
    method Close(writable: bool) returns (freed: bool)
      requires Valid()
      modifies this
      ensures Valid() && Abs() == AfterClose(old(Abs()), writable)
      ensures freed <==> !readopen && !writeopen
      ensures queue == old(queue)
      ensures writable ==> !writeopen && readers == {} && readopen == old(readopen) && writers == old(writers)
      ensures !writable ==> !readopen && writers == {} && writeopen == old(writeopen) && readers == old(readers)
    {
      hide RingOk;
      if writable {
        writeopen := false;
        readers := {};
      } else {
        readopen := false;
        writers := {};
      }
      freed := !readopen && !writeopen;
    }
  }

  // ---- Runs ----

  // A call that runs until it returns or sleeps, a close of one end, or kill() of a sleeper.
  datatype Step =
    | WriteStep(pid: nat, bytes: seq<Byte>, killed: bool)
    | ReadStep(pid: nat, n: int, killed: bool)
    | CloseStep(writable: bool)
    | KillStep(pid: nat)

  // Callers are awake and hold the end they use open, so an end is closed only when no call
  // is inside it.
  predicate Enabled(s: View, step: Step) {
    match step
    case WriteStep(pid, _, _) => s.writeopen && pid !in s.readers + s.writers
    case ReadStep(pid, _, _) => s.readopen && pid !in s.readers + s.writers
    case CloseStep(writable) => if writable then s.writeopen && s.writers == {} else s.readopen && s.readers == {}
    case KillStep(_) => true
  }

  function Next(s: View, step: Step): (t: View)
    requires |s.queue| <= PIPESIZE
    ensures |t.queue| <= PIPESIZE
  {
    match step
    case WriteStep(pid, bytes, killed) => AfterWrite(s, pid, bytes, killed)
    case ReadStep(pid, n, killed) => AfterRead(s, pid, n, killed)
    case CloseStep(writable) => AfterClose(s, writable)
    case KillStep(pid) => s.(readers := s.readers - {pid}, writers := s.writers - {pid})
  }

  // The bytes that a step stores in the pipe, and those that it delivers.
  function Stored(s: View, step: Step): seq<Byte>
    requires |s.queue| <= PIPESIZE
  {
    if step.WriteStep? then step.bytes[..Accepted(s, step.bytes)] else []
  }

  function Delivered(s: View, step: Step): seq<Byte> {
    if step.ReadStep? && !MustWait(s) then s.queue[..Min(Positive(step.n), |s.queue|)] else []
  }

  function After(s: View, steps: seq<Step>): (t: View)
    requires |s.queue| <= PIPESIZE
    ensures |t.queue| <= PIPESIZE
    decreases |steps|
  {
    if steps == [] then s else After(Next(s, steps[0]), steps[1..])
  }

  function AllStored(s: View, steps: seq<Step>): seq<Byte>
    requires |s.queue| <= PIPESIZE
    decreases |steps|
  {
    if steps == [] then [] else Stored(s, steps[0]) + AllStored(Next(s, steps[0]), steps[1..])
  }

  function AllDelivered(s: View, steps: seq<Step>): seq<Byte>
    requires |s.queue| <= PIPESIZE
    decreases |steps|
  {
    if steps == [] then [] else Delivered(s, steps[0]) + AllDelivered(Next(s, steps[0]), steps[1..])
  }

  predicate Legal(s: View, steps: seq<Step>)
    requires |s.queue| <= PIPESIZE
    decreases |steps|
  {
    steps == [] || (Enabled(s, steps[0]) && Legal(Next(s, steps[0]), steps[1..]))
  }

  const Fresh: View := View([], true, true, {}, {})

  lemma StepConserves(s: View, step: Step)
    requires |s.queue| <= PIPESIZE
    ensures Delivered(s, step) + Next(s, step).queue == s.queue + Stored(s, step)
  {
  }

  // First in, first out: what has been delivered, followed by what is in the pipe, is what
  // has been stored. So it is a prefix of it, and at most PIPESIZE bytes behind.
  lemma {:induction false} FirstInFirstOut(s: View, steps: seq<Step>)
    requires |s.queue| <= PIPESIZE
    ensures AllDelivered(s, steps) + After(s, steps).queue == s.queue + AllStored(s, steps)
    decreases |steps|
  {
    hide Next, Delivered, Stored;
    if steps == [] {
    } else {
      var t := Next(s, steps[0]);
      FirstInFirstOut(t, steps[1..]);
      StepConserves(s, steps[0]);
      Regroup(Delivered(s, steps[0]), t.queue, s.queue, Stored(s, steps[0]),
              AllDelivered(t, steps[1..]), After(t, steps[1..]).queue, AllStored(t, steps[1..]));
    }
  }

  lemma Regroup(d: seq<Byte>, q: seq<Byte>, q0: seq<Byte>, p: seq<Byte>, ds: seq<Byte>, e: seq<Byte>, ps: seq<Byte>)
    requires d + q == q0 + p && ds + e == q + ps
    ensures (d + ds) + e == q0 + (p + ps)
  {
    assert (d + ds) + e == d + (ds + e);
    assert d + (q + ps) == (d + q) + ps;
    assert (q0 + p) + ps == q0 + (p + ps);
  }

  lemma PrefixOfStored(steps: seq<Step>)
    ensures AllDelivered(Fresh, steps) <= AllStored(Fresh, steps)
    ensures |AllStored(Fresh, steps)| - |AllDelivered(Fresh, steps)| <= PIPESIZE
  {
    FirstInFirstOut(Fresh, steps);
    assert [] + AllStored(Fresh, steps) == AllStored(Fresh, steps);
  }

  // Nobody sleeps for nothing: a sleeping reader waits on an empty pipe that a writer may
  // still fill, and a sleeping writer on a full one that a reader may still drain.
  predicate SleepersOk(s: View) {
    && (s.readers != {} ==> s.queue == [] && s.writeopen && s.readopen)
    && (s.writers != {} ==> |s.queue| == PIPESIZE && s.readopen && s.writeopen)
  }

  // A killed writer that fills the pipe returns without waking the readers.
  predicate StrandsReaders(s: View, step: Step) {
    step.WriteStep? && step.killed && s.readers != {} && |step.bytes| > PIPESIZE
  }

  lemma StepSleepers(s: View, step: Step)
    requires |s.queue| <= PIPESIZE && SleepersOk(s) && Enabled(s, step)
    ensures SleepersOk(Next(s, step)) <==> !StrandsReaders(s, step)
  {
    var t := Next(s, step);
    match step
    case WriteStep(pid, bytes, killed) =>
      var k := Accepted(s, bytes);
      assert bytes[..k] == [] <==> k == 0;
      assert pid in s.writers + {pid};
    case ReadStep(pid, n, killed) =>
      assert pid in s.readers + {pid};
    case CloseStep(_) =>
    case KillStep(_) =>
  }

  // No step of the run strands readers.
  ghost predicate NeverStrands(s: View, steps: seq<Step>)
    requires |s.queue| <= PIPESIZE
    decreases |steps|
  {
    steps == [] || (!StrandsReaders(s, steps[0]) && NeverStrands(Next(s, steps[0]), steps[1..]))
  }

  // Every sleeper is justified in every state of the run.
  ghost predicate AlwaysOk(s: View, steps: seq<Step>)
    requires |s.queue| <= PIPESIZE
    decreases |steps|
  {
    SleepersOk(s) && (steps == [] || AlwaysOk(Next(s, steps[0]), steps[1..]))
  }

  // Over whole runs, kills included: exactly the runs without such a step keep every sleeper
  // justified throughout.
  lemma {:induction false} RunSleepers(s: View, steps: seq<Step>)
    requires |s.queue| <= PIPESIZE && SleepersOk(s) && Legal(s, steps)
    ensures AlwaysOk(s, steps) <==> NeverStrands(s, steps)
    ensures NeverStrands(s, steps) ==> SleepersOk(After(s, steps))
    decreases |steps|
  {
    if steps == [] {
    } else {
      StepSleepers(s, steps[0]);
      if !StrandsReaders(s, steps[0]) {
        RunSleepers(Next(s, steps[0]), steps[1..]);
      }
    }
  }

  // No step of the run is taken by a killed process.
  predicate KillFree(steps: seq<Step>) {
    forall i | 0 <= i < |steps| ::
      match steps[i]
      case WriteStep(_, _, killed) => !killed
      case ReadStep(_, _, killed) => !killed
      case CloseStep(_) => true
      case KillStep(_) => false
  }

  lemma {:induction false} KillFreeNeverStrands(s: View, steps: seq<Step>)
    requires |s.queue| <= PIPESIZE && KillFree(steps)
    ensures NeverStrands(s, steps)
    decreases |steps|
  {
    if steps == [] {
    } else {
      assert !StrandsReaders(s, steps[0]);
      KillFreeNeverStrands(Next(s, steps[0]), steps[1..]);
    }
  }

  // In every kill-free run from a new pipe.
  lemma NoLostWakeup(steps: seq<Step>)
    requires Legal(Fresh, steps) && KillFree(steps)
    ensures
      var s := After(Fresh, steps);
      && (s.readers != {} ==> s.queue == [] && s.writeopen)
      && (s.writers != {} ==> |s.queue| == PIPESIZE && s.readopen)
      && (s.readers == {} || s.writers == {})
  {
    KillFreeNeverStrands(Fresh, steps);
    RunSleepers(Fresh, steps);
  }

  // With kill the promise is broken: a reader sleeps while 512 bytes wait for it.
  lemma KilledWriterStrandsReader(bytes: seq<Byte>)
    requires |bytes| > PIPESIZE
    ensures
      var steps := [ReadStep(1, 1, false), WriteStep(2, bytes, true)];
      Legal(Fresh, steps) && After(Fresh, steps).readers == {1} && |After(Fresh, steps).queue| == PIPESIZE
  {
    var first, second := ReadStep(1, 1, false), WriteStep(2, bytes, true);
    var s := Next(Fresh, first);
    assert s == View([], true, true, {1}, {});
    var t := Next(s, second);
    assert t.readers == {1} && |t.queue| == PIPESIZE;
    assert [first, second][1..] == [second] && [second][1..] == [];
    assert After(s, [second]) == After(t, []) == t;
    assert Legal(t, []);
    assert Legal(s, [second]);
  }
}
