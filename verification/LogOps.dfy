// Log space reservation of log.c: begin_op(), log_write(), end_op() and the end of
// commit() as the steps of any number of interleaved file-system calls.
module LogOps {
  import opened Common
  import opened LogDisk

  // One file-system call between begin_op() and end_op().
  datatype Op = Op(logged: set<nat>, calls: nat)

  // lh is log.lh.block[0..log.lh.n]; `ops` lists the outstanding calls.
  datatype State = State(lh: seq<nat>, outstanding: int, committing: bool, ops: seq<Op>)

  const Start := State([], 0, false, [])

  datatype Step =
    | Begin
    | LogWrite(op: nat, blockno: nat)
    | End(op: nat)
    | CommitDone

  // The guards of begin_op() and log_write().
  predicate MayBegin(lh: nat, outstanding: int, committing: bool) {
    !committing && lh + (outstanding + 1) * MAXOPBLOCKS <= LOGSIZE
  }

  predicate TooBig(size: nat, lh: nat) {
    lh >= LOGSIZE || lh >= size - 1
  }

  // Log absorption: a block already in the log keeps its entry.
  function Absorb(lh: seq<nat>, b: nat): seq<nat> {
    if b in lh then lh else lh + [b]
  }

  // The step can be taken: it does not sleep, and names a call in progress.
  ghost predicate Enabled(s: State, step: Step) {
    match step
    case Begin => MayBegin(|s.lh|, s.outstanding, s.committing)
    case LogWrite(op, _) => op < |s.ops|
    case End(op) => op < |s.ops|
    case CommitDone => s.committing
  }

  function Next(s: State, step: Step): State
    requires Enabled(s, step)
  {
    match step
    case Begin => s.(outstanding := s.outstanding + 1, ops := s.ops + [Op({}, 0)])
    case LogWrite(op, b) =>
      s.(lh := Absorb(s.lh, b), ops := s.ops[op := Op(s.ops[op].logged + {b}, s.ops[op].calls + 1)])
    case End(op) =>
      s.(outstanding := s.outstanding - 1,
         committing := s.outstanding == 1,
         ops := s.ops[..op] + s.ops[op + 1..])
    case CommitDone => s.(lh := [], committing := false)
  }

  // ---- The reservation invariant ----

  function Unspent(ops: seq<Op>): int {
    if ops == [] then 0 else MAXOPBLOCKS - |ops[0].logged| + Unspent(ops[1..])
  }

  ghost predicate NoRepeats(lh: seq<nat>) {
    forall i, j | 0 <= i < j < |lh| :: lh[i] != lh[j]
  }

  ghost predicate Inv(s: State) {
    && s.outstanding == |s.ops|
    && (s.committing ==> s.outstanding == 0)
    && NoRepeats(s.lh)
    && (forall i | 0 <= i < |s.ops| :: |s.ops[i].logged| <= MAXOPBLOCKS && |s.ops[i].logged| <= s.ops[i].calls)
    && (forall i, b | 0 <= i < |s.ops| && b in s.ops[i].logged :: b in s.lh)
    && |s.lh| + Unspent(s.ops) <= LOGSIZE
  }

  lemma {:induction false} UnspentConcat(u: seq<Op>, v: seq<Op>)
    ensures Unspent(u + v) == Unspent(u) + Unspent(v)
  {
    if u == [] {
      assert u + v == v;
    } else {
      assert (u + v)[1..] == u[1..] + v;
      UnspentConcat(u[1..], v);
    }
  }

  lemma UnspentAt(ops: seq<Op>, i: nat)
    requires i < |ops|
    ensures Unspent(ops) == Unspent(ops[..i]) + (MAXOPBLOCKS - |ops[i].logged|) + Unspent(ops[i + 1..])
  {
    assert ops == ops[..i] + ops[i..];
    UnspentConcat(ops[..i], ops[i..]);
    assert ops[i..][1..] == ops[i + 1..];
  }

  lemma {:induction false} UnspentBounds(ops: seq<Op>)
    requires forall i | 0 <= i < |ops| :: |ops[i].logged| <= MAXOPBLOCKS
    ensures 0 <= Unspent(ops) <= MAXOPBLOCKS * |ops|
  {
    if ops == [] {
    } else {
      UnspentBounds(ops[1..]);
    }
  }

  // A call that logs no more than MAXOPBLOCKS distinct blocks.
  ghost predicate WithinBudget(s: State, step: Step)
    requires Enabled(s, step)
  {
    step.LogWrite? ==> |s.ops[step.op].logged + {step.blockno}| <= MAXOPBLOCKS
  }

  lemma BeginKeepsInv(s: State)
    requires Inv(s) && Enabled(s, Begin)
    ensures Inv(Next(s, Begin))
  {
    UnspentConcat(s.ops, [Op({}, 0)]);
    UnspentBounds(s.ops);
    assert Unspent([Op({}, 0)]) == MAXOPBLOCKS + Unspent([]);
  }

  lemma LogWriteKeepsInv(s: State, op: nat, b: nat)
    requires Inv(s) && Enabled(s, LogWrite(op, b)) && WithinBudget(s, LogWrite(op, b))
    ensures Inv(Next(s, LogWrite(op, b)))
  {
    var x := Op(s.ops[op].logged + {b}, s.ops[op].calls + 1);
    var ops := s.ops[op := x];
    UnspentAt(s.ops, op);
    UnspentAt(ops, op);
    assert ops[..op] == s.ops[..op] && ops[op + 1..] == s.ops[op + 1..];
    if b in s.ops[op].logged {
      assert x.logged == s.ops[op].logged;
    } else {
      assert |x.logged| == |s.ops[op].logged| + 1;
    }
  }

  lemma EndKeepsInv(s: State, op: nat)
    requires Inv(s) && Enabled(s, End(op))
    ensures Inv(Next(s, End(op)))
  {
    var ops := s.ops[..op] + s.ops[op + 1..];
    UnspentAt(s.ops, op);
    UnspentConcat(s.ops[..op], s.ops[op + 1..]);
    assert forall i | 0 <= i < |ops| :: ops[i] == s.ops[if i < op then i else i + 1];
  }

  lemma StepKeepsInv(s: State, step: Step)
    requires Inv(s) && Enabled(s, step) && WithinBudget(s, step)
    ensures Inv(Next(s, step))
    ensures step.End? ==> !s.committing  // the panic of end_op() does not happen
  {
    match step
    case Begin => BeginKeepsInv(s);
    case LogWrite(op, b) => LogWriteKeepsInv(s, op, b);
    case End(op) => EndKeepsInv(s, op);
    case CommitDone =>
  }

  // ---- Runs ----

  // Every step is enabled when it is taken and every call stays within its budget.
  ghost predicate IsRun(s: State, steps: seq<Step>)
    decreases |steps|
  {
    steps == [] || (Enabled(s, steps[0]) && WithinBudget(s, steps[0]) && IsRun(Next(s, steps[0]), steps[1..]))
  }

  ghost function Run(s: State, steps: seq<Step>): State
    requires IsRun(s, steps)
    decreases |steps|
  {
    if steps == [] then s else Run(Next(s, steps[0]), steps[1..])
  }

  // If every call logs at most MAXOPBLOCKS distinct blocks, then in every interleaving the
  // logged blocks and the unspent reservations fit the log together, no block is logged
  // twice, and nothing is outstanding while a commit runs.
  lemma {:induction false} ReservationHolds(s: State, steps: seq<Step>)
    requires Inv(s) && IsRun(s, steps)
    ensures Inv(Run(s, steps))
    decreases |steps|
  {
    if steps == [] {
    } else {
      StepKeepsInv(s, steps[0]);
      ReservationHolds(Next(s, steps[0]), steps[1..]);
    }
  }

  // ---- When log_write() panics ----

  // log_write() tests for a full log before it looks for an entry to absorb into, so what
  // counts is that each call still finds room: the operation has logged fewer than
  // MAXOPBLOCKS distinct blocks, however often.
  ghost predicate FindsRoom(s: State, step: Step)
    requires Enabled(s, step)
  {
    step.LogWrite? ==> |s.ops[step.op].logged| < MAXOPBLOCKS
  }

  ghost predicate IsRoomRun(s: State, steps: seq<Step>)
    decreases |steps|
  {
    steps == [] || (Enabled(s, steps[0]) && FindsRoom(s, steps[0]) && IsRoomRun(Next(s, steps[0]), steps[1..]))
  }

  // The stricter discipline of at most MAXOPBLOCKS calls.
  ghost predicate CallsWithinBudget(s: State, step: Step)
    requires Enabled(s, step)
  {
    step.LogWrite? ==> s.ops[step.op].calls < MAXOPBLOCKS
  }

  ghost predicate IsCallRun(s: State, steps: seq<Step>)
    decreases |steps|
  {
    steps == [] || (Enabled(s, steps[0]) && CallsWithinBudget(s, steps[0]) && IsCallRun(Next(s, steps[0]), steps[1..]))
  }

  lemma {:induction false} CallRunIsRoomRun(s: State, steps: seq<Step>)
    requires Inv(s) && IsCallRun(s, steps)
    ensures IsRoomRun(s, steps)
    decreases |steps|
  {
    if steps == [] {
    } else {
      StepKeepsInv(s, steps[0]);
      CallRunIsRoomRun(Next(s, steps[0]), steps[1..]);
    }
  }

  // An operation whose calls of log_write() are `calls` finds room at each of them, whatever
  // other operations do in between.
  lemma CallFindsRoom(s: State, op: nat, calls: seq<nat>, k: nat)
    requires RoomCalls(calls) && k < |calls| && op < |s.ops| && s.ops[op].logged == Members(calls[..k])
    ensures
      var step := LogWrite(op, calls[k]);
      FindsRoom(s, step) && Next(s, step).ops[op].logged == Members(calls[..k + 1])
  {
    assert calls[..k + 1] == calls[..k] + [calls[k]];
  }

  // Some step of the run calls log_write() on a log it takes for full.
  ghost predicate Panics(size: nat, s: State, steps: seq<Step>)
    decreases |steps|
  {
    && steps != [] && Enabled(s, steps[0])
    && ((steps[0].LogWrite? && TooBig(size, |s.lh|)) || Panics(size, Next(s, steps[0]), steps[1..]))
  }

  // With room for LOGSIZE blocks, a log_write() that finds room finds the log not full.
  lemma RoomForCall(size: nat, s: State, op: nat)
    requires Inv(s) && op < |s.ops| && |s.ops[op].logged| < MAXOPBLOCKS && size > LOGSIZE
    ensures !TooBig(size, |s.lh|)
  {
    UnspentAt(s.ops, op);
    UnspentBounds(s.ops[..op]);
    UnspentBounds(s.ops[op + 1..]);
  }

  lemma {:induction false} LargeLogNeverPanics(size: nat, s: State, steps: seq<Step>)
    requires size > LOGSIZE && Inv(s) && IsRoomRun(s, steps)
    ensures !Panics(size, s, steps)
    decreases |steps|
  {
    if steps == [] {
    } else {
      if steps[0].LogWrite? {
        RoomForCall(size, s, steps[0].op);
      }
      StepKeepsInv(s, steps[0]);
      LargeLogNeverPanics(size, Next(s, steps[0]), steps[1..]);
    }
  }

  // The state in which three calls have logged blocks 0 .. k - 1, ten each, in turn.
  ghost function Filled(k: nat): State
    requires k <= 3 * MAXOPBLOCKS
  {
    State(seq(k, i => i), 3, false, [Share(k, 0), Share(k, 1), Share(k, 2)])
  }

  ghost function Share(k: nat, op: nat): Op {
    var c := if k < 10 * op then 0 else if k < 10 * op + 10 then k - 10 * op else 10;
    Op(Interval(10 * op, c), c)
  }

  lemma ShareNext(k: nat, op: nat)
    requires k < 30 && op < 3
    ensures
      var x := Share(k, op);
      Share(k + 1, op) == if op == k / 10 then Op(x.logged + {k}, x.calls + 1) else x
  {
    hide Interval;
    if op == k / 10 {
      assert Interval(10 * op, k - 10 * op + 1) == Interval(10 * op, k - 10 * op) + {k};
    }
  }

  lemma FillOne(k: nat)
    requires k < 30
    ensures Enabled(Filled(k), LogWrite(k / 10, k)) && CallsWithinBudget(Filled(k), LogWrite(k / 10, k))
    ensures Next(Filled(k), LogWrite(k / 10, k)) == Filled(k + 1)
  {
    hide Interval;
    ShareNext(k, 0);
    ShareNext(k, 1);
    ShareNext(k, 2);
    assert seq(k, i => i) + [k] == seq(k + 1, i => i);
  }

  // From a log holding k blocks, filling on up to a log of `size` blocks panics.
  lemma {:induction false} FillingPanics(size: nat, k: nat) returns (steps: seq<Step>)
    requires size <= LOGSIZE && k <= 29
    requires k <= size - 1 || TooBig(size, k)
    ensures IsCallRun(Filled(k), steps) && Panics(size, Filled(k), steps)
    decreases 30 - k
  {
    FillOne(k);
    if TooBig(size, |Filled(k).lh|) {
      steps := [LogWrite(k / 10, k)];
    } else {
      var rest := FillingPanics(size, k + 1);
      steps := [LogWrite(k / 10, k)] + rest;
      assert steps[1..] == rest;
    }
  }

  lemma SmallLogPanics(size: nat) returns (steps: seq<Step>)
    requires size <= LOGSIZE
    ensures IsCallRun(Start, steps) && Panics(size, Start, steps)
  {
    var rest := FillingPanics(size, 0);
    var s1, s2 := Next(Start, Begin), Next(Next(Start, Begin), Begin);
    assert Next(s2, Begin) == Filled(0) by {
      assert Share(0, 0) == Share(0, 1) == Share(0, 2) == Op({}, 0);
    }
    steps := [Begin] + ([Begin] + ([Begin] + rest));
    assert steps[1..] == [Begin] + ([Begin] + rest);
    assert steps[1..][1..] == [Begin] + rest;
    assert steps[1..][1..][1..] == rest;
  }

  ghost predicate NeverPanics(size: nat) {
    forall steps | IsRoomRun(Start, steps) :: !Panics(size, Start, steps)
  }

  ghost predicate CallsNeverPanic(size: nat) {
    forall steps | IsCallRun(Start, steps) :: !Panics(size, Start, steps)
  }

  // Operations that keep to either discipline never meet "too big a transaction" exactly when
  // the on-disk log has more than LOGSIZE blocks. mkfs.c makes it LOGSIZE blocks, header
  // included, so they can.
  lemma NoPanicIffLogLarge(size: nat)
    ensures NeverPanics(size) <==> size > LOGSIZE
    ensures CallsNeverPanic(size) <==> size > LOGSIZE
  {
    forall steps | IsCallRun(Start, steps)
      ensures IsRoomRun(Start, steps)
    {
      CallRunIsRoomRun(Start, steps);
    }
    if size > LOGSIZE {
      forall steps | IsRoomRun(Start, steps)
        ensures !Panics(size, Start, steps)
      {
        LargeLogNeverPanics(size, Start, steps);
      }
    } else {
      var steps := SmallLogPanics(size);
    }
  }

  // ---- A log with room for LOGSIZE blocks can be filled ----

  ghost function CallRun(s: State, steps: seq<Step>): State
    requires IsCallRun(s, steps)
    decreases |steps|
  {
    if steps == [] then s else CallRun(Next(s, steps[0]), steps[1..])
  }

  lemma {:induction false} CallRunConcat(s: State, u: seq<Step>, v: seq<Step>)
    requires IsCallRun(s, u) && IsCallRun(CallRun(s, u), v)
    ensures IsCallRun(s, u + v) && CallRun(s, u + v) == CallRun(CallRun(s, u), v)
    decreases |u|
  {
    if u == [] {
      assert u + v == v;
    } else {
      assert (u + v)[1..] == u[1..] + v;
      CallRunConcat(Next(s, u[0]), u[1..], v);
    }
  }

  lemma {:induction false} FillUp(k: nat) returns (steps: seq<Step>)
    requires k <= 30
    ensures IsCallRun(Filled(k), steps) && CallRun(Filled(k), steps) == Filled(30)
    decreases 30 - k
  {
    hide Filled;
    steps := [];
    if k < 30 {
      FillOne(k);
      var rest := FillUp(k + 1);
      steps := [LogWrite(k / 10, k)] + rest;
      assert steps[1..] == rest;
    }
  }

  lemma ThreeBegin()
    ensures IsCallRun(Start, [Begin, Begin, Begin]) && CallRun(Start, [Begin, Begin, Begin]) == Filled(0)
  {
  }

  lemma ThreeEnd(s: State)
    requires |s.ops| == s.outstanding == 3
    ensures
      var steps := [End(0), End(0), End(0)];
      IsCallRun(s, steps) && CallRun(s, steps).committing && CallRun(s, steps).lh == s.lh
  {
  }

  // Three calls that log ten blocks each reach a commit of LOGSIZE blocks.
  lemma FullCommit() returns (steps: seq<Step>)
    ensures IsCallRun(Start, steps) && CallRun(Start, steps).committing && |CallRun(Start, steps).lh| == LOGSIZE
  {
    ThreeBegin();
    var fill := FillUp(0);
    CallRunConcat(Start, [Begin, Begin, Begin], fill);
    ThreeEnd(Filled(30));
    CallRunConcat(Start, [Begin, Begin, Begin] + fill, [End(0), End(0), End(0)]);
    steps := [Begin, Begin, Begin] + fill + [End(0), End(0), End(0)];
  }
}
