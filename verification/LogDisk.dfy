// The on-disk redo log of log.c, one atomic block write at a time: what commit()
// and recover_from_log() write, and what a crash between any two writes leaves.
module LogDisk {
  import opened Blocks

  const LOGSIZE: nat := 30

  type Disk = seq<Block>

  datatype Write = Write(blockno: nat, data: Block)

  // The blocks one commit carries, in log order, and the contents it gives them.
  type Txn = seq<Write>

  // log.start and log.size, as initlog() takes them from the super block: block
  // `start` is the header, the `size - 1` blocks after it are the log slots.
  datatype Layout = Layout(start: nat, size: nat, blocks: nat) {
    ghost predicate Valid() {
      1 <= size && start + size <= blocks
    }

    predicate IsHome(b: nat) {
      b < blocks && !(start <= b < start + size)
    }
  }

  // ---- The header block ----

  function HeaderCount(b: Block): Word {
    WordAt(b, 0)
  }

  function HeaderEntry(b: Block, i: nat): Word
    requires i < LOGSIZE
  {
    WordAt(b, i + 1)
  }

  // write_head(): the count and the first n entries; later entries keep stale values.
  function SetHeader(b: Block, t: Txn): Block
    requires FitsHeader(t)
  {
    SetEntries(SetWord(b, 0, |t|), t, |t|)
  }

  ghost predicate FitsHeader(t: Txn) {
    |t| <= LOGSIZE && forall i | 0 <= i < |t| :: t[i].blockno < 0x1_0000_0000
  }

  function SetEntries(b: Block, t: Txn, k: nat): Block
    requires k <= |t| && FitsHeader(t)
  {
    if k == 0 then b else SetWord(SetEntries(b, t, k - 1), k, t[k - 1].blockno)
  }

  lemma {:induction false} SetEntriesWords(b: Block, t: Txn, k: nat)
    requires k <= |t| && FitsHeader(t)
    ensures WordAt(SetEntries(b, t, k), 0) == WordAt(b, 0)
    ensures forall i | 0 <= i < k :: HeaderEntry(SetEntries(b, t, k), i) == t[i].blockno
  {
    if k == 0 {
    } else {
      SetEntriesWords(b, t, k - 1);
      SetWordThenRead(SetEntries(b, t, k - 1), k, t[k - 1].blockno);
    }
  }

  ghost predicate HeaderSays(b: Block, t: Txn) {
    && HeaderCount(b) == |t| <= LOGSIZE
    && forall i | 0 <= i < |t| :: HeaderEntry(b, i) == t[i].blockno
  }

  // read_head() returns exactly what write_head() stored.
  lemma HeaderRoundTrip(b: Block, t: Txn)
    requires FitsHeader(t)
    ensures HeaderSays(SetHeader(b, t), t)
    ensures
      var h := SetHeader(b, t);
      WordAt(h, 0) == |t| && forall i | 0 <= i < |t| :: WordAt(h, i + 1) == t[i].blockno
  {
    SetWordThenRead(b, 0, |t|);
    SetEntriesWords(SetWord(b, 0, |t|), t, |t|);
  }

  // ---- Sequences of disk writes ----

  // Writes outside the disk, which iderw() refuses, have no effect.
  function Apply(d: Disk, ws: seq<Write>): (r: Disk)
    ensures |r| == |d|
  {
    if ws == [] then d else Put(Apply(d, ws[..|ws| - 1]), ws[|ws| - 1])
  }

  function Put(d: Disk, w: Write): (r: Disk)
    ensures |r| == |d|
  {
    if w.blockno < |d| then d[w.blockno := w.data] else d
  }

  lemma {:induction false} ApplyConcat(d: Disk, u: seq<Write>, v: seq<Write>)
    ensures Apply(d, u + v) == Apply(Apply(d, u), v)
  {
    if v == [] {
      assert u + v == u;
    } else {
      assert (u + v)[..|u + v| - 1] == u + v[..|v| - 1];
      ApplyConcat(d, u, v[..|v| - 1]);
    }
  }

  lemma ApplySnoc(d: Disk, ws: seq<Write>, w: Write)
    ensures Apply(d, ws + [w]) == Put(Apply(d, ws), w)
  {
  }

  ghost predicate Names(ws: seq<Write>, b: nat) {
    exists i :: 0 <= i < |ws| && ws[i].blockno == b
  }

  // A block no write names keeps its contents.
  lemma {:induction false} ApplyUntouched(d: Disk, ws: seq<Write>, b: nat)
    requires b < |d| && !Names(ws, b)
    ensures Apply(d, ws)[b] == d[b]
  {
    if ws == [] {
    } else {
      assert ws[|ws| - 1].blockno != b;
      assert !Names(ws[..|ws| - 1], b);
      ApplyUntouched(d, ws[..|ws| - 1], b);
    }
  }

  // Redoing writes forgets what the blocks they name held before: the reason
  // installing from the log is safe to repeat.
  lemma {:induction false} ApplyAgrees(d: Disk, e: Disk, ws: seq<Write>, b: nat)
    requires |d| == |e| && b < |d|
    requires d[b] == e[b] || Names(ws, b)
    ensures Apply(d, ws)[b] == Apply(e, ws)[b]
  {
    if ws != [] && ws[|ws| - 1].blockno != b {
      if Names(ws, b) {
        var i :| 0 <= i < |ws| && ws[i].blockno == b;
        assert ws[..|ws| - 1][i].blockno == b;
      }
      ApplyAgrees(d, e, ws[..|ws| - 1], b);
    }
  }

  // A block written at position i and not afterwards holds that write.
  lemma {:induction false} ApplyLast(d: Disk, ws: seq<Write>, i: nat)
    requires i < |ws| && ws[i].blockno < |d|
    requires forall j | i < j < |ws| :: ws[j].blockno != ws[i].blockno
    ensures Apply(d, ws)[ws[i].blockno] == ws[i].data
  {
    if i < |ws| - 1 {
      ApplyLast(d, ws[..|ws| - 1], i);
    }
  }

  // ---- What commit() and recover_from_log() write ----

  ghost predicate ValidTxn(l: Layout, t: Txn) {
    && FitsHeader(t)
    && |t| <= l.size - 1
    && forall i | 0 <= i < |t| :: l.IsHome(t[i].blockno)
  }

  // write_log(): slot i receives block i.
  function SlotWrites(l: Layout, t: Txn): (ws: seq<Write>)
    ensures |ws| == |t|
  {
    seq(|t|, i requires 0 <= i < |t| => Write(l.start + 1 + i, t[i].data))
  }

  // All writes of commit(), in order: the slots, the header block `full` that names the
  // transaction, the home locations (install_trans()) and the emptied header block.
  function CommitWrites(l: Layout, full: Block, empty: Block, t: Txn): (ws: seq<Write>)
    ensures |ws| == if t == [] then 0 else 2 * |t| + 2
  {
    if t == [] then [] else SlotWrites(l, t) + [Write(l.start, full)] + t + [Write(l.start, empty)]
  }

  // What the header and the slots say: the transaction a recovery replays.
  function LoggedTxn(l: Layout, d: Disk): (t: Txn)
    requires ReadableLog(l, d)
    ensures |t| == HeaderCount(d[l.start])
  {
    seq(HeaderCount(d[l.start]), i requires 0 <= i < HeaderCount(d[l.start]) => LogEntry(l, d, i))
  }

  function LogEntry(l: Layout, d: Disk, i: nat): Write
    requires ReadableLog(l, d) && i < HeaderCount(d[l.start])
  {
    Write(HeaderEntry(d[l.start], i), d[l.start + 1 + i])
  }

  ghost predicate ReadableLog(l: Layout, d: Disk) {
    && l.Valid() && |d| == l.blocks
    && HeaderCount(d[l.start]) <= LOGSIZE
    && HeaderCount(d[l.start]) <= l.size - 1
  }

  ghost predicate ValidLog(l: Layout, d: Disk) {
    ReadableLog(l, d) && ValidTxn(l, LoggedTxn(l, d))
  }

  // All writes of recover_from_log(), in order: the home locations, then the emptied
  // header block.
  function RecoveryWrites(l: Layout, d: Disk, empty: Block): (ws: seq<Write>)
    requires ReadableLog(l, d)
    ensures |ws| == HeaderCount(d[l.start]) + 1
  {
    LoggedTxn(l, d) + [Write(l.start, empty)]
  }

  function Recovered(l: Layout, d: Disk, empty: Block): (r: Disk)
    requires ReadableLog(l, d)
    ensures |r| == |d|
  {
    Apply(d, RecoveryWrites(l, d, empty))
  }

  // Equal outside the log area.
  ghost predicate SameHome(l: Layout, d: Disk, e: Disk) {
    && |d| == |e| == l.blocks
    && forall b: nat | l.IsHome(b) :: d[b] == e[b]
  }

  // Equal inside the log area.
  ghost predicate SameLog(l: Layout, d: Disk, e: Disk) {
    && |d| == |e| == l.blocks
    && forall b: nat | l.start <= b < l.start + l.size && b < l.blocks :: d[b] == e[b]
  }

  // The log holds nothing to replay.
  ghost predicate LogEmpty(l: Layout, d: Disk) {
    l.Valid() && |d| == l.blocks && HeaderCount(d[l.start]) == 0
  }

  // ---- Recovery of one disk ----

  // Recovery replays the logged transaction onto the home blocks and empties the log.
  lemma RecoveryInstalls(l: Layout, d: Disk, empty: Block)
    requires ReadableLog(l, d) && HeaderCount(empty) == 0
    ensures SameHome(l, Recovered(l, d, empty), Apply(d, LoggedTxn(l, d)))
    ensures LogEmpty(l, Recovered(l, d, empty))
  {
    ApplySnoc(d, LoggedTxn(l, d), Write(l.start, empty));
  }

  lemma RecoveryOfEmptyLog(l: Layout, d: Disk, empty: Block)
    requires LogEmpty(l, d) && HeaderCount(empty) == 0
    ensures ValidLog(l, d) && SameHome(l, Recovered(l, d, empty), d)
  {
    RecoveryInstalls(l, d, empty);
    assert LoggedTxn(l, d) == [];
  }

  // The header and the slots alone decide what a recovery replays.
  lemma SameLogSameTxn(l: Layout, d: Disk, e: Disk)
    requires ReadableLog(l, d) && SameLog(l, d, e)
    ensures ReadableLog(l, e) && LoggedTxn(l, e) == LoggedTxn(l, d)
  {
  }

  // Installing some home blocks changes neither the header nor a slot.
  lemma InstallingKeepsLog(l: Layout, d: Disk, t: Txn, k: nat)
    requires l.Valid() && |d| == l.blocks && ValidTxn(l, t) && k <= |t|
    ensures SameLog(l, Apply(d, t[..k]), d)
  {
    forall b: nat | l.start <= b < l.start + l.size
      ensures Apply(d, t[..k])[b] == d[b]
    {
      assert !Names(t[..k], b);
      ApplyUntouched(d, t[..k], b);
    }
  }

  // Installing a transaction after part of it was installed gives the same disk.
  lemma InstallAgain(d: Disk, t: Txn, k: nat)
    requires k <= |t|
    ensures Apply(Apply(d, t[..k]), t) == Apply(d, t)
  {
    var e := Apply(d, t[..k]);
    forall b: nat | b < |d|
      ensures Apply(e, t)[b] == Apply(d, t)[b]
    {
      if Names(t[..k], b) {
        var i :| 0 <= i < k && t[..k][i].blockno == b;
        assert t[i].blockno == b;
      } else {
        ApplyUntouched(d, t[..k], b);
      }
      ApplyAgrees(e, d, t, b);
    }
  }

  // Cut after k writes, a recovery leaves a disk that recovers to the same home blocks.
  lemma RecoveryCutShort(l: Layout, d: Disk, empty: Block, k: nat)
    requires ValidLog(l, d) && HeaderCount(empty) == 0 && k <= |RecoveryWrites(l, d, empty)|
    ensures
      var e := Apply(d, RecoveryWrites(l, d, empty)[..k]);
      && ValidLog(l, e)
      && SameHome(l, Recovered(l, e, empty), Recovered(l, d, empty))
  {
    var t, ws := LoggedTxn(l, d), RecoveryWrites(l, d, empty);
    RecoveryInstalls(l, d, empty);
    if k == |ws| {
      assert ws[..k] == ws;
      RecoveryOfEmptyLog(l, Apply(d, ws), empty);
    } else {
      assert ws[..k] == t[..k];
      CutWhileInstalling(l, d, t, empty, k);
    }
  }

  lemma CutWhileInstalling(l: Layout, c: Disk, t: Txn, empty: Block, j: nat)
    requires ReadableLog(l, c) && LoggedTxn(l, c) == t && ValidTxn(l, t) && j <= |t|
    requires HeaderCount(empty) == 0
    ensures ValidLog(l, Apply(c, t[..j]))
    ensures SameHome(l, Recovered(l, Apply(c, t[..j]), empty), Apply(c, t))
  {
    var e := Apply(c, t[..j]);
    InstallingKeepsLog(l, c, t, j);
    SameLogSameTxn(l, c, e);
    RecoveryInstalls(l, e, empty);
    InstallAgain(c, t, j);
  }

  // ---- Crash during commit ----

  // A crash after k writes of commit() leaves a disk that recovers to the home blocks
  // from before the transaction when the header was not yet written, and to all of the
  // transaction otherwise.
  lemma CommitCutShort(l: Layout, d: Disk, full: Block, empty: Block, t: Txn, k: nat)
    requires LogEmpty(l, d) && ValidTxn(l, t) && k <= |CommitWrites(l, full, empty, t)|
    requires HeaderCount(empty) == 0 && (k > |t| ==> HeaderSays(full, t))
    ensures
      var e := Apply(d, CommitWrites(l, full, empty, t)[..k]);
      && ValidLog(l, e)
      && SameHome(l, Recovered(l, e, empty), if k <= |t| then d else Apply(d, t))
  {
    hide ValidLog, SameHome, LogEmpty, ValidTxn, HeaderSays, HeaderCount;
    var ws, n := CommitWrites(l, full, empty, t), |t|;
    if n == 0 {
      assert ws[..k] == [];
      RecoveryOfEmptyLog(l, d, empty);
    } else if k <= n {
      CutBeforeCommitPoint(l, d, full, empty, t, k);
    } else if k < |ws| {
      CutAfterCommitPoint(l, d, full, empty, t, k - n - 1);
    } else {
      assert ws[..k] == ws;
      CutAtEnd(l, d, full, empty, t);
    }
  }

  // The commit point is write number n: before it the slots, after it the home blocks.
  lemma CommitPhases(l: Layout, full: Block, empty: Block, t: Txn, j: nat)
    requires t != [] && j <= |t|
    ensures
      var ws, n := CommitWrites(l, full, empty, t), |t|;
      && ws[..j] == SlotWrites(l, t)[..j]
      && ws[..n + 1 + j] == SlotWrites(l, t) + [Write(l.start, full)] + t[..j]
      && ws == SlotWrites(l, t) + [Write(l.start, full)] + t + [Write(l.start, empty)]
  {
  }

  lemma CutBeforeCommitPoint(l: Layout, d: Disk, full: Block, empty: Block, t: Txn, k: nat)
    requires LogEmpty(l, d) && ValidTxn(l, t) && t != [] && k <= |t| && HeaderCount(empty) == 0
    ensures
      var e := Apply(d, CommitWrites(l, full, empty, t)[..k]);
      && ValidLog(l, e)
      && SameHome(l, Recovered(l, e, empty), d)
  {
    CommitPhases(l, full, empty, t, k);
    var e := Apply(d, SlotWrites(l, t)[..k]);
    SlotsOnly(l, d, t, k);
    RecoveryOfEmptyLog(l, e, empty);
    SameHomeTransitive(l, Recovered(l, e, empty), e, d);
  }

  lemma SlotsOnly(l: Layout, d: Disk, t: Txn, k: nat)
    requires LogEmpty(l, d) && ValidTxn(l, t) && k <= |t|
    ensures LogEmpty(l, Apply(d, SlotWrites(l, t)[..k]))
    ensures SameHome(l, Apply(d, SlotWrites(l, t)[..k]), d)
  {
    var ws := SlotWrites(l, t)[..k];
    forall b: nat | b < |d| && (l.IsHome(b) || b == l.start)
      ensures Apply(d, ws)[b] == d[b]
    {
      assert !Names(ws, b);
      ApplyUntouched(d, ws, b);
    }
  }

  lemma SlotsFilled(l: Layout, d: Disk, t: Txn)
    requires l.Valid() && |d| == l.blocks && ValidTxn(l, t)
    ensures forall i | 0 <= i < |t| :: Apply(d, SlotWrites(l, t))[l.start + 1 + i] == t[i].data
  {
    forall i | 0 <= i < |t|
      ensures Apply(d, SlotWrites(l, t))[l.start + 1 + i] == t[i].data
    {
      ApplyLast(d, SlotWrites(l, t), i);
    }
  }

  // Once the header is on disk, the log holds exactly the transaction.
  lemma HeaderWritten(l: Layout, d: Disk, t: Txn, full: Block)
    requires LogEmpty(l, d) && ValidTxn(l, t) && HeaderSays(full, t)
    ensures
      var c := Apply(d, SlotWrites(l, t) + [Write(l.start, full)]);
      && ReadableLog(l, c)
      && LoggedTxn(l, c) == t
      && SameHome(l, c, d)
  {
    var sw := SlotWrites(l, t);
    assert sw[..|t|] == sw;
    SlotsOnly(l, d, t, |t|);
    SlotsFilled(l, d, t);
    ApplySnoc(d, sw, Write(l.start, full));
    LogHolds(l, Apply(d, sw)[l.start := full], t);
  }

  lemma LogHolds(l: Layout, c: Disk, t: Txn)
    requires l.Valid() && |c| == l.blocks && ValidTxn(l, t) && HeaderSays(c[l.start], t)
    requires forall i | 0 <= i < |t| :: c[l.start + 1 + i] == t[i].data
    ensures ReadableLog(l, c) && LoggedTxn(l, c) == t
  {
  }

  lemma CutAfterCommitPoint(l: Layout, d: Disk, full: Block, empty: Block, t: Txn, j: nat)
    requires LogEmpty(l, d) && ValidTxn(l, t) && t != [] && j <= |t|
    requires HeaderCount(empty) == 0 && HeaderSays(full, t)
    ensures
      var e := Apply(d, CommitWrites(l, full, empty, t)[..|t| + 1 + j]);
      && ValidLog(l, e)
      && SameHome(l, Recovered(l, e, empty), Apply(d, t))
  {
    var before := SlotWrites(l, t) + [Write(l.start, full)];
    HeaderWritten(l, d, t, full);
    CommitPhases(l, full, empty, t, j);
    ApplyConcat(d, before, t[..j]);
    CutWhileInstalling(l, Apply(d, before), t, empty, j);
    SameHomeApply(l, Apply(d, before), d, t);
  }

  lemma SameHomeApply(l: Layout, d: Disk, e: Disk, t: Txn)
    requires SameHome(l, d, e)
    ensures SameHome(l, Apply(d, t), Apply(e, t))
  {
  }

  lemma SameHomeTransitive(l: Layout, a: Disk, b: Disk, c: Disk)
    requires SameHome(l, a, b) && SameHome(l, b, c)
    ensures SameHome(l, a, c)
  {
  }

  // A commit that is not interrupted installs the transaction and empties the log.
  lemma CommitCompletes(l: Layout, d: Disk, full: Block, empty: Block, t: Txn)
    requires LogEmpty(l, d) && ValidTxn(l, t) && HeaderCount(empty) == 0 && HeaderSays(full, t)
    ensures
      var e := Apply(d, CommitWrites(l, full, empty, t));
      && LogEmpty(l, e)
      && SameHome(l, e, Apply(d, t))
  {
    if t != [] {
      CommitPhases(l, full, empty, t, 0);
      var before := SlotWrites(l, t) + [Write(l.start, full)];
      HeaderWritten(l, d, t, full);
      ApplyConcat(d, before, t);
      ApplySnoc(d, before + t, Write(l.start, empty));
      SameHomeApply(l, Apply(d, before), d, t);
    }
  }

  lemma CutAtEnd(l: Layout, d: Disk, full: Block, empty: Block, t: Txn)
    requires LogEmpty(l, d) && ValidTxn(l, t) && HeaderCount(empty) == 0 && HeaderSays(full, t)
    ensures
      var e := Apply(d, CommitWrites(l, full, empty, t));
      && ValidLog(l, e)
      && SameHome(l, Recovered(l, e, empty), Apply(d, t))
  {
    var e := Apply(d, CommitWrites(l, full, empty, t));
    CommitCompletes(l, d, full, empty, t);
    RecoveryOfEmptyLog(l, e, empty);
    SameHomeTransitive(l, Recovered(l, e, empty), e, Apply(d, t));
  }

  // ---- Whole histories ----

  // A header block after `log.lh.n = 0; write_head()`.
  function Cleared(b: Block): (e: Block)
    ensures HeaderCount(e) == 0
  {
    HeaderRoundTrip(b, []);
    SetHeader(b, [])
  }

  // A recovery is attempted once per element of `cuts`, the i-th attempt stopping after
  // cuts[i] writes (or at its end); a last attempt then runs to completion.
  function Reboot(l: Layout, d: Disk, cuts: seq<nat>): (r: Disk)
    requires ValidLog(l, d)
    ensures |r| == |d|
    decreases |cuts|
  {
    var empty := Cleared(d[l.start]);
    if cuts == [] then Recovered(l, d, empty)
    else
      var ws := RecoveryWrites(l, d, empty);
      var k := if cuts[0] < |ws| then cuts[0] else |ws|;
      RecoveryCutShort(l, d, empty, k);
      Reboot(l, Apply(d, ws[..k]), cuts[1..])
  }

  // Which empty header is written does not matter to the home blocks.
  lemma RecoveredSameHome(l: Layout, d: Disk, e1: Block, e2: Block)
    requires ReadableLog(l, d) && HeaderCount(e1) == HeaderCount(e2) == 0
    ensures SameHome(l, Recovered(l, d, e1), Recovered(l, d, e2))
  {
  }

  // However often recovery is cut short, its completion restores the same home blocks.
  lemma {:induction false} RebootRecovers(l: Layout, d: Disk, cuts: seq<nat>, empty: Block)
    requires ValidLog(l, d) && HeaderCount(empty) == 0
    ensures SameHome(l, Reboot(l, d, cuts), Recovered(l, d, empty))
    ensures LogEmpty(l, Reboot(l, d, cuts))
    decreases |cuts|
  {
    var own := Cleared(d[l.start]);
    if cuts == [] {
      RecoveryInstalls(l, d, own);
      RecoveredSameHome(l, d, own, empty);
    } else {
      var ws := RecoveryWrites(l, d, own);
      var k := if cuts[0] < |ws| then cuts[0] else |ws|;
      var e := Apply(d, ws[..k]);
      RecoveryCutShort(l, d, own, k);
      RebootRecovers(l, e, cuts[1..], own);
      SameHomeTransitive(l, Reboot(l, e, cuts[1..]), Recovered(l, e, own), Recovered(l, d, own));
      RecoveredSameHome(l, d, own, empty);
    }
  }

  // The life of a file system: transactions that commit, and transactions whose commit
  // crashes after `k` disk writes and is followed by a reboot.
  datatype Event =
    | Committed(t: Txn)
    | Crashed(t: Txn, k: nat, cuts: seq<nat>)

  // commit() makes 2n + 2 writes, or none when there is nothing to commit.
  ghost predicate ValidEvent(l: Layout, e: Event) {
    && ValidTxn(l, e.t)
    && (e.Crashed? ==> e.k <= if e.t == [] then 0 else 2 * |e.t| + 2)
  }

  // The writes of commit() on disk d, whose header block keeps its stale entries.
  function CommitOn(l: Layout, d: Disk, t: Txn): (ws: seq<Write>)
    requires LogEmpty(l, d) && ValidTxn(l, t)
    ensures |ws| == if t == [] then 0 else 2 * |t| + 2
  {
    var full := SetHeader(d[l.start], t);
    CommitWrites(l, full, Cleared(full), t)
  }

  function StepDisk(l: Layout, d: Disk, e: Event): (r: Disk)
    requires LogEmpty(l, d) && ValidEvent(l, e)
    ensures LogEmpty(l, r)
    ensures SameHome(l, r, StepHome(d, e))
  {
    StepIsAtomic(l, d, e);
    match e
    case Committed(t) => Apply(d, CommitOn(l, d, t))
    case Crashed(t, k, cuts) => Reboot(l, Apply(d, CommitOn(l, d, t)[..k]), cuts)
  }

  // The abstract file system: a transaction happens entirely or not at all.
  function StepHome(d: Disk, e: Event): (r: Disk)
    ensures |r| == |d|
  {
    if e.Crashed? && e.k <= |e.t| then d else Apply(d, e.t)
  }

  lemma StepIsAtomic(l: Layout, d: Disk, e: Event)
    requires LogEmpty(l, d) && ValidEvent(l, e)
    ensures e.Committed? ==>
              var r := Apply(d, CommitOn(l, d, e.t));
              LogEmpty(l, r) && SameHome(l, r, StepHome(d, e))
    ensures e.Crashed? ==>
              var left := Apply(d, CommitOn(l, d, e.t)[..e.k]);
              && ValidLog(l, left)
              && LogEmpty(l, Reboot(l, left, e.cuts))
              && SameHome(l, Reboot(l, left, e.cuts), StepHome(d, e))
  {
    var full := SetHeader(d[l.start], e.t);
    var empty := Cleared(full);
    HeaderRoundTrip(d[l.start], e.t);
    match e
    case Committed(t) =>
      CommitCompletes(l, d, full, empty, t);
    case Crashed(t, k, cuts) =>
      CommitCutShort(l, d, full, empty, t, k);
      var left := Apply(d, CommitWrites(l, full, empty, t)[..k]);
      RebootRecovers(l, left, cuts, empty);
      SameHomeTransitive(l, Reboot(l, left, cuts), Recovered(l, left, empty), StepHome(d, e));
  }

  function RunDisk(l: Layout, d: Disk, es: seq<Event>): (r: Disk)
    requires LogEmpty(l, d) && forall i | 0 <= i < |es| :: ValidEvent(l, es[i])
    ensures LogEmpty(l, r)
  {
    if es == [] then d else StepDisk(l, RunDisk(l, d, es[..|es| - 1]), es[|es| - 1])
  }

  function RunHome(d: Disk, es: seq<Event>): (r: Disk)
    ensures |r| == |d|
  {
    if es == [] then d else StepHome(RunHome(d, es[..|es| - 1]), es[|es| - 1])
  }

  // Crash atomicity over every history: after any sequence of commits, crashes at any
  // disk write and interrupted recoveries, the home blocks are those of a file system
  // that performed each transaction atomically.
  lemma {:induction false} CrashAtomicity(l: Layout, d: Disk, es: seq<Event>)
    requires LogEmpty(l, d) && forall i | 0 <= i < |es| :: ValidEvent(l, es[i])
    ensures SameHome(l, RunDisk(l, d, es), RunHome(d, es))
  {
    if es == [] {
    } else {
      var rest, e := es[..|es| - 1], es[|es| - 1];
      CrashAtomicity(l, d, rest);
      var a, b := RunDisk(l, d, rest), RunHome(d, rest);
      SameHomeApply(l, a, b, e.t);
      SameHomeTransitive(l, StepDisk(l, a, e), StepHome(a, e), StepHome(b, e));
    }
  }
}
