// The file system on top of the log: a crash at any disk write of a filewrite() leaves, after
// recovery, a sound file system in which the file has taken a whole number of chunks.
module FsCrash {
  import opened Common
  import opened Blocks
  import opened LogDisk
  import opened FsSpec
  import opened FsLog
  import Fs

  // ---- The file system as disk blocks ----

  // How a block of the bitmap and a block of inodes are written out as bytes.
  datatype Codec = Codec(bits: seq<bool> -> Block, inodes: seq<Inode> -> Block)

  // Part k of a sequence cut into parts of n.
  function Part<T>(s: seq<T>, k: nat, n: nat): seq<T> {
    if k * n >= |s| then [] else if k * n + n <= |s| then s[k * n..k * n + n] else s[k * n..]
  }

  function ImageBlock(sb: Superblock, c: Codec, s: Snapshot, b: nat): Block
    requires b < |s.disk|
  {
    if BitBlock(sb, b) then c.bits(Part(s.bitmap, b - sb.bmapstart, BPB))
    else if InodeBlock(sb, b) then c.inodes(Part(s.inodes, b - sb.inodestart, IPB))
    else s.disk[b]
  }

  function Image(sb: Superblock, c: Codec, s: Snapshot): (d: Disk)
    ensures |d| == |s.disk|
  {
    seq(|s.disk|, b requires 0 <= b < |s.disk| => ImageBlock(sb, c, s, b))
  }

  // Log, inode blocks and bitmap lie apart before the data blocks.
  ghost predicate Laid(sb: Superblock, l: Layout) {
    && l.Valid() && l.blocks == sb.size <= 0x1_0000_0000 && l.start + l.size <= sb.nmeta <= sb.size
    && (forall b: nat | BitBlock(sb, b) :: b < sb.nmeta && l.IsHome(b) && !InodeBlock(sb, b))
    && (forall b: nat | InodeBlock(sb, b) :: b < sb.nmeta && l.IsHome(b))
  }

  // A transaction of these blocks fits the log and its header.
  predicate FitsLog(l: Layout, logged: set<nat>) {
    |logged| <= LOGSIZE && |logged| < l.size
  }

  lemma SamePart<T>(s: seq<T>, s': seq<T>, k: nat, n: nat)
    requires |s| == |s'| && forall j | k * n <= j < k * n + n && j < |s| :: s'[j] == s[j]
    ensures Part(s', k, n) == Part(s, k, n)
  {
  }

  // A block that was not logged is the same in both images.
  lemma ImageChanges(sb: Superblock, c: Codec, s: Snapshot, s': Snapshot, logged: set<nat>, b: nat)
    requires Logs(sb, s, s', logged) && b < |s.disk| && b !in logged
    ensures b < |s'.disk| && ImageBlock(sb, c, s', b) == ImageBlock(sb, c, s, b)
  {
    if BitBlock(sb, b) {
      var k := b - sb.bmapstart;
      assert forall j: nat | k * BPB <= j < k * BPB + BPB :: BBlock(sb, j) == b;
      SamePart(s.bitmap, s'.bitmap, k, BPB);
    } else if InodeBlock(sb, b) {
      var k := b - sb.inodestart;
      assert forall j: nat | k * IPB <= j < k * IPB + IPB :: IBlock(sb, j) == b;
      SamePart(s.inodes, s'.inodes, k, IPB);
    }
  }

  // ---- Transactions ----

  // The elements of a set, in some order.
  ghost function Listing(s: set<nat>): (q: seq<nat>)
    ensures |q| == |s| && forall b: nat :: b in q <==> b in s
  {
    if s == {} then [] else
      var b :| b in s;
      [b] + Listing(s - {b})
  }

  // What end_op() commits: the new contents of every logged block.
  ghost function TxnOf(logged: set<nat>, d: Disk): (t: Txn)
    requires forall b | b in logged :: b < |d|
    ensures |t| == |logged| && forall i | 0 <= i < |t| :: t[i].blockno in logged && t[i].data == d[t[i].blockno]
    ensures forall b: nat | b in logged :: Names(t, b)
  {
    var q := Listing(logged);
    var t := seq(|q|, i requires 0 <= i < |q| => assert q[i] in q; Write(q[i], d[q[i]]));
    assert forall b: nat | b in logged :: Names(t, b) by {
      forall b: nat | b in logged
        ensures Names(t, b)
      {
        var i :| 0 <= i < |q| && q[i] == b;
        assert t[i].blockno == b;
      }
    }
    t
  }

  // Writes that carry the contents of e leave e where they name a block, and d elsewhere.
  lemma {:induction false} ApplyFrom(d: Disk, e: Disk, ws: seq<Write>, b: nat)
    requires |d| == |e| && b < |d|
    requires forall i | 0 <= i < |ws| :: ws[i].blockno < |e| && ws[i].data == e[ws[i].blockno]
    ensures Apply(d, ws)[b] == if Names(ws, b) then e[b] else d[b]
  {
    if ws == [] {
    } else {
      var front := ws[..|ws| - 1];
      ApplyFrom(d, e, front, b);
      assert Names(ws, b) <==> Names(front, b) || ws[|ws| - 1].blockno == b by {
        if Names(front, b) {
          var i :| 0 <= i < |front| && front[i].blockno == b;
          assert ws[i].blockno == b;
        }
        if Names(ws, b) {
          var i :| 0 <= i < |ws| && ws[i].blockno == b;
          assert i < |front| ==> front[i].blockno == b;
        }
      }
    }
  }

  lemma LoggedInRange(sb: Superblock, l: Layout, s: Snapshot, s': Snapshot, logged: set<nat>)
    requires Laid(sb, l) && Logs(sb, s, s', logged)
    ensures forall b | b in logged :: b < sb.size && l.IsHome(b)
  {
    forall b | b in logged
      ensures b < sb.size && l.IsHome(b)
    {
      assert InPlace(sb, b);
    }
  }

  // The logged blocks turn one image into the next, and fit the log.
  lemma TxnInstalls(sb: Superblock, l: Layout, c: Codec, s: Snapshot, s': Snapshot, logged: set<nat>)
    requires Laid(sb, l) && Logs(sb, s, s', logged) && |s.disk| == sb.size && FitsLog(l, logged)
    ensures |s'.disk| == sb.size && forall b | b in logged :: b < sb.size
    ensures ValidTxn(l, TxnOf(logged, Image(sb, c, s')))
    ensures Apply(Image(sb, c, s), TxnOf(logged, Image(sb, c, s'))) == Image(sb, c, s')
  {
    LoggedInRange(sb, l, s, s', logged);
    var d, e := Image(sb, c, s), Image(sb, c, s');
    var t := TxnOf(logged, e);
    forall b: nat | b < |d|
      ensures Apply(d, t)[b] == e[b]
    {
      ApplyFrom(d, e, t, b);
      if b !in logged {
        ImageChanges(sb, c, s, s', logged, b);
      }
    }
  }

  // ---- Histories ----

  // The transactions of a history, as end_op() commits them.
  ghost function TxnAt(sb: Superblock, c: Codec, states: seq<Snapshot>, txns: seq<set<nat>>, t: nat): Txn
    requires t < |txns| && |states| == |txns| + 1 && forall b | b in txns[t] :: b < |states[t + 1].disk|
  {
    TxnOf(txns[t], Image(sb, c, states[t + 1]))
  }

  ghost predicate Commits(sb: Superblock, l: Layout, states: seq<Snapshot>, txns: seq<set<nat>>) {
    && Laid(sb, l) && |states| == |txns| + 1 && |states[0].disk| == sb.size
    && forall t | 0 <= t < |txns| :: FitsLog(l, txns[t]) && Logs(sb, states[t], states[t + 1], txns[t])
  }

  lemma {:induction false} DisksSized(sb: Superblock, l: Layout, states: seq<Snapshot>, txns: seq<set<nat>>, t: nat)
    requires Commits(sb, l, states, txns) && t < |states|
    ensures |states[t].disk| == sb.size
    ensures t < |txns| ==> |states[t + 1].disk| == sb.size && forall b | b in txns[t] :: b < sb.size
  {
    if t == 0 {
    } else {
      DisksSized(sb, l, states, txns, t - 1);
    }
    if t < |txns| {
      LoggedInRange(sb, l, states[t], states[t + 1], txns[t]);
    }
  }

  // The first m transactions, each committed.
  ghost function Committing(sb: Superblock, l: Layout, c: Codec, states: seq<Snapshot>, txns: seq<set<nat>>,
                            m: nat): (es: seq<Event>)
    requires Commits(sb, l, states, txns) && m <= |txns|
    ensures |es| == m
  {
    if m == 0 then [] else
      DisksSized(sb, l, states, txns, m - 1);
      Committing(sb, l, c, states, txns, m - 1) + [Committed(TxnAt(sb, c, states, txns, m - 1))]
  }

  lemma {:induction false} CommittingValid(sb: Superblock, l: Layout, c: Codec, states: seq<Snapshot>,
                                           txns: seq<set<nat>>, m: nat)
    requires Commits(sb, l, states, txns) && m <= |txns|
    ensures forall i | 0 <= i < m :: ValidEvent(l, Committing(sb, l, c, states, txns, m)[i])
  {
    hide ValidEvent, Commits, TxnAt;
    if m == 0 {
    } else {
      CommittingValid(sb, l, c, states, txns, m - 1);
      EventValid(sb, l, c, states, txns, m - 1);
    }
  }

  lemma EventValid(sb: Superblock, l: Layout, c: Codec, states: seq<Snapshot>, txns: seq<set<nat>>, t: nat)
    requires Commits(sb, l, states, txns) && t < |txns|
    ensures forall b | b in txns[t] :: b < |states[t + 1].disk|
    ensures ValidTxn(l, TxnAt(sb, c, states, txns, t)) && ValidEvent(l, Committed(TxnAt(sb, c, states, txns, t)))
    ensures Apply(Image(sb, c, states[t]), TxnAt(sb, c, states, txns, t)) == Image(sb, c, states[t + 1])
  {
    hide Logs, Laid, Image, Apply;
    DisksSized(sb, l, states, txns, t);
    TxnInstalls(sb, l, c, states[t], states[t + 1], txns[t]);
  }

  // After m commits the home blocks are those of state m.
  lemma {:induction false} HomeAfter(sb: Superblock, l: Layout, c: Codec, states: seq<Snapshot>, txns: seq<set<nat>>,
                                     m: nat, d: Disk)
    requires Commits(sb, l, states, txns) && m <= |txns| && SameHome(l, d, Image(sb, c, states[0]))
    ensures SameHome(l, RunHome(d, Committing(sb, l, c, states, txns, m)), Image(sb, c, states[m]))
  {
    hide Logs, Laid, Image, Apply, SameHome;
    if m == 0 {
    } else {
      HomeAfter(sb, l, c, states, txns, m - 1, d);
      EventValid(sb, l, c, states, txns, m - 1);
      var es := Committing(sb, l, c, states, txns, m);
      assert es[..|es| - 1] == Committing(sb, l, c, states, txns, m - 1);
      SameHomeApply(l, RunHome(d, es[..|es| - 1]), Image(sb, c, states[m - 1]), TxnAt(sb, c, states, txns, m - 1));
    }
  }

  // Transactions 0 .. m - 1 commit; the commit of transaction m crashes after k disk writes,
  // and recovery is interrupted as `cuts` says. Then the disk is that of state m or m + 1.
  lemma CrashBetween(sb: Superblock, l: Layout, c: Codec, states: seq<Snapshot>, txns: seq<set<nat>>, m: nat, k: nat,
                     cuts: seq<nat>, d: Disk) returns (es: seq<Event>)
    requires Commits(sb, l, states, txns) && m < |txns| && LogEmpty(l, d) && SameHome(l, d, Image(sb, c, states[0]))
    requires k <= if txns[m] == {} then 0 else 2 * |txns[m]| + 2
    ensures forall b | b in txns[m] :: b < |states[m + 1].disk|
    ensures es == Committing(sb, l, c, states, txns, m) + [Crashed(TxnAt(sb, c, states, txns, m), k, cuts)]
    ensures forall i | 0 <= i < |es| :: ValidEvent(l, es[i])
    ensures SameHome(l, RunDisk(l, d, es), Image(sb, c, states[if k <= |txns[m]| then m else m + 1]))
  {
    hide Logs, Laid, Image, Apply, SameHome, RunDisk, TxnAt, Committing, ValidEvent, ValidTxn;
    EventValid(sb, l, c, states, txns, m);
    CommittingValid(sb, l, c, states, txns, m);
    HomeAfter(sb, l, c, states, txns, m, d);
    var t, front := TxnAt(sb, c, states, txns, m), Committing(sb, l, c, states, txns, m);
    TxnLength(sb, c, states, txns, m);
    CrashEvent(l, front, t, k, cuts);
    CrashHome(l, d, front, t, k, cuts, Image(sb, c, states[m]), Image(sb, c, states[m + 1]));
    es := front + [Crashed(t, k, cuts)];
  }

  lemma TxnLength(sb: Superblock, c: Codec, states: seq<Snapshot>, txns: seq<set<nat>>, t: nat)
    requires t < |txns| && |states| == |txns| + 1 && forall b | b in txns[t] :: b < |states[t + 1].disk|
    ensures |TxnAt(sb, c, states, txns, t)| == |txns[t]|
  {
  }

  lemma CrashEvent(l: Layout, front: seq<Event>, t: Txn, k: nat, cuts: seq<nat>)
    requires (forall i | 0 <= i < |front| :: ValidEvent(l, front[i])) && ValidTxn(l, t)
    requires k <= if |t| == 0 then 0 else 2 * |t| + 2
    ensures var es := front + [Crashed(t, k, cuts)]; forall i | 0 <= i < |es| :: ValidEvent(l, es[i])
  {
    hide ValidTxn;
  }

  lemma CrashHome(l: Layout, d: Disk, front: seq<Event>, t: Txn, k: nat, cuts: seq<nat>, a: Disk, b: Disk)
    requires LogEmpty(l, d) && SameHome(l, RunHome(d, front), a) && Apply(a, t) == b
    requires var es := front + [Crashed(t, k, cuts)]; forall i | 0 <= i < |es| :: ValidEvent(l, es[i])
    ensures SameHome(l, RunDisk(l, d, front + [Crashed(t, k, cuts)]), if k <= |t| then a else b)
  {
    hide Apply, SameHome, RunDisk, ValidEvent, LogEmpty;
    var es := front + [Crashed(t, k, cuts)];
    CrashAtomicity(l, d, es);
    assert es[..|es| - 1] == front;
    SameHomeApply(l, RunHome(d, front), a, t);
    SameHomeTransitive(l, RunDisk(l, d, es), RunHome(d, es), if k <= |t| then a else b);
  }

  // Crash consistency of filewrite(): whatever the disk write at which it crashes, recovery
  // leaves the image of a file system in which every block has one owner, no file has a hole,
  // the file has taken a whole number of chunks (or all of addr) and no other file changed.
  lemma FileWriteSurvivesCrash(sb: Superblock, l: Layout, c: Codec, states: seq<Snapshot>, txns: seq<set<nat>>,
                               i: nat, off: nat, addr: seq<Byte>, taken: nat, m: nat, k: nat, cuts: seq<nat>, d: Disk)
    returns (es: seq<Event>, s: Snapshot, n: nat)
    requires Laid(sb, l) && l.size > MAXOPBLOCKS && ChunkHistory(sb, states, txns, i, off, addr, taken) && m < |txns|
    requires LogEmpty(l, d) && |states[0].disk| == sb.size && SameHome(l, d, Image(sb, c, states[0]))
    requires k <= if txns[m] == {} then 0 else 2 * |txns[m]| + 2
    ensures Commits(sb, l, states, txns) && forall b | b in txns[m] :: b < |states[m + 1].disk|
    ensures es == Committing(sb, l, c, states, txns, m) + [Crashed(TxnAt(sb, c, states, txns, m), k, cuts)]
    ensures forall j | 0 <= j < |es| :: ValidEvent(l, es[j])
    ensures SameHome(l, RunDisk(l, d, es), Image(sb, c, s)) && Intact(sb, s)
    ensures n == Progress(if k <= |txns[m]| then m else m + 1, taken)
    ensures (n % 1536 == 0 || n == taken) && HoldsPrefix(states[0], s, i, off, addr, n)
  {
    hide Logs, Laid, Image, Intact, HoldsPrefix, SameHome, RunDisk, ValidEvent, Committing, TxnAt;
    es := CrashBetween(sb, l, c, states, txns, m, k, cuts, d);
    var t: nat := if k <= |txns[m]| then m else m + 1;
    s, n := states[t], Progress(t, taken);
  }

  // ---- Group commit ----

  // States between finished calls of any processes, with the blocks each call logged.
  ghost predicate CallHistory(sb: Superblock, states: seq<Snapshot>, logs: seq<set<nat>>, calls: seq<FsCall>) {
    && |states| == |logs| + 1 == |calls| + 1
    && (forall t | 0 <= t < |logs| ::
          Logs(sb, states[t], states[t + 1], logs[t]) && Performs(states[t], states[t + 1], calls[t]))
    && forall t | 0 <= t < |states| :: Intact(sb, states[t])
  }

  lemma CallAt(sb: Superblock, states: seq<Snapshot>, logs: seq<set<nat>>, calls: seq<FsCall>, t: nat)
    requires CallHistory(sb, states, logs, calls)
    ensures |states| == |logs| + 1 == |calls| + 1
    ensures t < |states| ==> Intact(sb, states[t])
    ensures t < |calls| ==> Logs(sb, states[t], states[t + 1], logs[t]) && Performs(states[t], states[t + 1], calls[t])
  {
    hide Logs, Performs, Intact;
  }

  lemma StartCalls(sb: Superblock, s: Snapshot)
    requires Intact(sb, s)
    ensures CallHistory(sb, [s], [], [])
  {
  }

  lemma MoreCalls(sb: Superblock, states: seq<Snapshot>, logs: seq<set<nat>>, calls: seq<FsCall>, s: Snapshot,
                  logged: set<nat>, call: FsCall)
    requires CallHistory(sb, states, logs, calls) && Intact(sb, s)
    requires Logs(sb, states[|logs|], s, logged) && Performs(states[|logs|], s, call)
    ensures CallHistory(sb, states + [s], logs + [logged], calls + [call])
  {
    hide Logs, Performs, Intact;
    var states', logs', calls' := states + [s], logs + [logged], calls + [call];
    forall t | 0 <= t < |logs'|
      ensures Logs(sb, states'[t], states'[t + 1], logs'[t]) && Performs(states'[t], states'[t + 1], calls'[t])
    {
      if t < |logs| {
        assert states'[t] == states[t] && states'[t + 1] == states[t + 1] && logs'[t] == logs[t];
      }
    }
  }

  // One more chunk is written: the history goes on to the new state.
  method AlsoWrites(fs: Fs.FileSystem, f: Fs.File, chunk: seq<Byte>, ghost states: seq<Snapshot>,
                    ghost logs: seq<set<nat>>, ghost calls: seq<FsCall>)
    returns (w: Option<int>, ghost logged: set<nat>, ghost call: FsCall)
    requires fs.Valid() && f.inum < |fs.inodes| && f.off < 0x1_0000_0000 && 0 < |chunk| <= 1536
    requires CallHistory(fs.sb, states, logs, calls) && states[|logs|] == fs.Snap()
    modifies fs, f`off
    ensures w.Some? ==> fs.Valid() && |logged| <= MAXOPBLOCKS
    ensures w.Some? ==> call == if w.value == -1 then Failed else Chunk(f.inum, old(f.off), chunk)
    ensures w.Some? ==> CallHistory(fs.sb, states + [fs.Snap()], logs + [logged], calls + [call])
  {
    hide CallHistory, Logs, Spliced, Intact;
    w, logged := fs.WriteChunk(f, chunk);
    call := Failed;
    if w.Some? {
      call := if w.value == -1 then Failed else Chunk(f.inum, old(f.off), chunk);
      fs.ValidIsIntact();
      MoreCalls(fs.sb, states, logs, calls, fs.Snap(), logged, call);
    }
  }

  // One more file is truncated.
  method AlsoTruncates(fs: Fs.FileSystem, i: nat, ghost states: seq<Snapshot>, ghost logs: seq<set<nat>>,
                       ghost calls: seq<FsCall>)
    returns (ok: bool, ghost logged: set<nat>)
    requires fs.Valid() && i < |fs.inodes| && CallHistory(fs.sb, states, logs, calls) && states[|logs|] == fs.Snap()
    modifies fs
    ensures ok && fs.Valid() && CallHistory(fs.sb, states + [fs.Snap()], logs + [logged], calls + [Trunc(i)])
  {
    hide CallHistory, Logs, Performs, Intact;
    ok, logged := fs.Truncate(i);
    fs.ValidIsIntact();
    MoreCalls(fs.sb, states, logs, calls, fs.Snap(), logged, Trunc(i));
  }

  // What the calls a .. b - 1 logged between them.
  ghost function Grouped(logs: seq<set<nat>>, a: nat, b: nat): set<nat>
    requires a <= b <= |logs|
  {
    if a == b then {} else Grouped(logs, a, b - 1) + logs[b - 1]
  }

  // Commit g ends the calls ends[g] .. ends[g + 1] - 1, at least one.
  ghost predicate Groups(ends: seq<nat>, n: nat) {
    && |ends| > 0 && ends[0] == 0 && (forall g | 0 <= g < |ends| :: ends[g] <= n)
    && forall g, h | 0 <= g < h < |ends| :: ends[g] < ends[h]
  }

  lemma LogsTwice(sb: Superblock, s: Snapshot, s1: Snapshot, s2: Snapshot, logged1: set<nat>, logged2: set<nat>)
    requires Logs(sb, s, s1, logged1) && Logs(sb, s1, s2, logged2)
    ensures Logs(sb, s, s2, logged1 + logged2)
  {
    hide BBlock, IBlock, InPlace;
  }

  // A group logs whatever its calls change together.
  lemma {:induction false} GroupLogs(sb: Superblock, states: seq<Snapshot>, logs: seq<set<nat>>, calls: seq<FsCall>,
                                     a: nat, b: nat)
    requires CallHistory(sb, states, logs, calls) && a < b <= |logs|
    ensures |states| == |logs| + 1 && Logs(sb, states[a], states[b], Grouped(logs, a, b))
  {
    hide CallHistory, Logs, Performs;
    CallAt(sb, states, logs, calls, b - 1);
    if b == a + 1 {
      assert Grouped(logs, a, b) == logs[a];
    } else {
      GroupLogs(sb, states, logs, calls, a, b - 1);
      LogsTwice(sb, states[a], states[b - 1], states[b], Grouped(logs, a, b - 1), logs[b - 1]);
    }
  }

  ghost function GroupTxns(logs: seq<set<nat>>, ends: seq<nat>): (txns: seq<set<nat>>)
    requires Groups(ends, |logs|)
    ensures |txns| == |ends| - 1
    ensures forall g | 0 <= g < |txns| :: txns[g] == Grouped(logs, ends[g], ends[g + 1])
  {
    seq(|ends| - 1, g requires 0 <= g < |ends| - 1 => Grouped(logs, ends[g], ends[g + 1]))
  }

  ghost function GroupStates(states: seq<Snapshot>, ends: seq<nat>): (gs: seq<Snapshot>)
    requires |states| > 0 && Groups(ends, |states| - 1)
    ensures |gs| == |ends| && forall g | 0 <= g < |gs| :: gs[g] == states[ends[g]]
  {
    seq(|ends|, g requires 0 <= g < |ends| => states[ends[g]])
  }

  lemma GroupsCommit(sb: Superblock, l: Layout, states: seq<Snapshot>, logs: seq<set<nat>>, calls: seq<FsCall>,
                     ends: seq<nat>)
    requires Laid(sb, l) && CallHistory(sb, states, logs, calls) && Groups(ends, |calls|)
    requires |states[0].disk| == sb.size && forall g | 0 <= g < |ends| - 1 :: FitsLog(l, GroupTxns(logs, ends)[g])
    ensures Commits(sb, l, GroupStates(states, ends), GroupTxns(logs, ends))
  {
    hide Laid, Logs, Performs, CallHistory;
    CallAt(sb, states, logs, calls, 0);
    var gs, txns := GroupStates(states, ends), GroupTxns(logs, ends);
    forall g | 0 <= g < |txns|
      ensures FitsLog(l, txns[g]) && Logs(sb, gs[g], gs[g + 1], txns[g])
    {
      GroupLogs(sb, states, logs, calls, ends[g], ends[g + 1]);
    }
  }

  // Crash consistency under group commit: calls of any processes are committed in groups that
  // fit the log. Whatever the disk write of commit m at which the system crashes, recovery
  // leaves the image of the state after a whole number of calls, all those of the earlier
  // groups and either all or none of group m, and that is a sound file system.
  lemma GroupSurvivesCrash(sb: Superblock, l: Layout, c: Codec, states: seq<Snapshot>, logs: seq<set<nat>>,
                           calls: seq<FsCall>, ends: seq<nat>, m: nat, k: nat, cuts: seq<nat>, d: Disk)
    returns (es: seq<Event>, t: nat)
    requires Laid(sb, l) && CallHistory(sb, states, logs, calls) && Groups(ends, |calls|) && m < |ends| - 1
    requires forall g | 0 <= g < |ends| - 1 :: FitsLog(l, GroupTxns(logs, ends)[g])
    requires LogEmpty(l, d) && |states[0].disk| == sb.size && SameHome(l, d, Image(sb, c, states[0]))
    requires var txn := GroupTxns(logs, ends)[m]; k <= if txn == {} then 0 else 2 * |txn| + 2
    ensures
      var gs, txns := GroupStates(states, ends), GroupTxns(logs, ends);
      && Commits(sb, l, gs, txns) && (forall b | b in txns[m] :: b < |gs[m + 1].disk|)
      && es == Committing(sb, l, c, gs, txns, m) + [Crashed(TxnAt(sb, c, gs, txns, m), k, cuts)]
      && (forall j | 0 <= j < |es| :: ValidEvent(l, es[j]))
      && t == (if k <= |txns[m]| then ends[m] else ends[m + 1]) < |states|
    ensures SameHome(l, RunDisk(l, d, es), Image(sb, c, states[t])) && Intact(sb, states[t])
  {
    hide Logs, Laid, Image, Intact, SameHome, RunDisk, ValidEvent, Committing, TxnAt, Performs, Commits;
    GroupsCommit(sb, l, states, logs, calls, ends);
    es := CrashBetween(sb, l, c, GroupStates(states, ends), GroupTxns(logs, ends), m, k, cuts, d);
    t := if k <= |GroupTxns(logs, ends)[m]| then ends[m] else ends[m + 1];
  }

  // ---- One filewrite() among other calls ----

  // The bytes that the first t calls wrote to file i.
  function Bytes(calls: seq<FsCall>, i: nat, t: nat): nat
    requires t <= |calls|
  {
    if t == 0 then 0
    else Bytes(calls, i, t - 1) + if calls[t - 1].Chunk? && calls[t - 1].i == i then |calls[t - 1].src| else 0
  }

  // Where the chunk of filewrite() that begins at byte n of `total` ends.
  function ChunkEnd(n: nat, total: nat): nat { if total - n > 1536 then n + 1536 else total }

  lemma ChunkEndsWhole(n: nat, total: nat)
    requires n < total && n % 1536 == 0
    ensures ChunkEnd(n, total) % 1536 == 0 || ChunkEnd(n, total) == total
  {
  }

  // Call t is on another file, or fails, or is the next chunk of addr.
  ghost predicate OtherOrNext(calls: seq<FsCall>, i: nat, off: nat, addr: seq<Byte>, t: nat)
    requires t < |calls|
  {
    !calls[t].Failed? && calls[t].i == i ==>
      var n := Bytes(calls, i, t);
      n < |addr| && calls[t] == Chunk(i, off + n, addr[n..ChunkEnd(n, |addr|)])
  }

  // The calls on file i are the chunks of one filewrite() of addr at offset off, in order.
  ghost predicate OneWriter(calls: seq<FsCall>, i: nat, off: nat, addr: seq<Byte>) {
    forall t | 0 <= t < |calls| :: OtherOrNext(calls, i, off, addr, t)
  }

  // After any number of calls the file has taken a whole number of chunks, or all of addr.
  lemma {:induction false} WholeChunksTaken(sb: Superblock, states: seq<Snapshot>, logs: seq<set<nat>>,
                                            calls: seq<FsCall>, i: nat, off: nat, addr: seq<Byte>, t: nat)
    requires CallHistory(sb, states, logs, calls) && OneWriter(calls, i, off, addr) && t <= |calls|
    requires i < |states[0].inodes|
    ensures |states| == |calls| + 1
    ensures
      var n := Bytes(calls, i, t);
      n <= |addr| && (n % 1536 == 0 || n == |addr|) && FileHolds(states[0], states[t], i, off, addr[..n])
  {
    hide CallHistory, OneWriter, FileHolds, Performs, Logs, Intact;
    if t == 0 {
      CallAt(sb, states, logs, calls, 0);
      NothingYet(states[0], i, off);
      assert addr[..0] == [];
    } else {
      WholeChunksTaken(sb, states, logs, calls, i, off, addr, t - 1);
      CallAt(sb, states, logs, calls, t - 1);
      ChunkAt(calls, i, off, addr, t - 1);
      OneCall(states[0], states[t - 1], states[t], calls[t - 1], i, off, addr, Bytes(calls, i, t - 1));
    }
  }

  lemma ChunkAt(calls: seq<FsCall>, i: nat, off: nat, addr: seq<Byte>, t: nat)
    requires OneWriter(calls, i, off, addr) && t < |calls|
    ensures
      var n, n' := Bytes(calls, i, t), Bytes(calls, i, t + 1);
      if !calls[t].Failed? && calls[t].i == i
      then
        && n < n' <= |addr| && calls[t] == Chunk(i, off + n, addr[n..n'])
        && (n % 1536 == 0 ==> n' % 1536 == 0 || n' == |addr|)
      else n' == n
  {
    var n := Bytes(calls, i, t);
    assert OtherOrNext(calls, i, off, addr, t);
    if !calls[t].Failed? && calls[t].i == i && n % 1536 == 0 {
      ChunkEndsWhole(n, |addr|);
    }
  }

  lemma NothingYet(s: Snapshot, i: nat, off: nat)
    requires i < |s.inodes|
    ensures FileHolds(s, s, i, off, [])
  {
  }

  lemma OneCall(s0: Snapshot, s: Snapshot, s': Snapshot, call: FsCall, i: nat, off: nat, addr: seq<Byte>, n: nat)
    requires n <= |addr| && FileHolds(s0, s, i, off, addr[..n]) && Performs(s, s', call)
    requires !call.Failed? && call.i == i ==>
               call.Chunk? && 0 < |call.src| <= |addr| - n && call == Chunk(i, off + n, addr[n..n + |call.src|])
    ensures FileHolds(s0, s', i, off, addr[..n + if call.Chunk? && call.i == i then |call.src| else 0])
  {
    hide Contents, Splice;
    if !call.Failed? && call.i == i {
      ChunkTaken(s0, s, s', i, off, addr, n, |call.src|);
    }
  }

  lemma ChunkTaken(s0: Snapshot, s: Snapshot, s': Snapshot, i: nat, off: nat, addr: seq<Byte>, n: nat, m: nat)
    requires n + m <= |addr| && FileHolds(s0, s, i, off, addr[..n]) && Spliced(s, s', i, off + n, addr[n..n + m])
    requires m > 0
    ensures FileHolds(s0, s', i, off, addr[..n + m])
  {
    hide Contents, Splice;
    if n == 0 {
      assert addr[0..m] == addr[..m];
    } else {
      SpliceTwice(Contents(s0.disk, s0.inodes[i]), off, addr, n, m);
    }
  }

  // Crash consistency of a filewrite() whose transactions are committed together with those of
  // other calls: after the crash the file holds a whole number of chunks, or all of addr.
  lemma GroupedWriteSurvivesCrash(sb: Superblock, l: Layout, c: Codec, states: seq<Snapshot>, logs: seq<set<nat>>,
                                  calls: seq<FsCall>, ends: seq<nat>, m: nat, k: nat, cuts: seq<nat>, d: Disk,
                                  i: nat, off: nat, addr: seq<Byte>)
    returns (es: seq<Event>, s: Snapshot, n: nat)
    requires Laid(sb, l) && CallHistory(sb, states, logs, calls) && Groups(ends, |calls|) && m < |ends| - 1
    requires forall g | 0 <= g < |ends| - 1 :: FitsLog(l, GroupTxns(logs, ends)[g])
    requires LogEmpty(l, d) && |states[0].disk| == sb.size && SameHome(l, d, Image(sb, c, states[0]))
    requires var txn := GroupTxns(logs, ends)[m]; k <= if txn == {} then 0 else 2 * |txn| + 2
    requires OneWriter(calls, i, off, addr) && i < |states[0].inodes|
    ensures
      var gs, txns := GroupStates(states, ends), GroupTxns(logs, ends);
      && Commits(sb, l, gs, txns) && (forall b | b in txns[m] :: b < |gs[m + 1].disk|)
      && es == Committing(sb, l, c, gs, txns, m) + [Crashed(TxnAt(sb, c, gs, txns, m), k, cuts)]
      && (forall j | 0 <= j < |es| :: ValidEvent(l, es[j]))
      && n == Bytes(calls, i, if k <= |txns[m]| then ends[m] else ends[m + 1])
    ensures SameHome(l, RunDisk(l, d, es), Image(sb, c, s)) && Intact(sb, s)
    ensures n <= |addr| && (n % 1536 == 0 || n == |addr|) && FileHolds(states[0], s, i, off, addr[..n])
  {
    hide CallHistory, OneWriter, Laid, Image, Intact, SameHome, RunDisk, ValidEvent, Committing, TxnAt, Commits;
    CallAt(sb, states, logs, calls, 0);
    var t;
    es, t := GroupSurvivesCrash(sb, l, c, states, logs, calls, ends, m, k, cuts, d);
    WholeChunksTaken(sb, states, logs, calls, i, off, addr, t);
    s, n := states[t], Bytes(calls, i, t);
  }
}
