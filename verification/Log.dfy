// The log layer of log.c on top of the buffer cache: group commit in rounds that other
// processes' cache operations may interleave with, and recovery at boot.
module Log {
  import opened Common
  import opened Blocks
  import opened LogDisk
  import opened Bio
  import opened LogOps

  // ---- Between commits and during one ----

  ghost predicate PinsAre(buf: seq<Buf>, blocks: seq<nat>) {
    forall b: nat :: Pinned(buf, b) <==> b in blocks
  }

  // No commit runs: the disk is as the last commit left it and the logged blocks are pinned.
  ghost predicate Idle(l: Layout, lh: seq<nat>, base: Disk, disk: Disk, buf: seq<Buf>) {
    LogEmpty(l, base) && disk == base && PinsAre(buf, lh)
  }

  // The transaction the in-memory log stands for.
  function Pending(lh: seq<nat>, latest: Disk): (t: Txn)
    requires forall i | 0 <= i < |lh| :: lh[i] < |latest|
    ensures |t| == |lh| && forall i | 0 <= i < |t| :: t[i] == Write(lh[i], latest[lh[i]])
  {
    seq(|lh|, i requires 0 <= i < |lh| => Write(lh[i], latest[lh[i]]))
  }

  // How many home blocks a commit of n blocks has installed after `done` disk writes.
  function InstalledAfter(done: nat, n: nat): nat {
    if done <= n + 1 then 0 else if done <= 2 * n + 1 then done - n - 1 else n
  }

  // The disk holds the first `done` writes of a commit of t. The header block `full` is
  // known from the moment it is written.
  ghost predicate Written(l: Layout, base: Disk, disk: Disk, full: Block, empty: Block, t: Txn, done: nat) {
    && LogEmpty(l, base) && ValidTxn(l, t)
    && done <= (if t == [] then 0 else 2 * |t| + 1)
    && (done > |t| ==> HeaderSays(full, t))
    && disk == Apply(base, CommitWrites(l, full, empty, t)[..done])
  }

  // A commit of t has made its first `done` disk writes; blocks not yet installed are pinned.
  ghost predicate Carries(l: Layout, lh: seq<nat>, latest: Disk, buf: seq<Buf>, t: Txn, done: nat) {
    && ValidTxn(l, t) && |latest| == l.blocks && |lh| == |t|
    && (forall i | 0 <= i < |t| :: t[i].blockno == lh[i] && t[i].data == latest[t[i].blockno])
    && PinsAre(buf, lh[InstalledAfter(done, |lh|)..])
  }

  lemma OneMoreWrite(base: Disk, ws: seq<Write>, k: nat)
    requires k < |ws|
    ensures ws[..k + 1] == ws[..k] + [ws[k]]
    ensures Apply(base, ws[..k + 1]) == Put(Apply(base, ws[..k]), ws[k])
  {
  }

  lemma CommitWriteAt(l: Layout, full: Block, empty: Block, t: Txn, k: nat)
    requires k < |CommitWrites(l, full, empty, t)|
    ensures k < |t| ==> CommitWrites(l, full, empty, t)[k] == Write(l.start + 1 + k, t[k].data)
    ensures |t| < k <= 2 * |t| ==> CommitWrites(l, full, empty, t)[k] == t[k - |t| - 1]
  {
  }

  // Until the header block is written, any header block will do; likewise the emptied one.
  lemma HeadersNotYetWritten(l: Layout, full: Block, empty: Block, full': Block, empty': Block, t: Txn, k: nat)
    requires k <= |CommitWrites(l, full, empty, t)|
    ensures k <= |t| ==> CommitWrites(l, full, empty, t)[..k] == CommitWrites(l, full', empty', t)[..k]
    ensures k <= 2 * |t| + 1 ==> CommitWrites(l, full, empty, t)[..k] == CommitWrites(l, full, empty', t)[..k]
  {
  }

  // Every write of commit() goes to the log or to a block of the transaction.
  lemma CommitWritesNames(l: Layout, full: Block, empty: Block, t: Txn, i: nat)
    requires ValidTxn(l, t) && i < |CommitWrites(l, full, empty, t)|
    ensures
      var b := CommitWrites(l, full, empty, t)[i].blockno;
      !l.IsHome(b) || Names(t, b)
  {
  }

  // ---- The rounds of commit(), on values ----

  // write_log() writes slot `done`.
  lemma AfterSlotWrite(l: Layout, base: Disk, disk: Disk, full: Block, empty: Block, t: Txn, done: nat)
    requires Written(l, base, disk, full, empty, t, done) && done < |t|
    ensures
      var ws := CommitWrites(l, full, empty, t);
      ws[..done + 1] == ws[..done] + [Write(l.start + 1 + done, t[done].data)]
    ensures l.start + 1 + done < |disk|
    ensures Written(l, base, disk[l.start + 1 + done := t[done].data], full, empty, t, done + 1)
  {
    hide CommitWrites, Apply, HeaderSays, HeaderCount;
    CommitWriteAt(l, full, empty, t, done);
    OneMoreWrite(base, CommitWrites(l, full, empty, t), done);
  }

  // write_head() writes the header block h.
  lemma AfterHeadWrite(l: Layout, base: Disk, disk: Disk, full: Block, empty: Block, t: Txn, h: Block)
    requires Written(l, base, disk, full, empty, t, |t|) && t != [] && HeaderSays(h, t)
    ensures CommitWrites(l, h, empty, t)[..|t| + 1] == CommitWrites(l, full, empty, t)[..|t|] + [Write(l.start, h)]
    ensures Written(l, base, disk[l.start := h], h, empty, t, |t| + 1)
  {
    HeadersNotYetWritten(l, full, empty, h, empty, t, |t|);
    OneMoreWrite(base, CommitWrites(l, h, empty, t), |t|);
  }

  // install_trans() writes home location `tail`.
  lemma AfterInstallWrite(l: Layout, base: Disk, disk: Disk, full: Block, empty: Block, t: Txn, tail: nat)
    requires Written(l, base, disk, full, empty, t, |t| + 1 + tail) && tail < |t|
    ensures
      var ws := CommitWrites(l, full, empty, t);
      ws[..|t| + 2 + tail] == ws[..|t| + 1 + tail] + [t[tail]]
    ensures t[tail].blockno < |disk|
    ensures Written(l, base, disk[t[tail].blockno := t[tail].data], full, empty, t, |t| + 2 + tail)
  {
    hide CommitWrites, Apply, HeaderSays, HeaderCount;
    CommitWriteAt(l, full, empty, t, |t| + 1 + tail);
    OneMoreWrite(base, CommitWrites(l, full, empty, t), |t| + 1 + tail);
  }

  // The slots while the home blocks are being installed.
  lemma SlotDuring(l: Layout, base: Disk, disk: Disk, full: Block, empty: Block, t: Txn, tail: nat)
    requires Written(l, base, disk, full, empty, t, |t| + 1 + tail) && tail < |t|
    ensures l.start + 1 + tail < |disk| && disk[l.start + 1 + tail] == t[tail].data
  {
    hide CommitWrites, SlotWrites, Apply, HeaderSays, HeaderCount, FitsHeader;
    var before := SlotWrites(l, t) + [Write(l.start, full)];
    CommitPhases(l, full, empty, t, tail);
    ApplyConcat(base, before, t[..tail]);
    InstallingKeepsLog(l, Apply(base, before), t, tail);
    ApplySnoc(base, SlotWrites(l, t), Write(l.start, full));
    SlotsFilled(l, base, t);
  }

  // The last write_head() writes the emptied header block h.
  lemma AfterErase(l: Layout, base: Disk, disk: Disk, full: Block, empty: Block, t: Txn, h: Block)
    requires Written(l, base, disk, full, empty, t, 2 * |t| + 1) && t != [] && HeaderCount(h) == 0
    ensures CommitWrites(l, full, h, t) == CommitWrites(l, full, empty, t)[..2 * |t| + 1] + [Write(l.start, h)]
    ensures LogEmpty(l, disk[l.start := h])
    ensures disk[l.start := h] == Apply(base, CommitWrites(l, full, h, t))
  {
  }

  class Log {
    const layout: Layout
    const bc: BCache
    var n: nat             // log.lh.n
    var block: seq<nat>    // log.lh.block
    var outstanding: int
    var committing: bool

    ghost var base: Disk        // the disk when the last commit (or recovery) ended
    ghost var txn: Txn          // what the running commit carries
    ghost var done: nat         // how many disk writes it has made
    ghost var full: Block       // the header block that names it
    ghost var empty: Block      // the header block that erases it
    ghost var past: seq<Write>  // the disk writes before it

    constructor (layout: Layout, bc: BCache)
      ensures this.layout == layout && this.bc == bc
      ensures n == 0 && |block| == LOGSIZE && outstanding == 0 && !committing
    {
      this.layout := layout;
      this.bc := bc;
      n := 0;
      block := seq(LOGSIZE, _ => 0);
      outstanding := 0;
      committing := false;
    }

    ghost predicate Shape()
      reads this
    {
      && layout.Valid() && layout.blocks <= 0x1_0000_0000
      && |block| == LOGSIZE && n <= LOGSIZE && n <= layout.size - 1
      && NoRepeats(block[..n])
      && forall i | 0 <= i < n :: layout.IsHome(block[i])
    }

    ghost predicate Valid()
      reads this, bc
    {
      && Shape() && bc.Valid() && |bc.memdisk| == layout.blocks
      && outstanding >= 0 && (committing ==> outstanding == 0)
      && if committing
         then Carries(layout, block[..n], bc.latest, bc.buf, txn, done) && Traced()
         else Idle(layout, block[..n], base, bc.memdisk, bc.buf)
    }

    // The disk has received exactly the first `done` writes of the commit.
    ghost predicate Traced()
      reads this, bc
    {
      && Written(layout, base, bc.memdisk, full, empty, txn, done)
      && bc.trace == past + CommitWrites(layout, full, empty, txn)[..done]
    }

    // begin_op(), one turn of its loop; false means the caller sleeps.
    method BeginOp() returns (admitted: bool)
      requires Valid()
      modifies this`outstanding
      ensures Valid()
      ensures admitted <==> MayBegin(n, old(outstanding), committing)
      ensures admitted <==> !committing && n + (old(outstanding) + 1) * 10 <= 30
      ensures outstanding == old(outstanding) + if admitted then 1 else 0
    {
      if committing {
        admitted := false;
      } else if n + (outstanding + 1) * MAXOPBLOCKS > LOGSIZE {
        admitted := false;
      } else {
        outstanding := outstanding + 1;
        admitted := true;
      }
    }

    // log_write(); false is one of its two panics.
    method LogWrite(i: nat) returns (ok: bool)
      requires Valid() && i < NBUF && bc.buf[i].locked && bc.buf[i].valid && bc.buf[i].dev == ROOTDEV
      requires layout.IsHome(bc.buf[i].blockno)
      modifies this`n, this`block, bc
      ensures Valid()
      ensures ok <==> !TooBig(layout.size, old(n)) && outstanding >= 1
      ensures ok <==> old(n) < 30 && old(n) < layout.size - 1 && outstanding >= 1
      ensures ok ==>
                var b, lh := old(bc.buf)[i].blockno, old(block)[..old(n)];
                block[..n] == if b in lh then lh else lh + [b]
      ensures !ok ==> n == old(n) && block == old(block) && bc.latest == old(bc.latest) && bc.buf == old(bc.buf)
      ensures ok ==> block[..n] == Absorb(old(block)[..old(n)], old(bc.buf)[i].blockno)
      ensures ok ==> bc.latest == old(bc.latest)[old(bc.buf)[i].blockno := old(bc.buf)[i].data]
      ensures ok ==> bc.buf == old(bc.buf)[i := old(bc.buf)[i].(dirty := true)]
      ensures bc.memdisk == old(bc.memdisk) && bc.trace == old(bc.trace)
    {
      if n >= LOGSIZE || n >= layout.size - 1 {
        return false;
      }
      if outstanding < 1 {
        return false;
      }
      var b := bc.buf[i].blockno;
      var k := 0;
      while k < n && block[k] != b
        invariant 0 <= k <= n
        invariant forall j | 0 <= j < k :: block[j] != b
      {
        k := k + 1;
      }
      ghost var lh := block[..n];
      block := block[k := b];
      if k == n {
        n := n + 1;
      }
      assert block[..n] == Absorb(lh, b);
      ghost var buf := bc.buf;
      bc.Pin(i);
      PinsAfterPin(buf, bc.buf, i, lh);
      return true;
    }

    // end_op() up to the commit: true tells the caller to run commit().
    method EndOp() returns (doCommit: bool)
      requires Valid() && outstanding >= 1
      modifies this`outstanding, this`committing, this`txn, this`done, this`past
      ensures Valid() && !old(committing)
      ensures outstanding == old(outstanding) - 1
      ensures doCommit == committing == (outstanding == 0)
      ensures doCommit ==> done == 0 && past == bc.trace && txn == Pending(block[..n], bc.latest)
    {
      outstanding := outstanding - 1;
      doCommit := false;
      if outstanding == 0 {
        doCommit := true;
        committing := true;
        txn := Pending(block[..n], bc.latest);
        done := 0;
        past := bc.trace;
        assert CommitWrites(layout, full, empty, txn)[..0] == [];
      }
    }

    // ---- commit(), one disk write at a time ----

    // One round of write_log(): cache block `tail` of the log goes to its slot.
    method WriteLogRound(tail: nat) returns (ok: bool)
      requires Valid() && committing && tail == done < n
      requires bc.Free(layout.start + 1 + tail) && bc.Free(block[tail])
      modifies bc, this`done
      ensures ok ==> Valid() && done == tail + 1 && bc.NoNewLocks() && SparesKept(old(bc.buf), bc.buf)
      ensures !ok ==> done == tail && Traced()
      ensures Spare(old(bc.buf)) ==> ok
      ensures ok ==> Spare(old(bc.buf)) || Cached(old(bc.buf), layout.start + 1 + tail)
      ensures ok ==>
                && block[tail] < |old(bc.latest)| && layout.start + 1 + tail < |old(bc.memdisk)|
                && bc.memdisk == old(bc.memdisk)[layout.start + 1 + tail := old(bc.latest)[block[tail]]]
    {
      hide BCache.Valid, Written, CommitWrites, PinsAre, PinsWithout, Pinned, Spare, Cached, SparesKept;
      ghost var buf := bc.buf;
      LoggedIsPinned(block[..n], 0, tail, bc.buf);
      AfterSlotWrite(layout, base, bc.memdisk, full, empty, txn, tail);
      ok := bc.CopyBlock(block[tail], layout.start + 1 + tail, true);
      if ok {
        LogBlockNotPinned(layout, block[..n], buf, bc.buf, layout.start + 1 + tail);
        done := done + 1;
      }
    }

    // The block write_head() builds from the old header block.
    method PackHeader(old_: Block, ghost t: Txn) returns (h: Block)
      requires n <= |block| && |t| == n && FitsHeader(t)
      requires forall i | 0 <= i < n :: t[i].blockno == block[i]
      ensures h == SetHeader(old_, t)
    {
      h := SetWord(old_, 0, n);
      for i := 0 to n
        invariant h == SetEntries(SetWord(old_, 0, n), t, i)
      {
        h := SetWord(h, i + 1, block[i]);
      }
    }

    // write_head(): the in-memory header goes to the header block.
    method WriteHead(ghost t: Txn) returns (ok: bool)
      requires bc.Valid() && layout.start < |bc.memdisk| && bc.Free(layout.start)
      requires n <= |block| && |t| == n && FitsHeader(t)
      requires forall i | 0 <= i < n :: t[i].blockno == block[i]
      modifies bc
      ensures !ok ==> bc.memdisk == old(bc.memdisk) && bc.latest == old(bc.latest) && bc.trace == old(bc.trace)
      ensures ok ==> bc.Valid() && |bc.memdisk| == |old(bc.memdisk)|
      ensures ok ==>
                bc.NoNewLocks() && PinsWithout(old(bc.buf), bc.buf, layout.start) && SparesKept(old(bc.buf), bc.buf)
      ensures ok <==> Cached(old(bc.buf), layout.start) || Spare(old(bc.buf))
      ensures ok ==>
                var h := bc.memdisk[layout.start];
                && HeaderSays(h, t)
                && bc.memdisk == old(bc.memdisk)[layout.start := h]
                && bc.latest == old(bc.latest)[layout.start := h]
                && bc.trace == old(bc.trace) + [Write(layout.start, h)]
    {
      hide Spare, Cached, Ring, ByRelease, IsPermutation, Sound, Pinned, PinsWithout;
      ghost var buf := bc.buf;
      var r, _ := bc.Bread(layout.start);
      if r.None? {
        return false;
      }
      var i := r.value;
      ghost var buf1 := bc.buf;
      var h := PackHeader(bc.buf[i].data, t);
      HeaderRoundTrip(bc.buf[i].data, t);
      bc.SetData(i, h);
      bc.Bwrite(i);
      bc.Brelse(i);
      PinsAfterWrite(buf, buf1, bc.buf, i, layout.start);
      return true;
    }

    // write_head() of commit(): the write that commits the transaction.
    method CommitHead() returns (ok: bool)
      requires Valid() && committing && done == n > 0 && bc.Free(layout.start)
      modifies bc, this`done, this`full
      ensures ok ==> Valid() && done == n + 1 && bc.NoNewLocks() && SparesKept(old(bc.buf), bc.buf)
      ensures !ok ==> Traced()
      ensures Spare(old(bc.buf)) ==> ok
    {
      hide BCache.Valid, Written, CommitWrites, PinsAre, PinsWithout, Pinned, HeaderSays, Spare, Cached, SparesKept;
      ghost var buf, disk := bc.buf, bc.memdisk;
      ok := WriteHead(txn);
      if ok {
        ghost var h := bc.memdisk[layout.start];
        AfterHeadWrite(layout, base, disk, full, empty, txn, h);
        LogBlockNotPinned(layout, block[..n], buf, bc.buf, layout.start);
        full := h;
        done := done + 1;
      }
    }

    // One round of install_trans(): slot `tail` goes to the block's home location.
    method InstallRound(tail: nat) returns (ok: bool)
      requires Valid() && committing && tail < n && done == n + 1 + tail
      requires bc.Free(layout.start + 1 + tail) && bc.Free(block[tail])
      modifies bc, this`done
      ensures ok ==> Valid() && done == n + 2 + tail && bc.NoNewLocks() && SparesKept(old(bc.buf), bc.buf)
      ensures !ok ==> Traced()
      ensures Spare(old(bc.buf)) ==> ok
      ensures ok ==>
                && block[tail] < |old(bc.memdisk)| && layout.start + 1 + tail < |old(bc.memdisk)|
                && bc.memdisk == old(bc.memdisk)[block[tail] := old(bc.memdisk)[layout.start + 1 + tail]]
    {
      hide BCache.Valid, Written, CommitWrites, PinsAre, PinsWithout, Pinned, Spare, Cached, SparesKept;
      ghost var buf, latest := bc.buf, bc.latest;
      LoggedIsPinned(block[..n], tail, tail, bc.buf);
      LogBlockUnpinned(layout, block[..n], tail, bc.buf, layout.start + 1 + tail);
      SlotDuring(layout, base, bc.memdisk, full, empty, txn, tail);
      bc.NotPinnedIsOnDisk(layout.start + 1 + tail);
      AfterInstallWrite(layout, base, bc.memdisk, full, empty, txn, tail);
      ok := bc.CopyBlock(layout.start + 1 + tail, block[tail], false);
      if ok {
        assert bc.latest == latest;
        HomeUnpinned(block[..n], buf, bc.buf, tail);
        done := done + 1;
      }
    }

    // The end of commit() and of end_op(): erase the transaction from the log.
    method FinishCommit() returns (ok: bool)
      requires Valid() && committing && bc.Free(layout.start)
      requires n > 0 ==> done == 2 * n + 1
      modifies this`n, this`committing, this`base, this`empty, bc
      ensures ok ==> Valid() && !committing && n == 0 && bc.NoNewLocks()
      ensures ok ==> bc.memdisk == bc.latest && base == bc.memdisk
      ensures ok ==> bc.trace == past + CommitWrites(layout, full, empty, txn)
      ensures ok ==> old(n) > 0 ==> HeaderSays(full, txn) && HeaderCount(empty) == 0
      ensures !ok ==> base == old(base) && Traced() && committing
      ensures Spare(old(bc.buf)) || old(n) == 0 ==> ok
    {
      hide BCache.Valid, CommitWrites, PinsAre, PinsWithout, Pinned, HeaderSays, Spare, Cached, SparesKept;
      if n > 0 {
        ghost var lh, buf, disk := block[..n], bc.buf, bc.memdisk;
        n := 0;
        ok := WriteHead([]);
        if !ok {
          return;
        }
        ghost var h := bc.memdisk[layout.start];
        EmptyHeader(h);
        AfterErase(layout, base, disk, full, empty, txn, h);
        ErasedPins(lh, buf, bc.buf, layout.start);
        empty := h;
        base := bc.memdisk;
      } else {
        ok := true;
        assert block[..n][0..] == [];
      }
      committing := false;
      NothingPinned(bc);
    }

    // ---- Cache operations of any process, at any time ----

    // bread() sees the latest contents of the block, also during a commit.
    method Read(b: nat) returns (r: Option<nat>, asleep: bool)
      requires Valid() && b < layout.blocks
      modifies bc`buf
      ensures Valid() && |bc.buf| == NBUF && SamePins(old(bc.buf), bc.buf)
      ensures r.None? <==> !Cached(old(bc.buf), b) && !Spare(old(bc.buf))
      ensures r.None? ==> !asleep && bc.buf == old(bc.buf)
      ensures r.Some? ==> r.value < NBUF && bc.buf[r.value].locked && bc.buf[r.value].Holds(b)
      ensures r.Some? ==> (asleep <==> old(bc.buf)[r.value].locked)
      ensures r.Some? ==> forall j | 0 <= j < NBUF && j != r.value :: bc.buf[j] == old(bc.buf)[j]
      ensures r.Some? ==>
                bc.buf[r.value].refcnt == (if old(bc.buf)[r.value].Holds(b) then old(bc.buf)[r.value].refcnt else 0) + 1
      ensures asleep ==> bc.buf[r.value] == old(bc.buf)[r.value].(refcnt := old(bc.buf)[r.value].refcnt + 1)
      ensures r.Some? && !asleep ==> bc.buf[r.value].valid && bc.buf[r.value].data == bc.latest[b]
    {
      hide BCache.Valid, PinsAre, Cached, Spare;
      ghost var buf := bc.buf;
      r, asleep := bc.Bread(b);
      SamePinsKept(buf, bc.buf);
    }

    // A reader that slept in bread() goes on, possibly during a commit.
    method Woken(i: nat)
      requires Valid() && i < NBUF && bc.buf[i].refcnt > 0 && !bc.buf[i].locked
      modifies bc`buf
      ensures Valid() && |bc.buf| == NBUF && old(bc.buf)[i].blockno < |bc.latest|
      ensures
        var x := old(bc.buf)[i];
        bc.buf == old(bc.buf)[i := x.(locked := true, valid := true, data := bc.latest[x.blockno])]
    {
      hide BCache.Valid, PinsAre;
      ghost var buf := bc.buf;
      bc.Woken(i);
      SamePinsKept(buf, bc.buf);
    }

    method Change(i: nat, data: Block)
      requires Valid() && i < NBUF && bc.buf[i].locked
      modifies bc`buf
      ensures Valid()
      ensures bc.buf == old(bc.buf)[i := old(bc.buf)[i].(data := data)]
    {
      hide BCache.Valid, PinsAre;
      ghost var buf := bc.buf;
      bc.SetData(i, data);
      SamePinsKept(buf, bc.buf);
    }

    method Release(i: nat)
      requires Valid() && i < NBUF && bc.buf[i].locked && bc.buf[i].valid && bc.buf[i].dev == ROOTDEV
      requires bc.buf[i].data == bc.latest[bc.buf[i].blockno]
      modifies bc
      ensures Valid()
      ensures bc.latest == old(bc.latest) && bc.memdisk == old(bc.memdisk) && bc.trace == old(bc.trace)
      ensures bc.buf == old(bc.buf)[i := old(bc.buf)[i].(locked := false, refcnt := old(bc.buf)[i].refcnt - 1)]
    {
      hide BCache.Valid, PinsAre;
      ghost var buf := bc.buf;
      bc.Brelse(i);
      SamePinsKept(buf, bc.buf);
    }

    // The typical use of log_write(): read a block, change it, log it and release it. False is
    // a panic of bget() or log_write(). While nobody else holds a buffer and fewer than NBUF
    // blocks are logged, only log_write() can panic.
    method Update(b: nat, data: Block) returns (ok: bool)
      requires Valid() && layout.IsHome(b) && outstanding >= 1 && Unreferenced(bc.buf) && n < NBUF
      modifies this`n, this`block, bc
      ensures ok <==> !TooBig(layout.size, old(n))
      ensures !ok ==> n == old(n) && block == old(block) && bc.latest == old(bc.latest)
      ensures ok ==> Valid() && Unreferenced(bc.buf)
      ensures ok ==> block[..n] == Absorb(old(block)[..old(n)], b)
      ensures ok ==>
                bc.latest == old(bc.latest)[b := data] && bc.memdisk == old(bc.memdisk) && bc.trace == old(bc.trace)
    {
      hide Spare, Cached, Idle, Carries, BCache.Valid;
      SpareIffRoom();
      UnreferencedFree(bc, b);
      var r, _ := Read(b);
      Change(r.value, data);
      ok := LogWrite(r.value);
      if ok {
        Release(r.value);
      }
    }

    // ---- Crashes ----

    // In every state the system can reach, whatever cache operations of other processes
    // come between the rounds of a commit, a crash now recovers to the home blocks of the
    // last finished commit, or, once the running commit has written its header, to the
    // latest contents given to log_write().
    lemma CrashSafe(blank: Block)
      requires Valid() && HeaderCount(blank) == 0
      ensures ValidLog(layout, bc.memdisk)
      ensures SameHome(layout, Recovered(layout, bc.memdisk, blank),
                       if committing && done > n then bc.latest else base)
    {
      hide BCache.Valid;
      if committing {
        HeadersNotYetWritten(layout, full, empty, full, blank, txn, done);
        CommitCutShort(layout, base, full, blank, txn, done);
        if done > n {
          CommittedIsLatest();
        }
      } else {
        RecoveryOfEmptyLog(layout, base, blank);
      }
    }

    // Installing the running transaction gives every home block its latest contents.
    lemma CommittedIsLatest()
      requires Valid() && committing
      ensures SameHome(layout, Apply(base, txn), bc.latest)
    {
      hide BCache.Valid;
      forall b: nat | layout.IsHome(b)
        ensures Apply(base, txn)[b] == bc.latest[b]
      {
        if Names(txn, b) {
          var i :| 0 <= i < |txn| && txn[i].blockno == b;
          forall j | i < j < |txn|
            ensures txn[j].blockno != b
          {
            assert block[..n][i] != block[..n][j];
          }
          ApplyLast(base, txn, i);
        } else {
          ApplyUntouched(base, txn, b);
          NotLoggedIsOnDisk(b);
        }
      }
    }

    lemma NotLoggedIsOnDisk(b: nat)
      requires Valid() && committing && layout.IsHome(b) && !Names(txn, b)
      ensures |bc.latest| == layout.blocks && bc.latest[b] == base[b]
    {
      hide BCache.Valid;
      var ws := CommitWrites(layout, full, empty, txn)[..done];
      assert !Names(ws, b) by {
        forall i | 0 <= i < |ws|
          ensures ws[i].blockno != b
        {
          CommitWritesNames(layout, full, empty, txn, i);
        }
      }
      ApplyUntouched(base, ws, b);
      forall i | 0 <= i < n
        ensures block[..n][i] != b
      {
        assert txn[i].blockno == block[..n][i];
      }
      bc.NotPinnedIsOnDisk(b);
    }

    // ---- commit() without interleaving ----

    ghost predicate AllFree()
      reads bc
    {
      forall i | 0 <= i < |bc.buf| :: !bc.buf[i].locked
    }

    method WriteLog() returns (ok: bool)
      requires Valid() && committing && done == 0 && AllFree()
      modifies bc, this`done
      ensures ok ==> Valid() && done == n && AllFree() && SparesKept(old(bc.buf), bc.buf)
      ensures !ok ==> Traced() && (Cached(old(bc.buf), layout.start + 1) || done == 0)
      ensures Spare(old(bc.buf)) ==> ok
      ensures ok ==> n == 0 || Spare(old(bc.buf)) || Cached(old(bc.buf), layout.start + 1)
    {
      hide BCache.Valid, Written, CommitWrites, PinsAre, Carries, Idle, Spare, Cached;
      ok := true;
      var tail := 0;
      while tail < n
        invariant Valid() && 0 <= tail == done <= n && AllFree() && SparesKept(old(bc.buf), bc.buf)
        invariant tail == 0 ==> bc.buf == old(bc.buf)
        invariant tail > 0 ==> Spare(old(bc.buf)) || Cached(old(bc.buf), layout.start + 1)
      {
        SparesRemain(old(bc.buf), bc.buf);
        ok := WriteLogRound(tail);
        if !ok {
          return;
        }
        tail := tail + 1;
      }
    }

    method InstallTrans() returns (ok: bool)
      requires Valid() && committing && done == n + 1 && AllFree()
      modifies bc, this`done
      ensures ok ==> Valid() && done == 2 * n + 1 && AllFree() && SparesKept(old(bc.buf), bc.buf)
      ensures !ok ==> Traced()
      ensures Spare(old(bc.buf)) ==> ok
    {
      hide BCache.Valid, Written, CommitWrites, PinsAre, Carries, Idle, Spare;
      ok := true;
      var tail := 0;
      while tail < n
        invariant Valid() && 0 <= tail <= n && done == n + 1 + tail && AllFree() && SparesKept(old(bc.buf), bc.buf)
      {
        SparesRemain(old(bc.buf), bc.buf);
        ok := InstallRound(tail);
        if !ok {
          return;
        }
        tail := tail + 1;
      }
    }

    // A log that pins every buffer leaves none for commit() to read the log into.
    lemma SpareIffRoom()
      requires Valid() && (committing ==> done == 0)
      ensures Unreferenced(bc.buf) && n < NBUF ==> Spare(bc.buf)
      ensures n >= NBUF ==> !Spare(bc.buf) && !Cached(bc.buf, layout.start + 1)
    {
      hide Written, CommitWrites, Ring, ByRelease, IsPermutation, Pinned;
      assert block[..n][0..] == block[..n];
      if Unreferenced(bc.buf) && n < NBUF {
        TooFewBlocks(bc.buf, bc.memdisk, bc.latest, block[..n]);
        CleanIsSpare(bc.buf);
      }
      if n >= NBUF {
        EveryBufferPinned(bc.buf, block[..n]);
        NoLogBlockCached(layout, bc.buf, block[..n], layout.start + 1);
      }
    }

    // commit(): false is a panic in bget(). The disk has then received a prefix of the
    // writes of CommitWrites, and all of them when the commit succeeds. If nobody else holds
    // a buffer it succeeds exactly when the transaction leaves a buffer unpinned.
    method Commit() returns (ok: bool)
      requires Valid() && committing && done == 0 && AllFree()
      modifies this`n, this`committing, this`base, this`done, this`full, this`empty, bc
      ensures ok ==> Valid() && !committing && n == 0 && AllFree()
      ensures ok ==> bc.memdisk == bc.latest && base == bc.memdisk
      ensures ok ==> bc.trace == past + CommitWrites(layout, full, empty, txn)
      ensures !ok ==> base == old(base) && Traced() && committing
      ensures Spare(old(bc.buf)) || old(n) == 0 ==> ok
      ensures old(n) >= NBUF ==> !ok && n == old(n) && done == 0
      ensures Unreferenced(old(bc.buf)) ==> (ok <==> old(n) < NBUF)
    {
      hide BCache.Valid, Written, CommitWrites, PinsAre, Carries, Idle, Spare, Cached, SparesKept, Unreferenced;
      SpareIffRoom();
      ghost var buf := bc.buf;
      if n > 0 {
        ok := WriteLog();
        if !ok {
          return;
        }
        SparesRemain(buf, bc.buf);
        buf := bc.buf;
        ok := CommitHead();
        if !ok {
          return;
        }
        SparesRemain(buf, bc.buf);
        buf := bc.buf;
        ok := InstallTrans();
        if !ok {
          return;
        }
        SparesRemain(buf, bc.buf);
      }
      ok := FinishCommit();
    }

    // ---- recover_from_log() ----

    // What initlog() finds: a disk whose header may name a transaction, an empty cache.
    ghost predicate Booting()
      reads this, bc
    {
      && bc.Valid() && layout.blocks <= 0x1_0000_0000
      && ValidLog(layout, bc.memdisk) && PinsAre(bc.buf, []) && AllFree()
      && |block| == LOGSIZE && outstanding == 0 && !committing
    }

    // A recovery of disk d has made its first k disk writes.
    ghost predicate Recovering(d: Disk, k: nat)
      reads this, bc
    {
      && bc.Valid() && layout.blocks <= 0x1_0000_0000 && ValidLog(layout, d)
      && PinsAre(bc.buf, []) && AllFree()
      && |block| == LOGSIZE && outstanding == 0 && !committing
      && n == |LoggedTxn(layout, d)| && (forall i | 0 <= i < n :: block[i] == LoggedTxn(layout, d)[i].blockno)
      && k <= n && bc.memdisk == Apply(d, LoggedTxn(layout, d)[..k])
      && bc.trace == past + LoggedTxn(layout, d)[..k]
    }

    // The loop of read_head().
    method UnpackHeader(head: Block)
      requires HeaderCount(head) <= LOGSIZE == |block|
      modifies this`n, this`block
      ensures n == HeaderCount(head) && |block| == LOGSIZE
      ensures forall j | 0 <= j < n :: block[j] == HeaderEntry(head, j)
      ensures n == WordAt(head, 0) && forall j | 0 <= j < n :: block[j] == WordAt(head, j + 1)
    {
      n := HeaderCount(head);
      var i := 0;
      while i < n
        modifies this`block
        invariant 0 <= i <= n == HeaderCount(head) <= LOGSIZE == |block|
        invariant forall j | 0 <= j < i :: block[j] == HeaderEntry(head, j)
      {
        block := block[i := HeaderEntry(head, i)];
        i := i + 1;
      }
    }

    // read_head()
    method ReadHead() returns (ok: bool)
      requires Booting()
      modifies this`n, this`block, this`past, bc
      ensures ok ==> Recovering(old(bc.memdisk), 0) && past == old(bc.trace) && SparesKept(old(bc.buf), bc.buf)
      ensures Spare(old(bc.buf)) ==> ok
      ensures bc.memdisk == old(bc.memdisk) && bc.trace == old(bc.trace)
    {
      hide BCache.Valid, PinsAre, Spare, Cached, Pinned;
      ghost var buf, d := bc.buf, bc.memdisk;
      var r, _ := bc.Bread(layout.start);
      if r.None? {
        return false;
      }
      var head := bc.buf[r.value].data;
      SamePinsKept(buf, bc.buf);
      EmptyPins(bc.buf, layout.start);
      bc.NotPinnedIsOnDisk(layout.start);
      assert head == d[layout.start];
      bc.Brelse(r.value);
      SamePinsKept(buf, bc.buf);
      UnpackHeader(head);
      past := bc.trace;
      assert LoggedTxn(layout, d)[..0] == [];
      return true;
    }
  
    // install_trans() of recovery.
    method ReplayTrans(ghost d: Disk) returns (ok: bool)
      requires Recovering(d, 0)
      modifies bc, this`done
      ensures ok ==> Recovering(d, n) && SparesKept(old(bc.buf), bc.buf)
      ensures TwoSpare(old(bc.buf)) ==> ok
      ensures !ok ==> done <= n && bc.memdisk == Apply(d, LoggedTxn(layout, d)[..done])
      ensures !ok ==> bc.trace == past + LoggedTxn(layout, d)[..done]
    {
      hide BCache.Valid, PinsAre, Spare, TwoSpare;
      ok := true;
      var tail := 0;
      while tail < n
        invariant 0 <= tail <= n && Recovering(d, tail) && SparesKept(old(bc.buf), bc.buf)
      {
        SparesRemain(old(bc.buf), bc.buf);
        done := tail;
        ok := ReplayRound(d, tail);
        if !ok {
          return;
        }
        tail := tail + 1;
      }
    }

    method ReplayRound(ghost d: Disk, tail: nat) returns (ok: bool)
      requires Recovering(d, tail) && tail < n
      modifies bc
      ensures ok ==> Recovering(d, tail + 1) && SparesKept(old(bc.buf), bc.buf)
      ensures TwoSpare(old(bc.buf)) ==> ok
      ensures !ok ==> bc.memdisk == old(bc.memdisk) && bc.trace == old(bc.trace)
    {
      hide BCache.Valid, PinsAre, PinsWithout, Pinned, Apply, Spare, TwoSpare, SparesKept, Cached;
      ghost var buf, t := bc.buf, LoggedTxn(layout, d);
      InstallingKeepsLog(layout, d, t, tail);
      assert bc.memdisk[layout.start + 1 + tail] == t[tail].data;
      EmptyPins(bc.buf, layout.start + 1 + tail);
      bc.NotPinnedIsOnDisk(layout.start + 1 + tail);
      OneMoreWrite(d, t, tail);
      ok := bc.CopyBlock(layout.start + 1 + tail, block[tail], false);
      if ok {
        StillUnpinned(buf, bc.buf, block[tail]);
      }
    }

    // recover_from_log(): false is a panic in bget(). The disk has received a prefix of
    // the writes of RecoveryWrites, and all of them when recovery succeeds.
    method RecoverFromLog() returns (ok: bool)
      requires Booting()
      modifies this, bc
      ensures ok ==> Valid() && n == 0 && !committing && base == bc.memdisk == bc.latest
      ensures ok ==> outstanding == 0 && AllFree() && SparesKept(old(bc.buf), bc.buf)
      ensures TwoSpare(old(bc.buf)) ==> ok
      ensures ok ==> HeaderCount(empty) == 0
      ensures ok ==> bc.memdisk == Recovered(layout, old(bc.memdisk), empty)
      ensures ok ==> bc.trace == old(bc.trace) + RecoveryWrites(layout, old(bc.memdisk), empty)
      ensures !ok ==> done <= |LoggedTxn(layout, old(bc.memdisk))|
      ensures !ok ==> bc.memdisk == Apply(old(bc.memdisk), LoggedTxn(layout, old(bc.memdisk))[..done])
      ensures !ok ==> bc.trace == old(bc.trace) + LoggedTxn(layout, old(bc.memdisk))[..done]
    {
      hide BCache.Valid, PinsAre, PinsWithout, Pinned, Spare, TwoSpare, SparesKept, Cached;
      ghost var d, t := bc.memdisk, LoggedTxn(layout, bc.memdisk);
      ghost var buf := bc.buf;
      TwoAreOne(buf);
      done := 0;
      assert t[..0] == [];
      ok := ReadHead();
      if !ok {
        return;
      }
      SparesRemain(buf, bc.buf);
      buf := bc.buf;
      ok := ReplayTrans(d);
      if !ok {
        return;
      }
      SparesRemain(buf, bc.buf);
      TwoAreOne(bc.buf);
      SparesTransitive(old(bc.buf), buf, bc.buf);
      buf := bc.buf;
      done := n;
      ok := EraseReplayed(d);
      if ok {
        SparesTransitive(old(bc.buf), buf, bc.buf);
      }
    }

    // The end of recover_from_log(): clear the log.
    method EraseReplayed(ghost d: Disk) returns (ok: bool)
      requires Recovering(d, n) && done == n
      modifies this`n, this`empty, this`base, bc
      ensures ok ==> Valid() && n == 0 && base == bc.memdisk == bc.latest
      ensures ok ==> AllFree() && SparesKept(old(bc.buf), bc.buf)
      ensures ok ==> HeaderCount(empty) == 0 && bc.memdisk == Recovered(layout, d, empty)
      ensures ok ==> bc.trace == past + RecoveryWrites(layout, d, empty)
      ensures !ok ==> bc.memdisk == old(bc.memdisk) && bc.trace == old(bc.trace)
      ensures Spare(old(bc.buf)) ==> ok
    {
      hide BCache.Valid, PinsAre, PinsWithout, Pinned, Spare, Cached, SparesKept;
      ghost var t := LoggedTxn(layout, d);
      assert t[..n] == t;
      ghost var buf := bc.buf;
      n := 0;
      ok := WriteHead([]);
      if !ok {
        return;
      }
      StillUnpinned(buf, bc.buf, layout.start);
      NothingPinned(bc);
      empty := bc.memdisk[layout.start];
      ApplySnoc(d, t, Write(layout.start, empty));
      base := bc.memdisk;
    }
  }

  ghost predicate Unreferenced(buf: seq<Buf>) {
    forall i | 0 <= i < |buf| :: buf[i].refcnt == 0
  }

  lemma UnreferencedFree(bc: BCache, b: nat)
    requires bc.Valid() && Unreferenced(bc.buf)
    ensures bc.Free(b) && |bc.buf| == NBUF && |bc.latest| == |bc.memdisk|
    ensures forall i | 0 <= i < |bc.buf| :: !bc.buf[i].locked
  {
    assert forall i | 0 <= i < NBUF :: Sound(bc.buf[i], bc.latest);
  }

  lemma LoggedIsPinned(lh: seq<nat>, k: nat, tail: nat, buf: seq<Buf>)
    requires k <= tail < |lh| && PinsAre(buf, lh[k..])
    ensures Pinned(buf, lh[tail])
  {
  }

  lemma CleanIsSpare(buf: seq<Buf>)
    requires Unreferenced(buf) && exists i :: 0 <= i < |buf| && !buf[i].dirty
    ensures Spare(buf)
  {
  }

  // The blocks of the first k buffers.
  ghost function BlocksOf(buf: seq<Buf>, k: nat): (s: set<nat>)
    requires k <= |buf|
    ensures forall b: nat :: b in s <==> exists i :: 0 <= i < k && buf[i].blockno == b
  {
    if k == 0 then {} else BlocksOf(buf, k - 1) + {buf[k - 1].blockno}
  }

  lemma BlockIsNew(buf: seq<Buf>, k: nat)
    requires k < |buf| && Unique(buf) && forall i | 0 <= i < |buf| :: buf[i].dev == ROOTDEV
    ensures buf[k].blockno !in BlocksOf(buf, k)
  {
    forall i | 0 <= i < k
      ensures buf[i].blockno != buf[k].blockno
    {
      assert !buf[i].Holds(buf[k].blockno);
    }
  }

  lemma {:induction false} BlocksOfSize(buf: seq<Buf>, k: nat)
    requires k <= |buf| && Unique(buf) && forall i | 0 <= i < |buf| :: buf[i].dev == ROOTDEV
    ensures |BlocksOf(buf, k)| == k
  {
    hide Unique;
    if k == 0 {
    } else {
      BlocksOfSize(buf, k - 1);
      BlockIsNew(buf, k - 1);
    }
  }

  // If all buffers are pinned, as many blocks are logged.
  lemma PinsAreLogged(buf: seq<Buf>, disk: Disk, latest: Disk, lh: seq<nat>)
    requires Coherent(buf, disk, latest) && PinsAre(buf, lh) && forall i | 0 <= i < |buf| :: buf[i].dirty
    ensures |lh| >= NBUF
  {
    assert forall i | 0 <= i < NBUF :: Sound(buf[i], latest) && buf[i].dev == ROOTDEV;
    BlocksOfSize(buf, NBUF);
    forall b: nat | b in BlocksOf(buf, NBUF)
      ensures b in Members(lh)
    {
      var i :| 0 <= i < NBUF && buf[i].blockno == b;
      assert buf[i].Holds(b) && buf[i].dirty;
      assert Pinned(buf, b);
    }
    SubsetSize(BlocksOf(buf, NBUF), Members(lh));
  }

  // Fewer logged blocks than buffers cannot pin all of them.
  lemma TooFewBlocks(buf: seq<Buf>, disk: Disk, latest: Disk, lh: seq<nat>)
    requires Coherent(buf, disk, latest) && PinsAre(buf, lh) && |lh| < NBUF
    ensures exists i :: 0 <= i < |buf| && !buf[i].dirty
  {
    hide Coherent, PinsAre;
    if forall i | 0 <= i < |buf| :: buf[i].dirty {
      PinsAreLogged(buf, disk, latest, lh);
    }
  }

  lemma EmptyHeader(h: Block)
    requires HeaderSays(h, [])
    ensures HeaderCount(h) == 0
  {
  }

  lemma SparesTransitive(x: seq<Buf>, y: seq<Buf>, z: seq<Buf>)
    requires SparesKept(x, y) && SparesKept(y, z)
    ensures SparesKept(x, z)
  {
  }

  lemma TwoAreOne(buf: seq<Buf>)
    ensures TwoSpare(buf) ==> Spare(buf)
  {
  }

  // The buffer that pins a block.
  ghost function Holder(buf: seq<Buf>, b: nat): (i: nat)
    requires Pinned(buf, b)
    ensures i < |buf| && buf[i].Holds(b) && buf[i].dirty
  {
    var i :| 0 <= i < |buf| && buf[i].Holds(b) && buf[i].dirty;
    i
  }

  ghost function Holders(buf: seq<Buf>, lh: seq<nat>, k: nat): (s: set<nat>)
    requires k <= |lh| && forall j | 0 <= j < |lh| :: Pinned(buf, lh[j])
    ensures forall i | i in s :: i < |buf| && buf[i].dev == ROOTDEV && buf[i].dirty && buf[i].blockno in lh[..k]
  {
    if k == 0 then {} else
      assert lh[..k] == lh[..k - 1] + [lh[k - 1]];
      Holders(buf, lh, k - 1) + {Holder(buf, lh[k - 1])}
  }

  lemma NotRepeated(lh: seq<nat>, k: nat)
    requires NoRepeats(lh) && k < |lh|
    ensures lh[k] !in lh[..k] && lh[k] !in lh[k + 1..]
  {
  }

  lemma HolderIsNew(buf: seq<Buf>, lh: seq<nat>, k: nat)
    requires k < |lh| && NoRepeats(lh) && forall j | 0 <= j < |lh| :: Pinned(buf, lh[j])
    ensures Holder(buf, lh[k]) !in Holders(buf, lh, k)
  {
    hide Pinned, Holder, Holders, NoRepeats;
    NotRepeated(lh, k);
  }

  lemma {:induction false} HoldersSize(buf: seq<Buf>, lh: seq<nat>, k: nat)
    requires k <= |lh| && NoRepeats(lh) && forall j | 0 <= j < |lh| :: Pinned(buf, lh[j])
    ensures |Holders(buf, lh, k)| == k
  {
    hide Pinned, Holder, NoRepeats;
    if k == 0 {
    } else {
      HoldersSize(buf, lh, k - 1);
      HolderIsNew(buf, lh, k - 1);
      assert Holders(buf, lh, k) == Holders(buf, lh, k - 1) + {Holder(buf, lh[k - 1])};
    }
  }

  // As many logged blocks as buffers pin all of them.
  lemma EveryBufferPinned(buf: seq<Buf>, lh: seq<nat>)
    requires PinsAre(buf, lh) && NoRepeats(lh) && |lh| >= |buf|
    ensures forall i | 0 <= i < |buf| :: buf[i].dev == ROOTDEV && buf[i].dirty && buf[i].blockno in lh
  {
    hide Pinned;
    forall j | 0 <= j < |lh|
      ensures Pinned(buf, lh[j])
    {
    }
    HoldersSize(buf, lh, |lh|);
    var h := Holders(buf, lh, |lh|);
    assert lh[..|lh|] == lh;
    FullSubset(h, |buf|);
  }

  lemma FullSubset(h: set<nat>, n: nat)
    requires |h| >= n && forall i | i in h :: i < n
    ensures forall i: nat | i < n :: i in h
  {
    var all := Interval(0, n);
    assert all == h + (all - h);
  }

  // However large the on-disk log is, calls that keep to their budget can end in a panic:
  // of log_write() if it has at most LOGSIZE blocks, and otherwise of bget() in a commit
  // that pins every buffer, because NBUF is no larger than LOGSIZE.
  lemma NoLogSizeIsSafe(size: nat) returns (steps: seq<Step>)
    ensures IsCallRun(Start, steps)
    ensures Panics(size, Start, steps) || (CallRun(Start, steps).committing && |CallRun(Start, steps).lh| >= NBUF)
  {
    if size <= LOGSIZE {
      steps := SmallLogPanics(size);
    } else {
      steps := FullCommit();
    }
  }

  lemma NoLogBlockCached(l: Layout, buf: seq<Buf>, lh: seq<nat>, b: nat)
    requires !l.IsHome(b) && forall i | 0 <= i < |lh| :: l.IsHome(lh[i])
    requires forall i | 0 <= i < |buf| :: buf[i].dirty && buf[i].blockno in lh
    ensures !Spare(buf) && !Cached(buf, b)
  {
  }

  lemma StillUnpinned(buf: seq<Buf>, buf': seq<Buf>, b: nat)
    requires PinsAre(buf, []) && PinsWithout(buf, buf', b)
    ensures PinsAre(buf', [])
  {
  }

  lemma SamePinsKept(buf: seq<Buf>, buf': seq<Buf>)
    requires SamePins(buf, buf')
    ensures forall lh :: PinsAre(buf, lh) ==> PinsAre(buf', lh)
  {
  }

  lemma EmptyPins(buf: seq<Buf>, b: nat)
    requires PinsAre(buf, [])
    ensures !Pinned(buf, b)
  {
  }

  lemma NothingPinned(bc: BCache)
    requires bc.Valid() && PinsAre(bc.buf, [])
    ensures bc.memdisk == bc.latest
  {
  }

  lemma ErasedPins(lh: seq<nat>, buf: seq<Buf>, buf': seq<Buf>, b: nat)
    requires PinsAre(buf, lh[|lh|..]) && PinsWithout(buf, buf', b)
    ensures PinsAre(buf', [])
  {
  }

  lemma LogBlockUnpinned(l: Layout, lh: seq<nat>, k: nat, buf: seq<Buf>, b: nat)
    requires k <= |lh| && PinsAre(buf, lh[k..]) && !l.IsHome(b)
    requires forall i | 0 <= i < |lh| :: l.IsHome(lh[i])
    ensures !Pinned(buf, b)
  {
  }

  lemma LogBlockNotPinned(l: Layout, lh: seq<nat>, buf: seq<Buf>, buf': seq<Buf>, b: nat)
    requires PinsAre(buf, lh) && PinsWithout(buf, buf', b)
    requires !l.IsHome(b) && forall i | 0 <= i < |lh| :: l.IsHome(lh[i])
    ensures PinsAre(buf', lh)
  {
  }

  lemma HomeUnpinned(lh: seq<nat>, buf: seq<Buf>, buf': seq<Buf>, tail: nat)
    requires tail < |lh| && NoRepeats(lh)
    requires PinsAre(buf, lh[tail..]) && PinsWithout(buf, buf', lh[tail])
    ensures PinsAre(buf', lh[tail + 1..])
  {
  }

  lemma PinsAfterPin(buf: seq<Buf>, buf': seq<Buf>, i: nat, lh: seq<nat>)
    requires i < |buf| && buf[i].dev == ROOTDEV && buf' == buf[i := buf[i].(dirty := true)]
    requires PinsAre(buf, lh)
    ensures PinsAre(buf', Absorb(lh, buf[i].blockno))
  {
    var b := buf[i].blockno;
    assert buf'[i].Holds(b) && buf'[i].dirty;
    forall c: nat
      ensures Pinned(buf', c) <==> c in Absorb(lh, b)
    {
      if c != b {
        if Pinned(buf, c) {
          var j :| 0 <= j < |buf| && buf[j].Holds(c) && buf[j].dirty;
          assert buf'[j].Holds(c) && buf'[j].dirty;
        }
        if Pinned(buf', c) {
          var j :| 0 <= j < |buf'| && buf'[j].Holds(c) && buf'[j].dirty;
          assert buf[j].Holds(c) && buf[j].dirty;
        }
      }
    }
  }
}
