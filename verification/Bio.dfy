// The buffer cache of bio.c over the synchronous disk of memide.c: NBUF buffers on a
// doubly linked ring in least-recently-released order.
module Bio {
  import opened Common
  import opened Blocks
  import opened LogDisk

  const NBUF: nat := 30
  const HEAD: nat := 30     // bcache.head, the ring entry that holds no buffer
  const ROOTDEV: nat := 1

  datatype Buf = Buf(dev: nat, blockno: nat, valid: bool, dirty: bool, refcnt: nat, locked: bool, data: Block) {
    predicate Holds(b: nat) {
      dev == ROOTDEV && blockno == b
    }

    // What bget() may recycle: unreferenced, and not pinned by the log.
    predicate Recyclable() {
      refcnt == 0 && !dirty
    }
  }

  // ---- The ring ----

  // next and prev thread head, order[0], ..., order[last] and back to head.
  ghost predicate Ring(next: seq<nat>, prev: seq<nat>, order: seq<nat>) {
    |next| == |prev| == NBUF + 1 && Simple(order) && Linked(next, prev, [HEAD] + order + [HEAD])
  }

  ghost predicate Simple(order: seq<nat>) {
    && (forall i | 0 <= i < |order| :: order[i] < NBUF)
    && (forall i, j | 0 <= i < j < |order| :: order[i] != order[j])
  }

  // c is a walk along next, and backwards along prev.
  ghost predicate Linked(next: seq<nat>, prev: seq<nat>, c: seq<nat>)
    requires |next| == |prev| == NBUF + 1
  {
    && (forall i | 0 <= i < |c| :: c[i] <= NBUF)
    && (forall i | 0 <= i < |c| - 1 :: next[c[i]] == c[i + 1])
    && (forall i | 0 < i < |c| :: prev[c[i]] == c[i - 1])
  }

  ghost predicate IsPermutation(order: seq<nat>) {
    && |order| == NBUF
    && forall b: nat | b < NBUF :: b in order
  }

  // No entry repeats, except that the last may equal the first.
  ghost predicate Circular(c: seq<nat>) {
    forall i, j | 0 <= i < j < |c| :: c[i] != c[j] || (i == 0 && j == |c| - 1)
  }

  lemma UnlinkKeepsLinked(next: seq<nat>, prev: seq<nat>, c: seq<nat>, p: nat)
    requires |next| == |prev| == NBUF + 1 && Linked(next, prev, c) && Circular(c)
    requires 0 < p < |c| - 1
    ensures Linked(next[c[p - 1] := c[p + 1]], prev[c[p + 1] := c[p - 1]], c[..p] + c[p + 1..])
  {
  }

  // Pointer updates of brelse() that take b out of the ring.
  lemma UnlinkKeepsRing(next: seq<nat>, prev: seq<nat>, order: seq<nat>, k: nat)
    requires Ring(next, prev, order) && k < |order|
    ensures
      var b := order[k];
      next[b] <= NBUF && prev[b] <= NBUF &&
      Ring(next[prev[b] := next[b]], prev[next[b] := prev[b]], order[..k] + order[k + 1..])
  {
    var c := [HEAD] + order + [HEAD];
    var o := order[..k] + order[k + 1..];
    assert c[k + 1] == order[k];
    UnlinkKeepsLinked(next, prev, c, k + 1);
    assert [HEAD] + o + [HEAD] == c[..k + 1] + c[k + 2..];
  }

  lemma LinkKeepsLinked(next: seq<nat>, prev: seq<nat>, c: seq<nat>, b: nat)
    requires |next| == |prev| == NBUF + 1 && Linked(next, prev, c) && Circular(c)
    requires |c| >= 2 && b <= NBUF && b !in c
    ensures Linked(next[b := c[1]][c[0] := b], prev[b := c[0]][c[1] := b], c[..1] + [b] + c[1..])
  {
    var e := c[..1] + [b] + c[1..];
    var next', prev' := next[b := c[1]][c[0] := b], prev[b := c[0]][c[1] := b];
    forall i | 0 <= i < |e| - 1
      ensures next'[e[i]] == e[i + 1]
    {
      if i >= 2 {
        assert e[i] == c[i - 1] != c[0];
      }
    }
    forall i | 0 < i < |e|
      ensures prev'[e[i]] == e[i - 1]
    {
      if i > 2 {
        assert e[i] == c[i - 1] != c[1];
      }
    }
  }

  // Pointer updates of binit() and brelse() that put b behind the head.
  lemma LinkKeepsRing(next: seq<nat>, prev: seq<nat>, order: seq<nat>, b: nat)
    requires Ring(next, prev, order) && b < NBUF && b !in order
    ensures next[HEAD] <= NBUF
    ensures Ring(next[b := next[HEAD]][HEAD := b], prev[b := HEAD][next[HEAD] := b], [b] + order)
  {
    var c := [HEAD] + order + [HEAD];
    assert next[c[0]] == c[1];
    LinkKeepsLinked(next, prev, c, b);
    assert [HEAD] + ([b] + order) + [HEAD] == c[..1] + [b] + c[1..];
  }

  // All pointer updates of brelse().
  lemma MoveToFrontRing(next: seq<nat>, prev: seq<nat>, order: seq<nat>, k: nat)
    requires Ring(next, prev, order) && k < |order|
    ensures
      var b := order[k];
      && next[b] <= NBUF && prev[b] <= NBUF
      && var next1, prev1 := next[prev[b] := next[b]], prev[next[b] := prev[b]];
      && next1[HEAD] <= NBUF
      && Ring(next1[b := next1[HEAD]][HEAD := b], prev1[b := HEAD][next1[HEAD] := b],
              [b] + (order[..k] + order[k + 1..]))
  {
    var b := order[k];
    UnlinkKeepsRing(next, prev, order, k);
    LinkKeepsRing(next[prev[b] := next[b]], prev[next[b] := prev[b]], order[..k] + order[k + 1..], b);
  }

  // ---- Cache contents ----

  // The buffers agree with `latest`, the disk every caller of bread() should see, and
  // `latest` differs from the real disk only on blocks the log has pinned.
  ghost predicate Coherent(buf: seq<Buf>, disk: Disk, latest: Disk) {
    && |buf| == NBUF && |latest| == |disk|
    && (forall i | 0 <= i < NBUF :: Sound(buf[i], latest))
    && Unique(buf)
    && (forall b: nat | b < |disk| && !Pinned(buf, b) :: disk[b] == latest[b])
  }

  // No file-system block has two buffers. Zero-initialised buffers (device 0) are exempt.
  ghost predicate Unique(buf: seq<Buf>) {
    forall i, j | 0 <= i < |buf| && 0 <= j < |buf| && buf[i].dev == ROOTDEV && buf[j].Holds(buf[i].blockno) :: i == j
  }

  ghost predicate Sound(x: Buf, latest: Disk) {
    && (if x.dev == ROOTDEV then x.blockno < |latest| else x.refcnt == 0 && !x.valid && !x.dirty)
    && (x.dirty ==> x.valid)
    && (x.locked ==> x.refcnt > 0)
    && (x.valid && !x.locked ==> x.data == latest[x.blockno])
  }

  ghost predicate Pinned(buf: seq<Buf>, b: nat) {
    exists i :: 0 <= i < |buf| && buf[i].Holds(b) && buf[i].dirty
  }

  ghost predicate Cached(buf: seq<Buf>, b: nat) {
    exists i :: 0 <= i < |buf| && buf[i].Holds(b)
  }

  // At least one buffer, or two, that bget() may recycle.
  ghost predicate Spare(buf: seq<Buf>) {
    exists i :: 0 <= i < |buf| && buf[i].Recyclable()
  }

  ghost predicate TwoSpare(buf: seq<Buf>) {
    exists i, j :: 0 <= i < j < |buf| && buf[i].Recyclable() && buf[j].Recyclable()
  }

  // What could be recycled still can.
  ghost predicate SparesKept(x: seq<Buf>, y: seq<Buf>) {
    |x| == |y| && forall i | 0 <= i < |x| && x[i].Recyclable() :: y[i].Recyclable()
  }

  lemma SparesRemain(x: seq<Buf>, y: seq<Buf>)
    requires SparesKept(x, y)
    ensures Spare(x) ==> Spare(y)
    ensures TwoSpare(x) ==> TwoSpare(y)
  {
  }

  // Buffers enough to hold two blocks at once, one of which may be pinned already.
  ghost predicate Enough(buf: seq<Buf>, b: nat, c: nat) {
    TwoSpare(buf) || (Spare(buf) && (Pinned(buf, b) || Pinned(buf, c)))
  }

  // The same buffers are pinned, for the same blocks.
  ghost predicate SamePins(x: seq<Buf>, y: seq<Buf>) {
    && |x| == |y|
    && forall i | 0 <= i < |x| ::
         x[i].dirty == y[i].dirty && (x[i].dirty ==> x[i].dev == y[i].dev && x[i].blockno == y[i].blockno)
  }

  lemma SamePinsSamePinned(x: seq<Buf>, y: seq<Buf>, b: nat)
    requires SamePins(x, y)
    ensures Pinned(x, b) <==> Pinned(y, b)
  {
  }

  // Replacing one buffer and no pin keeps the cache coherent.
  lemma ReplaceKeepsCoherent(buf: seq<Buf>, disk: Disk, latest: Disk, i: nat, x: Buf)
    requires Coherent(buf, disk, latest) && i < NBUF && Sound(x, latest)
    requires SamePins(buf, buf[i := x])
    requires x.dev == ROOTDEV ==> forall j | 0 <= j < NBUF && j != i :: !buf[j].Holds(x.blockno)
    ensures Coherent(buf[i := x], disk, latest)
  {
    forall b: nat | b < |disk| && !Pinned(buf[i := x], b)
      ensures disk[b] == latest[b]
    {
      SamePinsSamePinned(buf, buf[i := x], b);
    }
  }

  // Releases order the ring: the entry nearest the head was released last.
  ghost predicate ByRelease(order: seq<nat>, stamp: seq<nat>, clock: nat) {
    && |stamp| == NBUF && Simple(order)
    && (forall b | 0 <= b < NBUF :: stamp[b] < clock)
    && (forall i, j | 0 <= i < j < |order| :: stamp[order[i]] > stamp[order[j]])
  }

  lemma MoveToFrontByRelease(order: seq<nat>, stamp: seq<nat>, clock: nat, k: nat)
    requires ByRelease(order, stamp, clock) && k < |order|
    ensures ByRelease([order[k]] + (order[..k] + order[k + 1..]), stamp[order[k] := clock], clock + 1)
  {
    var o := [order[k]] + (order[..k] + order[k + 1..]);
    var s := stamp[order[k] := clock];
    assert o[0] == order[k];
    forall i | 0 < i < |o|
      ensures o[i] != order[k] && o[i] == order[if i <= k then i - 1 else i]
    {
    }
    forall i, j | 0 <= i < j < |o|
      ensures s[o[i]] > s[o[j]]
    {
      assert o[j] == order[if j <= k then j - 1 else j];
    }
  }

  lemma MoveToFrontPermutation(order: seq<nat>, k: nat)
    requires IsPermutation(order) && k < |order|
    ensures IsPermutation([order[k]] + (order[..k] + order[k + 1..]))
  {
    var o := [order[k]] + (order[..k] + order[k + 1..]);
    forall b: nat | b < NBUF
      ensures b in o
    {
      assert b in order;
      var i :| 0 <= i < |order| && order[i] == b;
      if i < k {
        assert o[i + 1] == b;
      } else if i == k {
        assert o[0] == b;
      } else {
        assert o[i] == b;
      }
    }
  }

  const EmptyBuf := Buf(0, 0, false, false, 0, false, ZeroBlock)

  lemma EmptyCacheCoherent(disk: Disk)
    ensures Coherent(seq(NBUF, _ => EmptyBuf), disk, disk)
  {
  }

  // The order binit() builds: every buffer once, the last one first.
  lemma InitialOrder(order: seq<nat>, stamp: seq<nat>)
    requires |order| == |stamp| == NBUF
    requires forall i | 0 <= i < NBUF :: order[i] == NBUF - 1 - i
    requires forall i | 0 <= i < NBUF :: stamp[i] == i
    ensures IsPermutation(order) && ByRelease(order, stamp, NBUF)
  {
    forall b: nat | b < NBUF
      ensures b in order
    {
      assert order[NBUF - 1 - b] == b;
    }
  }

  class BCache {
    var buf: seq<Buf>
    var next: seq<nat>
    var prev: seq<nat>
    var memdisk: Disk

    ghost var order: seq<nat>    // the ring, from head.next
    ghost var stamp: seq<nat>    // when each buffer last fell to zero references
    ghost var clock: nat
    ghost var latest: Disk       // last contents given to log_write() or bwrite()
    ghost var trace: seq<Write>  // every disk write so far

    ghost predicate Valid()
      reads this
    {
      && Ring(next, prev, order) && IsPermutation(order)
      && ByRelease(order, stamp, clock)
      && Coherent(buf, memdisk, latest)
    }

    // binit()
    constructor (disk: Disk)
      ensures Valid()
      ensures memdisk == disk && latest == disk && trace == []
      ensures forall i | 0 <= i < NBUF :: buf[i].refcnt == 0 && !buf[i].dirty
    {
      buf := seq(NBUF, _ => EmptyBuf);
      memdisk := disk;
      latest := disk;
      trace := [];
      clock := NBUF;
      stamp := seq(NBUF, i => i);
      next := seq(NBUF + 1, _ => HEAD);
      prev := seq(NBUF + 1, _ => HEAD);
      order := [];
      new;
      hide Coherent, ByRelease, IsPermutation;
      EmptyCacheCoherent(disk);
      for b := 0 to NBUF
        invariant Ring(next, prev, order)
        invariant |order| == b && forall i | 0 <= i < b :: order[i] == b - 1 - i
        invariant |stamp| == NBUF && (forall i | 0 <= i < NBUF :: stamp[i] == i) && clock == NBUF
        invariant |buf| == NBUF && forall i | 0 <= i < NBUF :: buf[i] == EmptyBuf
        invariant Coherent(buf, memdisk, latest)
        invariant memdisk == disk && latest == disk && trace == []
      {
        LinkKeepsRing(next, prev, order, b);
        var first := next[HEAD];
        next := next[b := first];
        prev := prev[b := HEAD];
        prev := prev[first := b];
        next := next[HEAD := b];
        order := [b] + order;
      }
      InitialOrder(order, stamp);
    }

    // First scan of bget(): the buffer of block b, most recently released first.
    method Find(b: nat) returns (r: Option<nat>)
      requires Valid()
      ensures r.Some? ==> r.value < NBUF && buf[r.value].Holds(b)
      ensures r.None? ==> forall i | 0 <= i < NBUF :: !buf[i].Holds(b)
    {
      ghost var c := [HEAD] + order + [HEAD];
      var p := next[HEAD];
      assert p == next[c[0]] == c[1];
      ghost var k := 0;
      while p != HEAD
        invariant 0 <= k <= NBUF && p == c[k + 1] && (k < NBUF ==> p == order[k])
        invariant forall i | 0 <= i < k :: !buf[order[i]].Holds(b)
        decreases NBUF - k
      {
        if buf[p].Holds(b) {
          return Some(p);
        }
        assert next[c[k + 1]] == c[k + 2];
        p := next[p];
        k := k + 1;
      }
      forall i: nat | i < NBUF
        ensures !buf[i].Holds(b)
      {
        assert i in order;
      }
      return None;
    }

    // Second scan of bget(): from the tail, the least recently released buffer that is
    // neither referenced nor pinned.
    method Oldest() returns (r: Option<nat>)
      requires Valid()
      ensures r.Some? ==> r.value < NBUF && buf[r.value].Recyclable()
      ensures r.Some? ==> forall j | 0 <= j < NBUF && buf[j].Recyclable() :: stamp[r.value] <= stamp[j]
      ensures r.None? ==> forall j | 0 <= j < NBUF :: !buf[j].Recyclable()
    {
      ghost var c := [HEAD] + order + [HEAD];
      var p := prev[HEAD];
      assert p == prev[c[|c| - 1]] == c[|c| - 2];
      ghost var k := NBUF;
      while p != HEAD
        invariant 0 <= k <= NBUF && p == c[k] && (k > 0 ==> p == order[k - 1])
        invariant forall i | k <= i < NBUF :: !buf[order[i]].Recyclable()
        decreases k
      {
        if buf[p].refcnt == 0 && !buf[p].dirty {
          assert p == order[k - 1];
          forall j: nat | j < NBUF && buf[j].Recyclable()
            ensures stamp[p] <= stamp[j]
          {
            assert j in order;
            var m :| 0 <= m < |order| && order[m] == j;
            assert m <= k - 1;
          }
          return Some(p);
        }
        assert prev[c[k]] == c[k - 1];
        p := prev[p];
        k := k - 1;
      }
      forall j: nat | j < NBUF
        ensures !buf[j].Recyclable()
      {
        assert j in order;
      }
      return None;
    }

    // The part of bget() under bcache.lock. None is the panic "bget: no buffers".
    method Bget(b: nat) returns (r: Option<nat>)
      requires Valid() && b < |memdisk|
      modifies this`buf
      ensures Valid()
      ensures match r
              case None =>
                && buf == old(buf)
                && forall i | 0 <= i < NBUF :: !buf[i].Holds(b) && !buf[i].Recyclable()
              case Some(i) =>
                && i < NBUF
                && if old(buf)[i].Holds(b)
                   then buf == old(buf)[i := old(buf)[i].(refcnt := old(buf)[i].refcnt + 1)]
                   else
                     && (forall j | 0 <= j < NBUF :: !old(buf)[j].Holds(b))
                     && old(buf)[i].Recyclable()
                     && (forall j | 0 <= j < NBUF && old(buf)[j].Recyclable() :: stamp[i] <= stamp[j])
                     && buf == old(buf)[i := Buf(ROOTDEV, b, false, false, 1, false, old(buf)[i].data)]
      ensures SamePins(old(buf), buf)
    {
      r := Find(b);
      if r.Some? {
        var p := r.value;
        var x := buf[p].(refcnt := buf[p].refcnt + 1);
        ReplaceKeepsCoherent(buf, memdisk, latest, p, x);
        buf := buf[p := x];
        return;
      }
      r := Oldest();
      if r.Some? {
        var p := r.value;
        var x := Buf(ROOTDEV, b, false, false, 1, false, buf[p].data);
        ReplaceKeepsCoherent(buf, memdisk, latest, p, x);
        buf := buf[p := x];
      }
    }

    // acquiresleep(&b->lock), once the lock is free.
    method Lock(i: nat)
      requires Valid() && i < NBUF && buf[i].refcnt > 0 && !buf[i].locked
      modifies this`buf
      ensures Valid()
      ensures buf == old(buf)[i := old(buf)[i].(locked := true)]
    {
      var x := buf[i].(locked := true);
      ReplaceKeepsCoherent(buf, memdisk, latest, i, x);
      buf := buf[i := x];
    }

    // iderw() on a clean buffer that is not valid yet: read the block.
    method Fill(i: nat)
      requires Valid() && i < NBUF && buf[i].locked && !buf[i].valid && buf[i].dev == ROOTDEV
      modifies this`buf
      ensures Valid()
      ensures buf == old(buf)[i := old(buf)[i].(valid := true, data := latest[old(buf)[i].blockno])]
    {
      ghost var b := buf[i].blockno;
      assert !Pinned(buf, b);
      var x := buf[i].(valid := true, data := memdisk[buf[i].blockno]);
      ReplaceKeepsCoherent(buf, memdisk, latest, i, x);
      buf := buf[i := x];
    }

    // bread(): the block's buffer, locked, with the latest contents of the block. A caller that
    // finds the buffer locked takes a reference and goes to sleep; Woken() is how it goes on.
    method Bread(b: nat) returns (r: Option<nat>, asleep: bool)
      requires Valid() && b < |memdisk|
      modifies this`buf
      ensures Valid() && |buf| == NBUF && SamePins(old(buf), buf)
      ensures r.None? <==> !Cached(old(buf), b) && !Spare(old(buf))
      ensures r.None? ==> !asleep && buf == old(buf)
      ensures r.Some? ==> r.value < NBUF && buf[r.value].Holds(b) && buf[r.value].locked
      ensures r.Some? ==> old(buf)[r.value].Holds(b) || old(buf)[r.value].Recyclable()
      ensures r.Some? ==> (asleep <==> old(buf)[r.value].locked)
      ensures r.Some? ==> forall j | 0 <= j < NBUF && j != r.value :: buf[j] == old(buf)[j]
      ensures r.Some? ==>
                buf[r.value].refcnt == (if old(buf)[r.value].Holds(b) then old(buf)[r.value].refcnt else 0) + 1
      ensures asleep ==> buf[r.value] == old(buf)[r.value].(refcnt := old(buf)[r.value].refcnt + 1)
      ensures r.Some? && !asleep ==> buf[r.value].valid && buf[r.value].data == latest[b]
    {
      r := Bget(b);
      asleep := false;
      if r.Some? {
        assert old(buf)[r.value].Holds(b) || old(buf)[r.value].Recyclable();
        if buf[r.value].locked {
          asleep := true;
        } else {
          Woken(r.value);
        }
      }
    }

    // The rest of bread(), once acquiresleep() has the lock.
    method Woken(i: nat)
      requires Valid() && i < NBUF && buf[i].refcnt > 0 && !buf[i].locked
      modifies this`buf
      ensures Valid() && |buf| == NBUF && SamePins(old(buf), buf) && old(buf)[i].blockno < |latest|
      ensures buf == old(buf)[i := old(buf)[i].(locked := true, valid := true, data := latest[old(buf)[i].blockno])]
    {
      Lock(i);
      if !buf[i].valid {
        Fill(i);
      }
    }

    // A holder of the lock changes b->data.
    method SetData(i: nat, data: Block)
      requires Valid() && i < NBUF && buf[i].locked
      modifies this`buf
      ensures Valid()
      ensures buf == old(buf)[i := old(buf)[i].(data := data)]
      ensures SamePins(old(buf), buf)
    {
      var x := buf[i].(data := data);
      ReplaceKeepsCoherent(buf, memdisk, latest, i, x);
      buf := buf[i := x];
    }

    // bwrite(): write through to the disk; the buffer is no longer dirty.
    method Bwrite(i: nat)
      requires Valid() && i < NBUF && buf[i].locked && buf[i].dev == ROOTDEV
      modifies this`buf, this`memdisk, this`latest, this`trace
      ensures Valid()
      ensures buf == old(buf)[i := old(buf)[i].(valid := true, dirty := false)]
      ensures memdisk == old(memdisk)[buf[i].blockno := buf[i].data]
      ensures latest == old(latest)[buf[i].blockno := buf[i].data]
      ensures trace == old(trace) + [Write(buf[i].blockno, buf[i].data)]
    {
      var b := buf[i].blockno;
      WriteKeepsCoherent(buf, memdisk, latest, i);
      memdisk := memdisk[b := buf[i].data];
      latest := latest[b := buf[i].data];
      trace := trace + [Write(b, buf[i].data)];
      buf := buf[i := buf[i].(valid := true, dirty := false)];
    }

    // The B_DIRTY mark of log_write(): the buffer is pinned and its data is the block's
    // latest content, while the disk keeps the old one.
    method Pin(i: nat)
      requires Valid() && i < NBUF && buf[i].locked && buf[i].valid && buf[i].dev == ROOTDEV
      modifies this`buf, this`latest
      ensures Valid()
      ensures buf == old(buf)[i := old(buf)[i].(dirty := true)]
      ensures latest == old(latest)[buf[i].blockno := buf[i].data]
    {
      PinKeepsCoherent(buf, memdisk, latest, i);
      latest := latest[buf[i].blockno := buf[i].data];
      buf := buf[i := buf[i].(dirty := true)];
    }

    // brelse(): the data must have been handed to log_write() or bwrite() if it changed.
    // A buffer nobody else references moves to the front of the ring.
    method Brelse(i: nat)
      requires Valid() && i < NBUF && buf[i].locked && buf[i].valid && buf[i].dev == ROOTDEV
      requires buf[i].data == latest[buf[i].blockno]
      modifies this`buf, this`next, this`prev, this`order, this`stamp, this`clock
      ensures Valid()
      ensures buf == old(buf)[i := old(buf)[i].(locked := false, refcnt := old(buf)[i].refcnt - 1)]
      ensures SamePins(old(buf), buf)
      ensures buf[i].refcnt > 0 ==> order == old(order)
      ensures buf[i].refcnt == 0 ==> order[0] == i && stamp == old(stamp)[i := old(clock)]
    {
      var x := buf[i].(locked := false, refcnt := buf[i].refcnt - 1);
      ReplaceKeepsCoherent(buf, memdisk, latest, i, x);
      buf := buf[i := x];
      if x.refcnt == 0 {
        MoveToFront(i);
      }
    }

    lemma NotPinnedIsOnDisk(b: nat)
      requires Valid() && b < |memdisk| && !Pinned(buf, b)
      ensures |latest| == |memdisk| && memdisk[b] == latest[b]
    {
    }

    // Nobody holds the lock of a buffer of block b.
    ghost predicate Free(b: nat)
      reads this
    {
      forall i | 0 <= i < |buf| && buf[i].Holds(b) :: !buf[i].locked
    }

    // No operation in progress holds a buffer it did not hold before.
    twostate predicate NoNewLocks()
      reads this
    {
      && |buf| == |old(buf)|
      && forall i | 0 <= i < |buf| && buf[i].locked :: old(buf)[i].locked && buf[i].blockno == old(buf)[i].blockno
    }

    // One round of write_log() or install_trans(): read two blocks, copy one over the
    // other, write it and release both. False is a panic in bget().
    method CopyBlock(src: nat, dst: nat, dstFirst: bool) returns (ok: bool)
      requires Valid() && src != dst && src < |memdisk| && dst < |memdisk| && Free(src) && Free(dst)
      modifies this
      ensures !ok ==> memdisk == old(memdisk) && latest == old(latest) && trace == old(trace)
      ensures ok ==> Valid() && NoNewLocks()
      ensures ok ==> memdisk == old(memdisk)[dst := old(latest)[src]] && latest == old(latest)[dst := old(latest)[src]]
      ensures ok ==> trace == old(trace) + [Write(dst, old(latest)[src])]
      ensures ok ==> PinsWithout(old(buf), buf, dst) && SparesKept(old(buf), buf)
      ensures Enough(old(buf), src, dst) ==> ok
      ensures ok ==> Spare(old(buf)) || (Cached(old(buf), src) && Cached(old(buf), dst))
    {
      hide Enough, Spare, Cached, SparesKept, Ring, ByRelease, IsPermutation, Sound, Pinned, PinsWithout;
      var from, to;
      ok, from, to := ReadPair(src, dst, dstFirst);
      if ok {
        ghost var buf1 := buf;
        SetData(to, buf[from].data);
        Bwrite(to);
        Brelse(from);
        Brelse(to);
        PinsAfterWrite(old(buf), buf1, buf, to, dst);
        SparesAfterCopy(old(buf), buf1, buf, from, to);
      }
    }

    // The two bread() calls of write_log() and install_trans().
    method ReadPair(src: nat, dst: nat, dstFirst: bool) returns (ok: bool, from: nat, to: nat)
      requires Valid() && src != dst && src < |memdisk| && dst < |memdisk| && Free(src) && Free(dst)
      modifies this`buf
      ensures ok ==> Valid() && from < NBUF && to < NBUF && from != to && SamePins(old(buf), buf)
      ensures ok ==> buf[from].locked && buf[from].valid && buf[from].Holds(src) && buf[from].data == latest[src]
      ensures ok ==> buf[to].locked && buf[to].valid && buf[to].Holds(dst) && buf[to].data == latest[dst]
      ensures ok ==> forall j | 0 <= j < NBUF && j != from && j != to :: buf[j] == old(buf)[j]
      ensures ok ==>
                forall j | j == from || j == to ::
                  !old(buf)[j].locked && (old(buf)[j].Recyclable() ==> buf[j].refcnt == 1)
      ensures Enough(old(buf), src, dst) ==> ok
      ensures ok ==> Spare(old(buf)) || (Cached(old(buf), src) && Cached(old(buf), dst))
    {
      ghost var buf0 := buf;
      var first, _ := Bread(if dstFirst then dst else src);
      if first.None? {
        NotEnough(buf0, if dstFirst then dst else src, if dstFirst then src else dst);
        return false, 0, 0;
      }
      AfterFirst(buf0, buf, first.value, if dstFirst then dst else src, if dstFirst then src else dst);
      var second, _ := Bread(if dstFirst then src else dst);
      if second.None? {
        return false, 0, 0;
      }
      ok := true;
      from := if dstFirst then second.value else first.value;
      to := if dstFirst then first.value else second.value;
    }

    // The relinking at the end of brelse().
    method MoveToFront(i: nat)
      requires i < NBUF && Ring(next, prev, order) && IsPermutation(order) && ByRelease(order, stamp, clock)
      modifies this`next, this`prev, this`order, this`stamp, this`clock
      ensures Ring(next, prev, order) && IsPermutation(order) && ByRelease(order, stamp, clock)
      ensures order[0] == i && stamp == old(stamp)[i := old(clock)]
    {
      assert i in order;
      ghost var k :| 0 <= k < |order| && order[k] == i;
      MoveToFrontRing(next, prev, order, k);
      var before, after := prev[i], next[i];
      prev := prev[after := before];
      next := next[before := after];
      var first := next[HEAD];
      next := next[i := first];
      prev := prev[i := HEAD];
      prev := prev[first := i];
      next := next[HEAD := i];
      MoveToFrontByRelease(order, stamp, clock, k);
      MoveToFrontPermutation(order, k);
      order := [i] + (order[..k] + order[k + 1..]);
      stamp := stamp[i := clock];
      clock := clock + 1;
    }
  }

  lemma NotEnough(buf: seq<Buf>, b: nat, c: nat)
    requires !Cached(buf, b) && !Spare(buf)
    ensures !Enough(buf, b, c) && !Enough(buf, c, b)
  {
  }

  // Once block b has buffer k, block c finds one if there were enough, and only if it had
  // one or some buffer was spare.
  lemma AfterFirst(buf: seq<Buf>, buf': seq<Buf>, k: nat, b: nat, c: nat)
    requires |buf'| == |buf| && k < |buf| && b != c && SamePins(buf, buf')
    requires buf'[k].Holds(b) && buf'[k].refcnt > 0 && forall j | 0 <= j < |buf| && j != k :: buf'[j] == buf[j]
    requires Unique(buf') && (buf[k].Holds(b) || buf[k].Recyclable())
    ensures Enough(buf, b, c) || Enough(buf, c, b) ==> Cached(buf', c) || Spare(buf')
    ensures Cached(buf', c) ==> Cached(buf, c)
    ensures Spare(buf') ==> Spare(buf)
    ensures buf[k].Holds(b) ==> Cached(buf, b)
    ensures buf[k].Recyclable() ==> Spare(buf)
  {
    if Pinned(buf, c) {
      SamePinsSamePinned(buf, buf', c);
    }
    if Spare(buf) && Pinned(buf, b) {
      var i :| 0 <= i < |buf| && buf[i].Recyclable();
      var j :| 0 <= j < |buf| && buf[j].Holds(b) && buf[j].dirty;
      assert buf'[j].Holds(b) && buf'[k].Holds(b);
      assert j == k && buf'[i] == buf[i];
    }
    if TwoSpare(buf) {
      var i, j :| 0 <= i < j < |buf| && buf[i].Recyclable() && buf[j].Recyclable();
      assert buf'[if i == k then j else i].Recyclable();
    }
  }

  lemma SparesAfterCopy(buf: seq<Buf>, buf1: seq<Buf>, buf2: seq<Buf>, from: nat, to: nat)
    requires |buf| == |buf1| == |buf2| && from < |buf| && to < |buf| && SamePins(buf, buf1)
    requires forall j | 0 <= j < |buf| && j != from && j != to :: buf2[j] == buf[j]
    requires forall j | j == from || j == to ::
               (buf[j].Recyclable() ==> buf1[j].refcnt == 1) && buf2[j].refcnt == buf1[j].refcnt - 1
    requires buf2[from].dirty == buf1[from].dirty && !buf2[to].dirty
    ensures SparesKept(buf, buf2)
  {
  }

  // The pins of y are those of x, less any of block b.
  ghost predicate PinsWithout(x: seq<Buf>, y: seq<Buf>, b: nat) {
    forall c: nat :: Pinned(y, c) <==> c != b && Pinned(x, c)
  }

  lemma PinsAfterWrite(buf0: seq<Buf>, buf1: seq<Buf>, buf2: seq<Buf>, i: nat, b: nat)
    requires |buf0| == |buf1| == |buf2| && SamePins(buf0, buf1) && Unique(buf1) && i < |buf1|
    requires buf1[i].Holds(b) && buf2[i].Holds(b) && !buf2[i].dirty
    requires forall j | 0 <= j < |buf1| && j != i ::
               buf2[j].dirty == buf1[j].dirty && buf2[j].dev == buf1[j].dev && buf2[j].blockno == buf1[j].blockno
    ensures PinsWithout(buf0, buf2, b)
  {
  }

  lemma WriteKeepsCoherent(buf: seq<Buf>, disk: Disk, latest: Disk, i: nat)
    requires Coherent(buf, disk, latest) && i < NBUF && buf[i].locked && buf[i].dev == ROOTDEV
    ensures
      var b, x := buf[i].blockno, buf[i].data;
      Coherent(buf[i := buf[i].(valid := true, dirty := false)], disk[b := x], latest[b := x])
  {
    var b, x := buf[i].blockno, buf[i].data;
    var buf' := buf[i := buf[i].(valid := true, dirty := false)];
    forall c: nat | c != b && Pinned(buf, c)
      ensures Pinned(buf', c)
    {
      var j :| 0 <= j < |buf| && buf[j].Holds(c) && buf[j].dirty;
      assert buf'[j].Holds(c) && buf'[j].dirty;
    }
  }

  lemma PinKeepsCoherent(buf: seq<Buf>, disk: Disk, latest: Disk, i: nat)
    requires Coherent(buf, disk, latest) && i < NBUF && buf[i].locked && buf[i].valid && buf[i].dev == ROOTDEV
    ensures Coherent(buf[i := buf[i].(dirty := true)], disk, latest[buf[i].blockno := buf[i].data])
  {
    var b := buf[i].blockno;
    var buf' := buf[i := buf[i].(dirty := true)];
    assert buf'[i].Holds(b) && buf'[i].dirty;
    forall c: nat | Pinned(buf, c)
      ensures Pinned(buf', c)
    {
      var j :| 0 <= j < |buf| && buf[j].Holds(c) && buf[j].dirty;
      assert buf'[j].Holds(c) && buf'[j].dirty;
    }
  }
}
