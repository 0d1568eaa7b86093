// A run of the log and the cache from boot that ends in a panic, whatever the log's size.
module LogRuns {
  import opened Common
  import opened Blocks
  import opened LogDisk
  import opened LogOps
  import opened Bio
  import L = Log

  datatype Panic = InLogWrite | InCommit

  // binit() and initlog() on any disk whose log is intact. Recovery does not panic.
  method Boot(layout: Layout, disk: Disk) returns (log: L.Log)
    requires layout.blocks <= 0x1_0000_0000 && ValidLog(layout, disk)
    ensures fresh(log) && fresh(log.bc) && log.layout == layout && log.Valid()
    ensures L.Unreferenced(log.bc.buf) && log.n == 0 && !log.committing && log.outstanding == 0
    ensures HeaderCount(log.empty) == 0 && log.bc.latest == log.bc.memdisk == Recovered(layout, disk, log.empty)
  {
    hide BCache.Valid, L.Idle, L.Carries, L.Unreferenced, ValidLog, Recovered;
    var bc := new BCache(disk);
    log := new L.Log(layout, bc);
    Boots(log);
    ghost var buf := bc.buf;
    var ok := log.RecoverFromLog();
    StillUnreferenced(buf, bc.buf);
  }

  // The body of an operation: MAXOPBLOCKS blocks are changed and logged.
  method LogTen(log: L.Log, blocks: seq<nat>, from: nat, data: Block) returns (ok: bool)
    requires log.Valid() && L.Unreferenced(log.bc.buf) && !log.committing && log.outstanding >= 1
    requires from + MAXOPBLOCKS <= |blocks| == NBUF && log.n == from && log.block[..from] == blocks[..from]
    requires NoRepeats(blocks) && forall i | 0 <= i < |blocks| :: log.layout.IsHome(blocks[i])
    modifies log`n, log`block, log.bc
    ensures ok <==> from + MAXOPBLOCKS < log.layout.size
    ensures ok ==> log.Valid() && L.Unreferenced(log.bc.buf)
    ensures ok ==> log.n == from + MAXOPBLOCKS && log.block[..log.n] == blocks[..log.n]
    ensures !ok ==> log.n == log.layout.size - 1
  {
    hide BCache.Valid, L.Idle, L.Carries, L.Unreferenced;
    for k := 0 to MAXOPBLOCKS
      invariant log.Valid() && L.Unreferenced(log.bc.buf)
      invariant log.n == from + k && log.block[..log.n] == blocks[..log.n]
    {
      NewBlock(blocks, log.n);
      ok := log.Update(blocks[from + k], data);
      if !ok {
        return;
      }
      assert log.n == |log.block[..log.n]| == from + k + 1;
    }
    return true;
  }

  // Three operations that change ten blocks each, and the commit they end in. Every call keeps
  // to its budget. A log of at most LOGSIZE blocks makes log_write() panic, and a larger one
  // lets the commit pin every buffer, so that bget() panics: NBUF is no larger than LOGSIZE.
  method ThreeFullOperations(layout: Layout, disk: Disk, blocks: seq<nat>, data: Block)
    returns (p: Panic, log: L.Log)
    requires layout.blocks <= 0x1_0000_0000 && ValidLog(layout, disk)
    requires |blocks| == 3 * MAXOPBLOCKS && NoRepeats(blocks)
    requires forall i | 0 <= i < |blocks| :: layout.IsHome(blocks[i])
    ensures fresh(log) && fresh(log.bc) && log.layout == layout
    ensures p == if layout.size > LOGSIZE then InCommit else InLogWrite
    ensures p == InCommit ==> log.committing && log.n == NBUF && log.done == 0 && log.Traced()
    ensures p == InLogWrite ==> log.outstanding == 3 && log.n == layout.size - 1
  {
    hide BCache.Valid, L.Idle, L.Carries, L.Unreferenced, ValidLog, NoRepeats;
    log := Boot(layout, disk);
    for op := 0 to 3
      invariant log.Valid() && L.Unreferenced(log.bc.buf) && log.n == 0 && !log.committing && log.outstanding == op
    {
      var admitted := log.BeginOp();
      assert admitted;
    }
    var ok;
    for op := 0 to 3
      invariant log.Valid() && L.Unreferenced(log.bc.buf) && !log.committing && log.outstanding == 3
      invariant log.n == op * MAXOPBLOCKS && log.block[..log.n] == blocks[..log.n]
      invariant op == 3 ==> layout.size > LOGSIZE
    {
      ok := LogTen(log, blocks, op * MAXOPBLOCKS, data);
      if !ok {
        return InLogWrite, log;
      }
    }
    for op := 0 to 3
      invariant log.Valid() && L.Unreferenced(log.bc.buf) && log.n == NBUF
      invariant log.outstanding == 3 - op && log.committing == (op == 3) && (log.committing ==> log.done == 0)
    {
      var doCommit := log.EndOp();
    }
    L.UnreferencedFree(log.bc, 0);
    ok := log.Commit();
    return InCommit, log;
  }

  // A new log over a new cache is ready for recovery, with buffers to spare.
  lemma Boots(log: L.Log)
    requires log.bc.Valid() && log.layout.blocks <= 0x1_0000_0000 && ValidLog(log.layout, log.bc.memdisk)
    requires |log.block| == LOGSIZE && log.outstanding == 0 && !log.committing
    requires forall i | 0 <= i < NBUF :: log.bc.buf[i].refcnt == 0 && !log.bc.buf[i].dirty
    ensures log.Booting() && TwoSpare(log.bc.buf)
    ensures forall i | 0 <= i < |log.bc.buf| :: log.bc.buf[i].Recyclable()
  {
    var buf := log.bc.buf;
    assert forall i | 0 <= i < NBUF :: Sound(buf[i], log.bc.latest);
    assert buf[0].Recyclable() && buf[1].Recyclable();
  }

  lemma StillUnreferenced(buf: seq<Buf>, buf': seq<Buf>)
    requires SparesKept(buf, buf') && forall i | 0 <= i < |buf| :: buf[i].Recyclable()
    ensures L.Unreferenced(buf')
  {
  }

  lemma NewBlock(blocks: seq<nat>, k: nat)
    requires NoRepeats(blocks) && k < |blocks|
    ensures Absorb(blocks[..k], blocks[k]) == blocks[..k + 1]
  {
    L.NotRepeated(blocks, k);
  }
}
