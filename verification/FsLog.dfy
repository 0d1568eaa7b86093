// What a file-system call must give to the log: every block that it changes, and how many
// that are when a file is truncated.
module FsLog {
  import opened Common
  import opened Blocks
  import opened FsSpec

  // ---- Changes are logged ----

  // The bitmap and the data blocks, and the blocks logged by the transaction so far.
  datatype Store = Store(bitmap: seq<bool>, disk: seq<Block>, logged: set<nat>)

  // The blocks logged are those of the calls of log_write().
  ghost predicate Tracks(calls: seq<nat>, logged: set<nat>) {
    Members(calls) == logged
  }

  predicate BitBlock(sb: Superblock, b: nat) {
    sb.bmapstart <= b && (b - sb.bmapstart) * BPB < sb.size
  }

  predicate InodeBlock(sb: Superblock, b: nat) {
    sb.inodestart <= b && (b - sb.inodestart) * IPB < sb.ninodes
  }

  // The blocks that file-system calls write: never the boot block, super block or log.
  predicate InPlace(sb: Superblock, b: nat) {
    sb.nmeta <= b < sb.size || BitBlock(sb, b) || InodeBlock(sb, b)
  }

  // Everything that changed is in a logged block: the data blocks themselves, and the bitmap
  // block of every changed bit. Only blocks of the file system were logged.
  ghost predicate Covered(sb: Superblock, s: Store, s': Store) {
    && |s'.bitmap| == |s.bitmap| && |s'.disk| == |s.disk| && s.logged <= s'.logged
    && (forall b | 0 <= b < |s.disk| && s'.disk[b] != s.disk[b] :: b in s'.logged)
    && (forall b | 0 <= b < |s.bitmap| && s'.bitmap[b] != s.bitmap[b] :: BBlock(sb, b) in s'.logged)
    && (forall b | b in s'.logged && b !in s.logged :: InPlace(sb, b))
  }

  lemma CoveredSelf(sb: Superblock, s: Store)
    ensures Covered(sb, s, s)
  {
  }

  lemma CoveredTransitive(sb: Superblock, s: Store, s1: Store, s2: Store)
    requires Covered(sb, s, s1) && Covered(sb, s1, s2)
    ensures Covered(sb, s, s2)
  {
  }

  lemma BitBlocks(sb: Superblock, b: nat)
    requires b < sb.size
    ensures BitBlock(sb, BBlock(sb, b))
  {
  }

  lemma InodeBlocks(sb: Superblock, i: nat)
    requires i < sb.ninodes
    ensures InodeBlock(sb, IBlock(sb, i))
  {
  }

  // balloc()
  lemma CoveredAlloc(sb: Superblock, s: Store, b: nat)
    requires sb.nmeta <= b < sb.size && b < |s.disk| && b < |s.bitmap|
    ensures Covered(sb, s, Store(s.bitmap[b := true], s.disk[b := ZeroBlock], s.logged + {BBlock(sb, b), b}))
  {
    BitBlocks(sb, b);
  }

  // A data or indirect block is written and logged.
  lemma CoveredWrite(sb: Superblock, s: Store, s': Store, b: nat, data: Block)
    requires Covered(sb, s, s') && sb.nmeta <= b < sb.size && b < |s'.disk|
    ensures Covered(sb, s, Store(s'.bitmap, s'.disk[b := data], s'.logged + {b}))
  {
  }

  // bfree()
  lemma CoveredFree(sb: Superblock, s: Store, s': Store, b: nat)
    requires Covered(sb, s, s') && b < sb.size && b < |s'.bitmap|
    ensures Covered(sb, s, Store(s'.bitmap[b := false], s'.disk, s'.logged + {BBlock(sb, b)}))
  {
    BitBlocks(sb, b);
  }

  // iupdate()
  lemma CoveredInode(sb: Superblock, s: Store, s': Store, i: nat)
    requires Covered(sb, s, s') && i < sb.ninodes
    ensures Covered(sb, s, s'.(logged := s'.logged + {IBlock(sb, i)}))
  {
    InodeBlocks(sb, i);
  }

  // One more call of log_write().
  lemma TracksMore(calls: seq<nat>, logged: set<nat>, b: nat)
    requires Tracks(calls, logged)
    ensures Tracks(calls + [b], logged + {b})
  {
    assert forall c: nat :: c in Members(calls + [b]) <==> c in Members(calls) || c == b;
  }

  lemma TracksNone()
    ensures Tracks([], {})
  {
  }

  // Calls that log few blocks in all, and perhaps one more at the end, find room.
  lemma FewCalls(calls: seq<nat>, logged: set<nat>, b: nat)
    requires Tracks(calls, logged) && |logged| < MAXOPBLOCKS
    ensures RoomCalls(calls) && RoomCalls(calls + [b])
  {
    forall k | 0 <= k < |calls + [b]|
      ensures |Members((calls + [b])[..k])| < MAXOPBLOCKS && (k < |calls| ==> |Members(calls[..k])| < MAXOPBLOCKS)
    {
      assert (calls + [b])[..k] == calls[..k];
      SubsetSize(Members(calls[..k]), logged);
    }
  }

  // ---- Transactions of filewrite() ----

  // The file system between operations, when the inode blocks hold the in-memory inodes.
  datatype Snapshot = Snapshot(bitmap: seq<bool>, disk: seq<Block>, inodes: seq<Inode>)

  // Every difference between two states is in a logged block.
  ghost predicate Logs(sb: Superblock, s: Snapshot, s': Snapshot, logged: set<nat>) {
    && Covered(sb, Store(s.bitmap, s.disk, {}), Store(s'.bitmap, s'.disk, logged))
    && |s'.inodes| == |s.inodes| == sb.ninodes
    && forall j | 0 <= j < |s.inodes| && s'.inodes[j] != s.inodes[j] :: IBlock(sb, j) in logged
  }

  // At most one inode changed, and if it did its block is logged.
  lemma LogsOne(sb: Superblock, s: Snapshot, s': Snapshot, i: nat, logged: set<nat>)
    requires Covered(sb, Store(s.bitmap, s.disk, {}), Store(s'.bitmap, s'.disk, logged))
    requires i < |s.inodes| == |s'.inodes| == sb.ninodes
    requires forall j | 0 <= j < |s.inodes| && j != i :: s'.inodes[j] == s.inodes[j]
    requires s'.inodes[i] == s.inodes[i] || IBlock(sb, i) in logged
    ensures Logs(sb, s, s', logged)
  {
    hide Covered, IBlock;
  }

  // Each block has one owner, the bitmap is exact and no file has a hole.
  ghost predicate Intact(sb: Superblock, s: Snapshot) {
    && (exists own :: Ownership(sb, s.bitmap, s.disk, s.inodes, own))
    && forall i | 0 <= i < |s.inodes| ::
         s.inodes[i].size <= MAXFILE * BSIZE && HoleFree(s.disk, s.inodes[i], s.inodes[i].size)
  }

  // File i has src written at offset off; the other files are unchanged.
  ghost predicate Spliced(s: Snapshot, s': Snapshot, i: nat, off: nat, src: seq<Byte>) {
    && i < |s.inodes| == |s'.inodes| && off <= s.inodes[i].size
    && Contents(s'.disk, s'.inodes[i]) == Splice(Contents(s.disk, s.inodes[i]), off, src)
    && OthersSame(s, s', i)
  }

  ghost predicate OthersSame(s: Snapshot, s': Snapshot, i: nat)
    requires |s'.inodes| == |s.inodes|
  {
    forall j | 0 <= j < |s.inodes| && j != i ::
      s'.inodes[j] == s.inodes[j] && Contents(s'.disk, s'.inodes[j]) == Contents(s.disk, s.inodes[j])
  }

  // A finished call that runs in one transaction: a chunk of a filewrite(), a truncation, or one
  // that fails and changes nothing.
  datatype FsCall = Chunk(i: nat, off: nat, src: seq<Byte>) | Trunc(i: nat) | Failed

  ghost predicate Performs(s: Snapshot, s': Snapshot, call: FsCall) {
    match call
    case Chunk(i, off, src) => Spliced(s, s', i, off, src)
    case Trunc(i) => i < |s.inodes| == |s'.inodes| && Contents(s'.disk, s'.inodes[i]) == [] && OthersSame(s, s', i)
    case Failed => s' == s
  }

  // File i holds what it held in state s0, with src written at offset off.
  ghost predicate FileHolds(s0: Snapshot, s: Snapshot, i: nat, off: nat, src: seq<Byte>) {
    && i < |s0.inodes| && i < |s.inodes|
    && (src == [] ==> Contents(s.disk, s.inodes[i]) == Contents(s0.disk, s0.inodes[i]))
    && (src != [] ==> off <= s0.inodes[i].size)
    && (src != [] ==> Contents(s.disk, s.inodes[i]) == Splice(Contents(s0.disk, s0.inodes[i]), off, src))
  }

  // Since state s0, file i has taken the first n bytes of addr at offset off.
  ghost predicate HoldsPrefix(s0: Snapshot, s: Snapshot, i: nat, off: nat, addr: seq<Byte>, n: nat) {
    && n <= |addr| && i < |s0.inodes| == |s.inodes|
    && (n > 0 ==> Spliced(s0, s, i, off, addr[..n]))
    && (n == 0 ==> Contents(s.disk, s.inodes[i]) == Contents(s0.disk, s0.inodes[i]) && OthersSame(s0, s, i))
  }

  // How much is taken after t transactions, if `taken` bytes are taken in all.
  function Progress(t: nat, taken: nat): nat { if t * 1536 <= taken then t * 1536 else taken }

  // The states between the transactions of one filewrite() and the blocks each logged.
  ghost predicate ChunkHistory(sb: Superblock, states: seq<Snapshot>, txns: seq<set<nat>>, i: nat, off: nat,
                               addr: seq<Byte>, taken: nat)
  {
    && |states| == |txns| + 1
    && (forall t | 0 <= t < |txns| :: |txns[t]| <= MAXOPBLOCKS && Logs(sb, states[t], states[t + 1], txns[t]))
    && (forall t: nat | t < |states| ::
          Intact(sb, states[t]) && HoldsPrefix(states[0], states[t], i, off, addr, Progress(t, taken)))
  }

  lemma StartHistory(sb: Superblock, bitmap: seq<bool>, disk: seq<Block>, inodes: seq<Inode>, own: map<nat, Slot>,
                     i: nat, off: nat, addr: seq<Byte>, taken: nat)
    requires Ownership(sb, bitmap, disk, inodes, own) && i < |inodes|
    requires forall j | 0 <= j < |inodes| ::
               inodes[j].size <= MAXFILE * BSIZE && HoleFree(disk, inodes[j], inodes[j].size)
    ensures
      var s := Snapshot(bitmap, disk, inodes);
      ChunkHistory(sb, [s], [], i, off, addr, taken) && HoldsPrefix(s, s, i, off, addr, 0)
  {
    hide Owned, HoleFree, Contents;
  }

  lemma MoreHistory(sb: Superblock, states: seq<Snapshot>, txns: seq<set<nat>>, i: nat, off: nat, addr: seq<Byte>,
                    taken: nat, s: Snapshot, txn: set<nat>, bitmap: seq<bool>, disk: seq<Block>, inodes: seq<Inode>,
                    own: map<nat, Slot>)
    requires ChunkHistory(sb, states, txns, i, off, addr, taken) && s == Snapshot(bitmap, disk, inodes)
    requires |txn| <= MAXOPBLOCKS && Logs(sb, states[|txns|], s, txn) && Ownership(sb, bitmap, disk, inodes, own)
    requires forall j | 0 <= j < |inodes| ::
               inodes[j].size <= MAXFILE * BSIZE && HoleFree(disk, inodes[j], inodes[j].size)
    requires HoldsPrefix(states[0], s, i, off, addr, Progress(|txns| + 1, taken))
    ensures ChunkHistory(sb, states + [s], txns + [txn], i, off, addr, taken)
  {
    hide Owned, HoleFree, Logs, HoldsPrefix, Progress;
    assert Intact(sb, s);
    hide Intact;
    var states', txns' := states + [s], txns + [txn];
    forall t | 0 <= t < |txns'|
      ensures |txns'[t]| <= MAXOPBLOCKS && Logs(sb, states'[t], states'[t + 1], txns'[t])
    {
      if t < |txns| {
        assert states'[t] == states[t] && states'[t + 1] == states[t + 1] && txns'[t] == txns[t];
      }
    }
  }

  lemma PrefixGrows(s0: Snapshot, s: Snapshot, s': Snapshot, i: nat, off: nat, addr: seq<Byte>, n: nat, m: nat)
    requires HoldsPrefix(s0, s, i, off, addr, n) && m > 0 && n + m <= |addr|
    requires Spliced(s, s', i, off + n, addr[n..n + m]) && (n == 0 ==> off <= s0.inodes[i].size)
    ensures HoldsPrefix(s0, s', i, off, addr, n + m)
  {
    hide Contents, Splice;
    if n == 0 {
      assert addr[0..m] == addr[..m];
    } else {
      SpliceTwice(Contents(s0.disk, s0.inodes[i]), off, addr, n, m);
    }
  }

  // ---- The blocks that itrunc() logs ----

  // The bitmap blocks of the blocks in the slots of inode i that have been dealt with.
  ghost function BitsGone(sb: Superblock, own: map<nat, Slot>, i: nat, lo: nat, hi: nat): set<nat> {
    set b | b in own && own[b].inum == i && Gone(own[b].k, lo, hi) :: BBlock(sb, b)
  }

  // The bitmap blocks of all blocks of inode i.
  ghost function BitsOf(sb: Superblock, own: map<nat, Slot>, i: nat): set<nat> {
    set b | b in own && own[b].inum == i :: BBlock(sb, b)
  }

  lemma NoneFreed(sb: Superblock, own: map<nat, Slot>, i: nat)
    ensures OwnWithout(own, own, i, 0, 0) && BitsGone(sb, own, i, 0, 0) == {}
  {
  }

  // One more slot: it held block b, or nothing.
  lemma BitsGoneMore(sb: Superblock, own: map<nat, Slot>, i: nat, lo: nat, hi: nat, lo': nat, hi': nat, k: nat, b: nat)
    requires forall m: nat :: Gone(m, lo', hi') <==> Gone(m, lo, hi) || m == k
    requires forall c | c in own && own[c] == Slot(i, k) :: c == b
    ensures b in own && own[b] == Slot(i, k) ==>
              BitsGone(sb, own, i, lo', hi') == BitsGone(sb, own, i, lo, hi) + {BBlock(sb, b)}
    ensures !(b in own && own[b] == Slot(i, k)) ==> BitsGone(sb, own, i, lo', hi') == BitsGone(sb, own, i, lo, hi)
  {
    forall c | c in own && own[c].inum == i && own[c].k == k
      ensures own[c] == Slot(i, k)
    {
    }
  }

  // One more slot of inode i is dealt with: what it held, if anything, is no longer owned.
  lemma FreedMore(sb: Superblock, bitmap: seq<bool>, disk: seq<Block>, inodes: seq<Inode>, own0: map<nat, Slot>,
                  own: map<nat, Slot>, dead: set<Slot>, i: nat, lo: nat, hi: nat, lo': nat, hi': nat, k: nat)
    requires Owned(sb, bitmap, disk, inodes, own, {}, dead) && i < |inodes| && OwnWithout(own0, own, i, lo, hi)
    requires !Gone(k, lo, hi) && forall m: nat :: Gone(m, lo', hi') <==> Gone(m, lo, hi) || m == k
    requires var b := Ptr(disk, inodes[i], k); b != 0 ==> b in own && own[b] == Slot(i, k)
    ensures
      var b := Ptr(disk, inodes[i], k);
      && OwnWithout(own0, if b == 0 then own else own - {b}, i, lo', hi')
      && BitsGone(sb, own0, i, lo', hi') == BitsGone(sb, own0, i, lo, hi) + if b == 0 then {} else {BBlock(sb, b)}
  {
    hide Owned, Ptr, OwnWithout, BitsGone, BBlock, Gone;
    var b := Ptr(disk, inodes[i], k);
    OneOwner(sb, bitmap, disk, inodes, own, dead, i, k);
    OwnWithoutMore(own0, own, i, lo, hi, lo', hi', k, b);
    BitsGoneMore(sb, own0, i, lo, hi, lo', hi', k, b);
  }

  lemma OwnWithoutMore(own0: map<nat, Slot>, own: map<nat, Slot>, i: nat, lo: nat, hi: nat, lo': nat, hi': nat, k: nat,
                       b: nat)
    requires OwnWithout(own0, own, i, lo, hi) && !Gone(k, lo, hi)
    requires forall m: nat :: Gone(m, lo', hi') <==> Gone(m, lo, hi) || m == k
    requires (forall c | c in own && own[c] == Slot(i, k) :: c == b && b != 0)
    requires b != 0 ==> b in own && own[b] == Slot(i, k)
    ensures OwnWithout(own0, if b == 0 then own else own - {b}, i, lo', hi')
    ensures forall c | c in own0 && own0[c] == Slot(i, k) :: c == b && b != 0
    ensures b != 0 ==> b in own0 && own0[b] == Slot(i, k)
  {
    hide Gone;
    forall c | c in own0 && own0[c] == Slot(i, k)
      ensures c == b && b != 0
    {
      assert c in own && own[c] == Slot(i, k);
    }
  }

  // The direct slots first, the indirect block and its entries afterwards, are all slots.
  lemma BitsSplit(sb: Superblock, own: map<nat, Slot>, own1: map<nat, Slot>, i: nat)
    requires OwnWithout(own, own1, i, NDIRECT, 0)
    ensures BitsOf(sb, own, i) == BitsGone(sb, own, i, NDIRECT, 0) + BitsOf(sb, own1, i)
  {
  }

  // own is own0 less the indirect block of inode i and its entries.
  ghost predicate OwnDirect(own0: map<nat, Slot>, own: map<nat, Slot>, i: nat) {
    && (forall b :: b in own <==> b in own0 && !(own0[b].inum == i && own0[b].k >= INDIRECT))
    && forall b | b in own :: own[b] == own0[b]
  }

  lemma AllDisowned(own0: map<nat, Slot>, own1: map<nat, Slot>, own: map<nat, Slot>, i: nat)
    requires OwnWithout(own0, own1, i, NDIRECT, 0) && OwnDirect(own1, own, i)
    ensures forall b :: b in own <==> b in own0 && own0[b].inum != i
  {
  }

  lemma NoneIndirect(own: map<nat, Slot>, i: nat)
    requires forall b | b in own :: own[b].inum != i || own[b].k < INDIRECT
    ensures OwnDirect(own, own, i)
  {
  }

  // The bitmap blocks of the indirect block of inode i and of its entries.
  ghost function BitsIndirect(sb: Superblock, own: map<nat, Slot>, i: nat): set<nat> {
    set b | b in own && own[b].inum == i && own[b].k >= INDIRECT :: BBlock(sb, b)
  }

  lemma BitsOfIndirect(sb: Superblock, own: map<nat, Slot>, i: nat, ind: nat)
    requires ind in own && own[ind] == Slot(i, INDIRECT)
    requires forall b | b in own && own[b] == Slot(i, INDIRECT) :: b == ind
    requires forall b | b in own :: own[b].k < NSLOTS
    ensures BitsIndirect(sb, own, i) == BitsGone(sb, own, i, 0, NINDIRECT) + {BBlock(sb, ind)}
  {
    forall b | b in own && own[b].inum == i && own[b].k >= INDIRECT
      ensures b == ind || Gone(own[b].k, 0, NINDIRECT)
    {
      if own[b].k == INDIRECT {
        assert own[b] == Slot(i, INDIRECT);
      }
    }
  }

  lemma NoBitsIndirect(sb: Superblock, own: map<nat, Slot>, i: nat)
    requires forall b | b in own :: own[b].inum != i || own[b].k < INDIRECT
    ensures BitsIndirect(sb, own, i) == {}
  {
  }

  // Once the direct slots are gone, only the others are left.
  lemma BitsAreIndirect(sb: Superblock, own: map<nat, Slot>, own1: map<nat, Slot>, i: nat)
    requires OwnWithout(own, own1, i, NDIRECT, 0)
    ensures BitsOf(sb, own1, i) == BitsIndirect(sb, own1, i)
  {
    forall b | b in own1 && own1[b].inum == i
      ensures own1[b].k >= INDIRECT
    {
    }
  }

  // ---- When truncation fits a transaction ----

  // The bitmap blocks that describe data blocks.
  function DataBits(sb: Superblock): nat {
    if sb.nmeta >= sb.size then 0 else (sb.size - 1) / BPB - sb.nmeta / BPB + 1
  }

  // A truncation logs its bitmap blocks and the inode block.
  lemma TruncBound(sb: Superblock, bitmap: seq<bool>, disk: seq<Block>, inodes: seq<Inode>, own: map<nat, Slot>, i: nat)
    requires Ownership(sb, bitmap, disk, inodes, own)
    ensures |BitsOf(sb, own, i) + {IBlock(sb, i)}| <= DataBits(sb) + 1
  {
    BitsFew(sb, bitmap, disk, inodes, own, i);
  }

  lemma BitsFew(sb: Superblock, bitmap: seq<bool>, disk: seq<Block>, inodes: seq<Inode>, own: map<nat, Slot>, i: nat)
    requires Ownership(sb, bitmap, disk, inodes, own)
    ensures |BitsOf(sb, own, i)| <= DataBits(sb)
  {
    var all := Interval(sb.bmapstart + sb.nmeta / BPB, DataBits(sb));
    forall b | b in own
      ensures BBlock(sb, b) in all
    {
      assert sb.nmeta <= b < sb.size;
    }
    SubsetSize(BitsOf(sb, own, i), all);
  }

  // If at most nine bitmap blocks describe data blocks it always fits.
  lemma TruncFits(sb: Superblock, bitmap: seq<bool>, disk: seq<Block>, inodes: seq<Inode>, own: map<nat, Slot>, i: nat)
    requires Ownership(sb, bitmap, disk, inodes, own) && DataBits(sb) < MAXOPBLOCKS
    ensures |BitsOf(sb, own, i) + {IBlock(sb, i)}| <= MAXOPBLOCKS
  {
    TruncBound(sb, bitmap, disk, inodes, own, i);
  }

  // A data block that bitmap block q + k describes, if q is the first with data blocks.
  function Far(q: nat, k: nat): nat { if k == 0 then q * BPB + BPB - 1 else (q + k) * BPB }

  predicate IsFar(q: nat, b: nat) {
    b == q * BPB + BPB - 1 || (b % BPB == 0 && q < b / BPB < q + MAXOPBLOCKS)
  }

  // Inode 2 is the first after the root directory.
  function FarSlot(q: nat, b: nat): Slot { Slot(2, if b / BPB <= q then 0 else b / BPB - q) }

  lemma FarIsFar(q: nat)
    ensures forall k: nat | k < MAXOPBLOCKS :: IsFar(q, Far(q, k)) && FarSlot(q, Far(q, k)) == Slot(2, k)
    ensures forall b: nat | IsFar(q, b) ::
              b < (q + MAXOPBLOCKS) * BPB && FarSlot(q, b).k < MAXOPBLOCKS && Far(q, FarSlot(q, b).k) == b
  {
  }

  function FarInode(q: nat): Inode {
    Inode(seq(NDIRECT + 1, (k: nat) => if k < MAXOPBLOCKS then Far(q, k) else 0), MAXOPBLOCKS * BSIZE)
  }

  // One such file; the others are empty.
  function FarInodes(q: nat, n: nat): (s: seq<Inode>)
    ensures |s| == n
  {
    seq(n, i => if i == 2 then FarInode(q) else Inode(seq(NDIRECT + 1, _ => 0), 0))
  }

  // Otherwise some file is spread so widely that its truncation does not fit.
  lemma TruncTooBig(sb: Superblock, disk: seq<Block>)
    returns (bitmap: seq<bool>, inodes: seq<Inode>, own: map<nat, Slot>)
    requires 1 <= sb.nmeta && |disk| == sb.size && DataBits(sb) >= MAXOPBLOCKS && sb.ninodes >= 3
    requires !BitBlock(sb, IBlock(sb, 2))
    ensures Ownership(sb, bitmap, disk, inodes, own) && |inodes| == sb.ninodes
    ensures Intact(sb, Snapshot(bitmap, disk, inodes))
    ensures |BitsOf(sb, own, 2) + {IBlock(sb, 2)}| > MAXOPBLOCKS
  {
    hide Owned, HoleFree, BitsOf, IBlock, BitBlock, Far, IsFar, FarSlot, FarInodes, DataBits;
    var q := sb.nmeta / BPB;
    bitmap := seq(sb.size, (b: nat) => b < sb.nmeta || IsFar(q, b));
    inodes := FarInodes(q, sb.ninodes);
    own := map b: nat | b < (q + MAXOPBLOCKS) * BPB && IsFar(q, b) :: FarSlot(q, b);
    FarIsFar(q);
    FarOwned(sb, bitmap, disk, inodes, own, q);
    FarBits(sb, own, q);
  }

  lemma FarBits(sb: Superblock, own: map<nat, Slot>, q: nat)
    requires DataBits(sb) >= MAXOPBLOCKS && !BitBlock(sb, IBlock(sb, 2)) && q == sb.nmeta / BPB
    requires forall k: nat | k < MAXOPBLOCKS :: Far(q, k) in own && own[Far(q, k)] == Slot(2, k)
    ensures |BitsOf(sb, own, 2) + {IBlock(sb, 2)}| > MAXOPBLOCKS
  {
    hide IBlock;
    var bits := Interval(sb.bmapstart + q, MAXOPBLOCKS);
    forall b | b in bits
      ensures b in BitsOf(sb, own, 2)
    {
      var k := b - sb.bmapstart - q;
      assert Far(q, k) in own && own[Far(q, k)] == Slot(2, k) && BBlock(sb, Far(q, k)) == b;
    }
    SubsetSize(bits + {IBlock(sb, 2)}, BitsOf(sb, own, 2) + {IBlock(sb, 2)});
  }

  lemma FarOwned(sb: Superblock, bitmap: seq<bool>, disk: seq<Block>, inodes: seq<Inode>, own: map<nat, Slot>, q: nat)
    requires 1 <= sb.nmeta && |bitmap| == |disk| == sb.size && DataBits(sb) >= MAXOPBLOCKS && q == sb.nmeta / BPB
    requires forall b: nat | b < sb.size :: bitmap[b] <==> b < sb.nmeta || IsFar(q, b)
    requires inodes == FarInodes(q, sb.ninodes) && sb.ninodes >= 3
    requires forall b: nat :: b in own <==> IsFar(q, b)
    requires forall b | b in own :: own[b] == FarSlot(q, b)
    ensures Ownership(sb, bitmap, disk, inodes, own)
    ensures forall i | 0 <= i < |inodes| ::
              inodes[i].size <= MAXFILE * BSIZE && HoleFree(disk, inodes[i], inodes[i].size)
  {
    hide WordAt, Far, IsFar, FarSlot, FarInodes;
    FarIsFar(q);
    FarInRange(sb, q);
    FarPtrs(disk, inodes, q);
  }

  lemma FarInRange(sb: Superblock, q: nat)
    requires 1 <= sb.nmeta && DataBits(sb) >= MAXOPBLOCKS && q == sb.nmeta / BPB
    ensures forall k: nat | k < MAXOPBLOCKS :: sb.nmeta <= Far(q, k) < sb.size
    ensures forall b: nat | IsFar(q, b) :: sb.nmeta <= b < sb.size
  {
  }

  lemma FarPtrs(disk: seq<Block>, inodes: seq<Inode>, q: nat)
    requires inodes == FarInodes(q, |inodes|) && |inodes| >= 3
    ensures forall k: nat :: Ptr(disk, inodes[2], k) == if k < MAXOPBLOCKS then Far(q, k) else 0
    ensures forall i: nat, k: nat | i < |inodes| && i != 2 :: Ptr(disk, inodes[i], k) == 0
    ensures forall i | 0 <= i < |inodes| :: |inodes[i].addrs| == NDIRECT + 1
    ensures forall i | 0 <= i < |inodes| :: inodes[i].size == if i == 2 then MAXOPBLOCKS * BSIZE else 0
  {
    hide WordAt, Far;
    assert inodes[2] == FarInode(q);
  }

  // In every sound file system every file that can exist has a truncation that fits.
  ghost predicate TruncAlwaysFits(sb: Superblock) {
    forall bitmap, disk, inodes, own, i: nat |
      && Ownership(sb, bitmap, disk, inodes, own)
      && Intact(sb, Snapshot(bitmap, disk, inodes)) && 1 <= i < |inodes| == sb.ninodes ::
      |BitsOf(sb, own, i) + {IBlock(sb, i)}| <= MAXOPBLOCKS
  }

  // Truncation always fits a transaction exactly if at most nine bitmap blocks describe data.
  lemma TruncFitsIff(sb: Superblock)
    requires 1 <= sb.nmeta <= sb.size && sb.ninodes >= 3 && !BitBlock(sb, IBlock(sb, 2))
    ensures TruncAlwaysFits(sb) <==> DataBits(sb) < MAXOPBLOCKS
  {
    hide Owned, Intact, BitsOf, IBlock, BitBlock, DataBits;
    if DataBits(sb) < MAXOPBLOCKS {
      forall bitmap, disk, inodes, own, i: nat | Ownership(sb, bitmap, disk, inodes, own) && i < |inodes|
        ensures |BitsOf(sb, own, i) + {IBlock(sb, i)}| <= MAXOPBLOCKS
      {
        TruncFits(sb, bitmap, disk, inodes, own, i);
      }
    } else {
      var disk := seq(sb.size, _ => ZeroBlock);
      var bitmap, inodes, own := TruncTooBig(sb, disk);
      assert |BitsOf(sb, own, 2) + {IBlock(sb, 2)}| > MAXOPBLOCKS;
    }
  }
}
