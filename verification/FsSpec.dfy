// Block ownership and file contents of fs.c, on values: the free bitmap, the block
// pointers of inodes and indirect blocks, and the byte sequence a file stands for.
module FsSpec {
  import opened Blocks

  const NDIRECT: nat := 12
  const NINDIRECT: nat := 128
  const MAXFILE: nat := 140
  const BPB: nat := 4096       // bitmap bits per block
  const IPB: nat := 8          // inodes per block
  const NSLOTS: nat := 141     // 12 direct pointers, the indirect one, 128 entries

  // nmeta blocks (boot, super, log, inodes, bitmap) precede the data blocks.
  datatype Superblock = Superblock(size: nat, nmeta: nat, ninodes: nat, inodestart: nat, bmapstart: nat)

  datatype Inode = Inode(addrs: seq<nat>, size: nat)

  // A place that holds a block number: slots 0..11 are the direct pointers, 12 the pointer
  // to the indirect block, 13..140 the entries of the indirect block.
  datatype Slot = Slot(inum: nat, k: nat)

  const INDIRECT: nat := 12

  function BBlock(sb: Superblock, b: nat): nat { b / BPB + sb.bmapstart }

  function IBlock(sb: Superblock, inum: nat): nat { inum / IPB + sb.inodestart }

  // The block number in a slot of an inode, 0 if there is none.
  function Ptr(disk: seq<Block>, ip: Inode, k: nat): nat {
    if |ip.addrs| != NDIRECT + 1 || k >= NSLOTS then 0
    else if k <= INDIRECT then ip.addrs[k]
    else Entry(disk, ip.addrs[INDIRECT], k - 13)
  }

  function Entry(disk: seq<Block>, ind: nat, j: nat): nat
    requires j < NINDIRECT
  {
    if ind == 0 || ind >= |disk| then 0 else WordAt(disk[ind], j)
  }

  // The slot of file block bn.
  function SlotOf(bn: nat): nat { if bn < NDIRECT then bn else bn + 1 }

  // ---- Ownership ----

  // `own` names the slot of every owned block. `loose` blocks are allocated but not yet in
  // a slot; `dead` slots still hold the number of a block that is no longer theirs.
  ghost predicate Owned(sb: Superblock, bitmap: seq<bool>, disk: seq<Block>, inodes: seq<Inode>,
                        own: map<nat, Slot>, loose: set<nat>, dead: set<Slot>)
  {
    && 1 <= sb.nmeta <= sb.size && |bitmap| == |disk| == sb.size
    && (forall i | 0 <= i < |inodes| :: |inodes[i].addrs| == NDIRECT + 1)
    && SlotsOwned(disk, inodes, own, dead)
    && OwnersHold(sb, disk, inodes, own, dead)
    && (forall b | b in loose :: sb.nmeta <= b < sb.size && b !in own)
    && (forall b | 0 <= b < sb.size :: bitmap[b] <==> b < sb.nmeta || b in own || b in loose)
  }

  // Every block in a slot is owned by that slot, and so by no other.
  ghost predicate SlotsOwned(disk: seq<Block>, inodes: seq<Inode>, own: map<nat, Slot>, dead: set<Slot>) {
    forall i: nat, k: nat | i < |inodes| && Ptr(disk, inodes[i], k) != 0 && Slot(i, k) !in dead ::
      Ptr(disk, inodes[i], k) in own && own[Ptr(disk, inodes[i], k)] == Slot(i, k)
  }

  ghost predicate OwnersHold(sb: Superblock, disk: seq<Block>, inodes: seq<Inode>, own: map<nat, Slot>,
                             dead: set<Slot>) {
    forall b | b in own ::
      && sb.nmeta <= b < sb.size
      && own[b].inum < |inodes| && own[b].k < NSLOTS && own[b] !in dead
      && Ptr(disk, inodes[own[b].inum], own[b].k) == b
  }

  // The invariant between operations.
  ghost predicate Ownership(sb: Superblock, bitmap: seq<bool>, disk: seq<Block>, inodes: seq<Inode>,
                            own: map<nat, Slot>) {
    Owned(sb, bitmap, disk, inodes, own, {}, {})
  }

  ghost predicate InSlot(disk: seq<Block>, inodes: seq<Inode>, b: nat) {
    exists i: nat, k: nat :: i < |inodes| && k < NSLOTS && Ptr(disk, inodes[i], k) == b
  }

  // No block is in two slots, no slot holds a metadata block, and the bitmap marks exactly
  // the metadata blocks and the blocks in slots.
  lemma OwnershipMeans(sb: Superblock, bitmap: seq<bool>, disk: seq<Block>, inodes: seq<Inode>, own: map<nat, Slot>)
    requires Ownership(sb, bitmap, disk, inodes, own)
    ensures forall i: nat, k: nat, j: nat, m: nat |
              && i < |inodes| && j < |inodes| && Ptr(disk, inodes[i], k) != 0
              && Ptr(disk, inodes[i], k) == Ptr(disk, inodes[j], m) :: i == j && k == m
    ensures forall b | 0 <= b < sb.size ::
              bitmap[b] <==> b < sb.nmeta || InSlot(disk, inodes, b)
  {
    forall b | 0 <= b < sb.size
      ensures bitmap[b] <==> b < sb.nmeta || InSlot(disk, inodes, b)
    {
      if b in own {
        assert Ptr(disk, inodes[own[b].inum], own[b].k) == b;
      }
    }
  }

  // A file system of empty files.
  lemma EmptyOwned(sb: Superblock, bitmap: seq<bool>, disk: seq<Block>, inodes: seq<Inode>)
    requires 1 <= sb.nmeta <= sb.size && |bitmap| == |disk| == sb.size
    requires forall b | 0 <= b < sb.size :: bitmap[b] <==> b < sb.nmeta
    requires forall i | 0 <= i < |inodes| :: |inodes[i].addrs| == NDIRECT + 1
    requires forall i, k | 0 <= i < |inodes| && 0 <= k < NDIRECT + 1 :: inodes[i].addrs[k] == 0
    ensures Ownership(sb, bitmap, disk, inodes, map[])
  {
  }

  // Writing a block that is no indirect block moves no pointer.
  lemma PtrsUnaffected(disk: seq<Block>, inodes: seq<Inode>, own: map<nat, Slot>, b: nat, data: Block)
    requires SlotsOwned(disk, inodes, own, {}) && b < |disk|
    requires b in own ==> own[b].k != INDIRECT
    requires forall i: nat | i < |inodes| :: |inodes[i].addrs| == NDIRECT + 1
    ensures forall i: nat, k: nat | i < |inodes| :: Ptr(disk[b := data], inodes[i], k) == Ptr(disk, inodes[i], k)
  {
    forall i: nat, k: nat | i < |inodes|
      ensures Ptr(disk[b := data], inodes[i], k) == Ptr(disk, inodes[i], k)
    {
      assert inodes[i].addrs[INDIRECT] == Ptr(disk, inodes[i], INDIRECT);
    }
  }

  // The same pointers have the same owners.
  lemma SamePtrsOwned(sb: Superblock, disk: seq<Block>, disk': seq<Block>, inodes: seq<Inode>, own: map<nat, Slot>)
    requires SlotsOwned(disk, inodes, own, {}) && OwnersHold(sb, disk, inodes, own, {})
    requires forall i: nat, k: nat | i < |inodes| :: Ptr(disk', inodes[i], k) == Ptr(disk, inodes[i], k)
    ensures SlotsOwned(disk', inodes, own, {}) && OwnersHold(sb, disk', inodes, own, {})
  {
  }

  // Storing file data keeps every owner.
  lemma DataWriteOwned(sb: Superblock, bitmap: seq<bool>, disk: seq<Block>, inodes: seq<Inode>,
                       own: map<nat, Slot>, loose: set<nat>, b: nat, data: Block)
    requires Owned(sb, bitmap, disk, inodes, own, loose, {}) && b < sb.size
    requires b in own ==> own[b].k != INDIRECT
    ensures Owned(sb, bitmap, disk[b := data], inodes, own, loose, {})
  {
    PtrsUnaffected(disk, inodes, own, b, data);
    SamePtrsOwned(sb, disk, disk[b := data], inodes, own);
  }

  // balloc(): a free block becomes a zeroed loose block.
  lemma AllocOwned(sb: Superblock, bitmap: seq<bool>, disk: seq<Block>, inodes: seq<Inode>,
                   own: map<nat, Slot>, loose: set<nat>, b: nat)
    requires Owned(sb, bitmap, disk, inodes, own, loose, {}) && b < sb.size && !bitmap[b]
    ensures sb.nmeta <= b && b !in own && b !in loose
    ensures Owned(sb, bitmap[b := true], disk[b := ZeroBlock], inodes, own, loose + {b}, {})
  {
    DataWriteOwned(sb, bitmap, disk, inodes, own, loose, b, ZeroBlock);
  }

  // bmap(): a loose block goes into an empty direct slot.
  lemma DirectOwned(sb: Superblock, bitmap: seq<bool>, disk: seq<Block>, inodes: seq<Inode>,
                    own: map<nat, Slot>, b: nat, i: nat, k: nat)
    requires Owned(sb, bitmap, disk, inodes, own, {b}, {}) && i < |inodes| && k < NDIRECT && inodes[i].addrs[k] == 0
    ensures
      var ip := inodes[i].(addrs := inodes[i].addrs[k := b]);
      && Ownership(sb, bitmap, disk, inodes[i := ip], own[b := Slot(i, k)])
      && forall m: nat | m != k :: Ptr(disk, ip, m) == Ptr(disk, inodes[i], m)
  {
    var ip := inodes[i].(addrs := inodes[i].addrs[k := b]);
    assert forall m: nat :: Ptr(disk, ip, m) == if m == k then b else Ptr(disk, inodes[i], m);
    OwnOneMore(sb, disk, disk, inodes, inodes[i := ip], own, b, Slot(i, k));
  }

  // bmap(): a zeroed loose block becomes the indirect block.
  lemma IndirectOwned(sb: Superblock, bitmap: seq<bool>, disk: seq<Block>, inodes: seq<Inode>,
                      own: map<nat, Slot>, b: nat, i: nat)
    requires Owned(sb, bitmap, disk, inodes, own, {b}, {}) && i < |inodes| && inodes[i].addrs[INDIRECT] == 0
    requires disk[b] == ZeroBlock
    ensures
      var ip := inodes[i].(addrs := inodes[i].addrs[INDIRECT := b]);
      && Ownership(sb, bitmap, disk, inodes[i := ip], own[b := Slot(i, INDIRECT)])
      && forall m: nat | m != INDIRECT :: Ptr(disk, ip, m) == Ptr(disk, inodes[i], m)
  {
    var ip := inodes[i].(addrs := inodes[i].addrs[INDIRECT := b]);
    ZeroBlockWords();
    assert forall m: nat :: Ptr(disk, ip, m) == if m == INDIRECT then b else Ptr(disk, inodes[i], m);
    OwnOneMore(sb, disk, disk, inodes, inodes[i := ip], own, b, Slot(i, INDIRECT));
  }

  // bmap(): a loose block goes into an empty entry of the indirect block.
  lemma EntryOwned(sb: Superblock, bitmap: seq<bool>, disk: seq<Block>, inodes: seq<Inode>,
                   own: map<nat, Slot>, b: nat, i: nat, j: nat)
    requires Owned(sb, bitmap, disk, inodes, own, {b}, {}) && i < |inodes| && j < NINDIRECT
    requires inodes[i].addrs[INDIRECT] != 0 && Ptr(disk, inodes[i], 13 + j) == 0 && b < 0x1_0000_0000
    ensures
      var ind := inodes[i].addrs[INDIRECT];
      && ind < |disk| && ind != b
      && var disk' := disk[ind := SetWord(disk[ind], j, b)];
      && Ownership(sb, bitmap, disk', inodes, own[b := Slot(i, 13 + j)])
      && forall n: nat, m: nat | n < |inodes| ::
           Ptr(disk', inodes[n], m) == if n == i && m == 13 + j then b else Ptr(disk, inodes[n], m)
  {
    var ind := inodes[i].addrs[INDIRECT];
    assert Ptr(disk, inodes[i], INDIRECT) == ind;
    var disk' := disk[ind := SetWord(disk[ind], j, b)];
    SetWordThenRead(disk[ind], j, b);
    forall n: nat, m: nat | n < |inodes|
      ensures Ptr(disk', inodes[n], m) == if n == i && m == 13 + j then b else Ptr(disk, inodes[n], m)
    {
      hide WordAt, SetWord;
      assert Ptr(disk, inodes[n], INDIRECT) == inodes[n].addrs[INDIRECT];
    }
    OwnOneMore(sb, disk, disk', inodes, inodes, own, b, Slot(i, 13 + j));
  }

  // One empty slot receives a block that nobody owns.
  lemma OwnOneMore(sb: Superblock, disk: seq<Block>, disk': seq<Block>, inodes: seq<Inode>, inodes': seq<Inode>,
                   own: map<nat, Slot>, b: nat, s: Slot)
    requires SlotsOwned(disk, inodes, own, {}) && OwnersHold(sb, disk, inodes, own, {})
    requires |inodes'| == |inodes| && s.inum < |inodes| && s.k < NSLOTS && b !in own && sb.nmeta <= b < sb.size
    requires Ptr(disk, inodes[s.inum], s.k) == 0
    requires forall i: nat, k: nat | i < |inodes| ::
               Ptr(disk', inodes'[i], k) == if i == s.inum && k == s.k then b else Ptr(disk, inodes[i], k)
    requires sb.nmeta > 0
    ensures SlotsOwned(disk', inodes', own[b := s], {}) && OwnersHold(sb, disk', inodes', own[b := s], {})
  {
  }

  // ---- Freeing ----

  // A block leaves its slot, which stays behind as a dead slot.
  lemma Disown(sb: Superblock, bitmap: seq<bool>, disk: seq<Block>, inodes: seq<Inode>,
               own: map<nat, Slot>, dead: set<Slot>, b: nat)
    requires Owned(sb, bitmap, disk, inodes, own, {}, dead) && b in own
    ensures Owned(sb, bitmap, disk, inodes, own - {b}, {b}, dead + {own[b]})
  {
  }

  // bfree(): the bit of a loose block is cleared.
  lemma FreeOwned(sb: Superblock, bitmap: seq<bool>, disk: seq<Block>, inodes: seq<Inode>,
                  own: map<nat, Slot>, dead: set<Slot>, b: nat)
    requires Owned(sb, bitmap, disk, inodes, own, {b}, dead)
    ensures bitmap[b]
    ensures Owned(sb, bitmap[b := false], disk, inodes, own, {}, dead)
  {
  }

  // An empty slot may be called dead.
  lemma EmptySlotDead(sb: Superblock, bitmap: seq<bool>, disk: seq<Block>, inodes: seq<Inode>,
                      own: map<nat, Slot>, dead: set<Slot>, s: Slot)
    requires Owned(sb, bitmap, disk, inodes, own, {}, dead)
    requires s.inum < |inodes| && Ptr(disk, inodes[s.inum], s.k) == 0
    ensures Owned(sb, bitmap, disk, inodes, own, {}, dead + {s})
  {
  }

  // itrunc(): zeroing a direct pointer whose block was freed.
  lemma ClearDirect(sb: Superblock, bitmap: seq<bool>, disk: seq<Block>, inodes: seq<Inode>,
                    own: map<nat, Slot>, i: nat, k: nat)
    requires Owned(sb, bitmap, disk, inodes, own, {}, {Slot(i, k)}) && i < |inodes| && k < NDIRECT
    ensures Ownership(sb, bitmap, disk, inodes[i := inodes[i].(addrs := inodes[i].addrs[k := 0])], own)
  {
    var ip := inodes[i].(addrs := inodes[i].addrs[k := 0]);
    assert forall m: nat :: Ptr(disk, ip, m) == if m == k then 0 else Ptr(disk, inodes[i], m);
    SlotsCleared(sb, disk, inodes, inodes[i := ip], own, {Slot(i, k)});
  }

  // The first j entry slots of inode i.
  ghost function Entries(i: nat, j: nat): (s: set<Slot>)
    ensures forall k: nat :: Slot(i, k) in s <==> 13 <= k < 13 + j
    ensures forall x | x in s :: x.inum == i
  {
    if j == 0 then {} else Entries(i, j - 1) + {Slot(i, 12 + j)}
  }

  // itrunc(): zeroing the indirect pointer once its block and all entries were freed.
  lemma ClearIndirect(sb: Superblock, bitmap: seq<bool>, disk: seq<Block>, inodes: seq<Inode>,
                      own: map<nat, Slot>, i: nat)
    requires Owned(sb, bitmap, disk, inodes, own, {}, Entries(i, NINDIRECT) + {Slot(i, INDIRECT)}) && i < |inodes|
    ensures Ownership(sb, bitmap, disk, inodes[i := inodes[i].(addrs := inodes[i].addrs[INDIRECT := 0])], own)
  {
    var dead := Entries(i, NINDIRECT) + {Slot(i, INDIRECT)};
    var ip := inodes[i].(addrs := inodes[i].addrs[INDIRECT := 0]);
    assert forall m: nat :: Ptr(disk, ip, m) == if m < INDIRECT then Ptr(disk, inodes[i], m) else 0;
    assert forall k: nat | INDIRECT <= k < NSLOTS :: Slot(i, k) in dead;
    SlotsCleared(sb, disk, inodes, inodes[i := ip], own, dead);
  }

  // Slots that were dead now hold nothing; no other slot changed.
  lemma SlotsCleared(sb: Superblock, disk: seq<Block>, inodes: seq<Inode>, inodes': seq<Inode>, own: map<nat, Slot>,
                     dead: set<Slot>)
    requires SlotsOwned(disk, inodes, own, dead) && OwnersHold(sb, disk, inodes, own, dead)
    requires |inodes'| == |inodes|
    requires forall i: nat, k: nat | i < |inodes| && Slot(i, k) in dead :: Ptr(disk, inodes'[i], k) == 0
    requires forall i: nat, k: nat | i < |inodes| && Slot(i, k) !in dead ::
               Ptr(disk, inodes'[i], k) == Ptr(disk, inodes[i], k)
    ensures SlotsOwned(disk, inodes', own, {}) && OwnersHold(sb, disk, inodes', own, {})
  {
  }

  // itrunc() frees the block of a direct slot and zeroes the slot.
  lemma FreeDirectStep(sb: Superblock, bitmap: seq<bool>, disk: seq<Block>, inodes: seq<Inode>, own: map<nat, Slot>,
                       i: nat, k: nat)
    requires Ownership(sb, bitmap, disk, inodes, own) && i < |inodes| && k < NDIRECT && inodes[i].addrs[k] != 0
    ensures
      var b := inodes[i].addrs[k];
      && b in own && own[b] == Slot(i, k) && b < |bitmap| && bitmap[b]
      && Ownership(sb, bitmap[b := false], disk, inodes[i := inodes[i].(addrs := inodes[i].addrs[k := 0])], own - {b})
  {
    var b := inodes[i].addrs[k];
    assert b == Ptr(disk, inodes[i], k);
    Disown(sb, bitmap, disk, inodes, own, {}, b);
    FreeOwned(sb, bitmap, disk, inodes, own - {b}, {} + {Slot(i, k)}, b);
    assert {} + {Slot(i, k)} == {Slot(i, k)};
    ClearDirect(sb, bitmap[b := false], disk, inodes, own - {b}, i, k);
  }

  // itrunc() frees the block of entry j, or passes over an empty one. The entry itself
  // stays in the indirect block.
  lemma FreeEntryStep(sb: Superblock, bitmap: seq<bool>, disk: seq<Block>, inodes: seq<Inode>, own: map<nat, Slot>,
                      i: nat, j: nat)
    requires Owned(sb, bitmap, disk, inodes, own, {}, Entries(i, j)) && i < |inodes| && j < NINDIRECT
    ensures
      var b := Ptr(disk, inodes[i], 13 + j);
      && (b == 0 ==> Owned(sb, bitmap, disk, inodes, own, {}, Entries(i, j + 1)))
      && (b != 0 ==>
            && b in own && own[b] == Slot(i, 13 + j) && b < |bitmap| && bitmap[b]
            && Owned(sb, bitmap[b := false], disk, inodes, own - {b}, {}, Entries(i, j + 1)))
  {
    hide Ptr;
    var b := Ptr(disk, inodes[i], 13 + j);
    assert Entries(i, j) + {Slot(i, 13 + j)} == Entries(i, j + 1);
    if b == 0 {
      EmptySlotDead(sb, bitmap, disk, inodes, own, Entries(i, j), Slot(i, 13 + j));
    } else {
      assert Slot(i, 13 + j) !in Entries(i, j);
      Disown(sb, bitmap, disk, inodes, own, Entries(i, j), b);
      FreeOwned(sb, bitmap, disk, inodes, own - {b}, Entries(i, j + 1), b);
    }
  }

  // itrunc() frees the indirect block and zeroes its pointer.
  lemma FreeIndirectStep(sb: Superblock, bitmap: seq<bool>, disk: seq<Block>, inodes: seq<Inode>, own: map<nat, Slot>,
                         i: nat)
    requires Owned(sb, bitmap, disk, inodes, own, {}, Entries(i, NINDIRECT)) && i < |inodes|
    requires inodes[i].addrs[INDIRECT] != 0
    ensures
      var b := inodes[i].addrs[INDIRECT];
      && b in own && own[b] == Slot(i, INDIRECT) && b < |bitmap| && bitmap[b]
      && Ownership(sb, bitmap[b := false], disk,
                   inodes[i := inodes[i].(addrs := inodes[i].addrs[INDIRECT := 0])], own - {b})
  {
    hide WordAt;
    var b := inodes[i].addrs[INDIRECT];
    assert b == Ptr(disk, inodes[i], INDIRECT);
    var dead := Entries(i, NINDIRECT) + {Slot(i, INDIRECT)};
    assert Slot(i, INDIRECT) !in Entries(i, NINDIRECT);
    Disown(sb, bitmap, disk, inodes, own, Entries(i, NINDIRECT), b);
    FreeOwned(sb, bitmap, disk, inodes, own - {b}, dead, b);
    ClearIndirect(sb, bitmap[b := false], disk, inodes, own - {b}, i);
  }

  // The slots itrunc() has dealt with: the first lo pointers and the first hi entries.
  predicate Gone(k: nat, lo: nat, hi: nat) {
    k < lo || 13 <= k < 13 + hi
  }

  // own is own0 less the blocks in those slots of inode i.
  ghost predicate OwnWithout(own0: map<nat, Slot>, own: map<nat, Slot>, i: nat, lo: nat, hi: nat) {
    && (forall b :: b in own <==> b in own0 && !(own0[b].inum == i && Gone(own0[b].k, lo, hi)))
    && forall b | b in own :: own[b] == own0[b]
  }

  // A slot owns no block but the one it holds.
  lemma OneOwner(sb: Superblock, bitmap: seq<bool>, disk: seq<Block>, inodes: seq<Inode>, own: map<nat, Slot>,
                 dead: set<Slot>, i: nat, k: nat)
    requires Owned(sb, bitmap, disk, inodes, own, {}, dead) && i < |inodes|
    ensures forall b | b in own && own[b] == Slot(i, k) :: b == Ptr(disk, inodes[i], k) && b != 0
  {
  }

  // ---- File contents ----

  function FileByte(disk: seq<Block>, ip: Inode, p: nat): Byte {
    var b := Ptr(disk, ip, SlotOf(p / BSIZE));
    if b == 0 || b >= |disk| then 0 else disk[b][p % BSIZE]
  }

  // The byte sequence an inode stands for.
  function Contents(disk: seq<Block>, ip: Inode): (s: seq<Byte>)
    ensures |s| == ip.size
  {
    seq(ip.size, p requires 0 <= p < ip.size => FileByte(disk, ip, p))
  }

  // Every file block that starts before byte `upto` is allocated.
  ghost predicate HoleFree(disk: seq<Block>, ip: Inode, upto: nat) {
    forall bn: nat | bn * BSIZE < upto :: Ptr(disk, ip, SlotOf(bn)) != 0
  }

  // The number of the block that holds block bn of a file: fs.h keeps the first twelve in the
  // inode and the others, in order, in the block that addrs[12] names.
  ghost predicate IsBlock(disk: seq<Block>, ip: Inode, bn: nat, b: nat) {
    && |ip.addrs| == 13 && bn < 140
    && (bn < 12 ==> b == ip.addrs[bn])
    && (bn >= 12 ==> 0 < ip.addrs[12] < |disk| && b == WordAt(disk[ip.addrs[12]], bn - 12))
  }

  // Byte p of the file is stored on disk as x.
  ghost predicate StoredAs(disk: seq<Block>, ip: Inode, p: nat, x: Byte) {
    exists b: nat :: IsBlock(disk, ip, p / 512, b) && 0 < b < |disk| && disk[b][p % 512] == x
  }

  lemma SlotIsBlock(disk: seq<Block>, ip: Inode, bn: nat)
    requires |ip.addrs| == NDIRECT + 1 && bn < MAXFILE && Ptr(disk, ip, SlotOf(bn)) != 0
    ensures IsBlock(disk, ip, bn, Ptr(disk, ip, SlotOf(bn)))
  {
    hide WordAt;
  }

  // The contents of a file without holes are what the disk holds at those places.
  lemma ContentsStored(sb: Superblock, bitmap: seq<bool>, disk: seq<Block>, inodes: seq<Inode>, own: map<nat, Slot>,
                       i: nat)
    requires Ownership(sb, bitmap, disk, inodes, own) && i < |inodes| && inodes[i].size <= MAXFILE * BSIZE
    requires HoleFree(disk, inodes[i], inodes[i].size)
    ensures
      var s := Contents(disk, inodes[i]);
      forall p | 0 <= p < |s| :: StoredAs(disk, inodes[i], p, s[p])
  {
    var ip, s := inodes[i], Contents(disk, inodes[i]);
    PtrBounds(sb, bitmap, disk, inodes, own, i);
    hide Owned, Ptr, SlotOf, IsBlock;
    forall p | 0 <= p < |s|
      ensures StoredAs(disk, ip, p, s[p])
    {
      var bn := p / 512;
      assert bn * BSIZE < ip.size;
      SlotIsBlock(disk, ip, bn);
    }
  }

  // Nothing an allocated slot stands for has changed.
  ghost predicate Extends(disk: seq<Block>, inodes: seq<Inode>, disk': seq<Block>, inodes': seq<Inode>) {
    && |inodes'| == |inodes|
    && (forall i | 0 <= i < |inodes| :: inodes'[i].size == inodes[i].size)
    && (forall i: nat, k: nat | i < |inodes| && Ptr(disk, inodes[i], k) != 0 ::
          Ptr(disk', inodes'[i], k) == Ptr(disk, inodes[i], k))
    && (forall i: nat, p: nat | i < |inodes| && Ptr(disk, inodes[i], SlotOf(p / BSIZE)) != 0 ::
          FileByte(disk', inodes'[i], p) == FileByte(disk, inodes[i], p))
  }

  lemma ExtendsTransitive(disk: seq<Block>, inodes: seq<Inode>, disk1: seq<Block>, inodes1: seq<Inode>,
                          disk2: seq<Block>, inodes2: seq<Inode>)
    requires Extends(disk, inodes, disk1, inodes1) && Extends(disk1, inodes1, disk2, inodes2)
    ensures Extends(disk, inodes, disk2, inodes2)
  {
  }

  // Pointers only gained and allocated data blocks unchanged.
  lemma ExtendsIf(disk: seq<Block>, inodes: seq<Inode>, own: map<nat, Slot>, disk': seq<Block>, inodes': seq<Inode>)
    requires SlotsOwned(disk, inodes, own, {}) && |inodes'| == |inodes| && |disk'| == |disk|
    requires forall i | 0 <= i < |inodes| :: inodes'[i].size == inodes[i].size
    requires forall i: nat, k: nat | i < |inodes| && Ptr(disk, inodes[i], k) != 0 ::
               Ptr(disk', inodes'[i], k) == Ptr(disk, inodes[i], k)
    requires forall b: nat | b in own && b < |disk| && own[b].k != INDIRECT :: disk'[b] == disk[b]
    ensures Extends(disk, inodes, disk', inodes')
  {
  }

  lemma AllocExtends(sb: Superblock, bitmap: seq<bool>, disk: seq<Block>, inodes: seq<Inode>, own: map<nat, Slot>,
                     b: nat)
    requires Ownership(sb, bitmap, disk, inodes, own) && b < sb.size && !bitmap[b]
    ensures Extends(disk, inodes, disk[b := ZeroBlock], inodes)
    ensures forall i: nat, k: nat | i < |inodes| :: Ptr(disk[b := ZeroBlock], inodes[i], k) == Ptr(disk, inodes[i], k)
  {
    PtrsUnaffected(disk, inodes, own, b, ZeroBlock);
    ExtendsIf(disk, inodes, own, disk[b := ZeroBlock], inodes);
  }

  lemma PtrBounds(sb: Superblock, bitmap: seq<bool>, disk: seq<Block>, inodes: seq<Inode>, own: map<nat, Slot>, i: nat)
    requires Ownership(sb, bitmap, disk, inodes, own) && i < |inodes|
    ensures |bitmap| == |disk| == sb.size && |inodes[i].addrs| == NDIRECT + 1
    ensures forall k: nat ::
              Ptr(disk, inodes[i], k) < |disk| && (Ptr(disk, inodes[i], k) != 0 ==> sb.nmeta <= Ptr(disk, inodes[i], k))
  {
  }

  // balloc() into an empty direct slot.
  lemma AllocDirectStep(sb: Superblock, bitmap: seq<bool>, disk: seq<Block>, inodes: seq<Inode>, own: map<nat, Slot>,
                        b: nat, i: nat, k: nat)
    requires Ownership(sb, bitmap, disk, inodes, own) && b < sb.size && !bitmap[b]
    requires i < |inodes| && k < NDIRECT && inodes[i].addrs[k] == 0
    ensures
      var ip := inodes[i].(addrs := inodes[i].addrs[k := b]);
      && 0 < sb.nmeta <= b
      && Ownership(sb, bitmap[b := true], disk[b := ZeroBlock], inodes[i := ip], own[b := Slot(i, k)])
      && Extends(disk, inodes, disk[b := ZeroBlock], inodes[i := ip])
  {
    var ip := inodes[i].(addrs := inodes[i].addrs[k := b]);
    AllocOwned(sb, bitmap, disk, inodes, own, {}, b);
    AllocExtends(sb, bitmap, disk, inodes, own, b);
    assert {} + {b} == {b};
    DirectOwned(sb, bitmap[b := true], disk[b := ZeroBlock], inodes, own, b, i, k);
    ExtendsIf(disk[b := ZeroBlock], inodes, own, disk[b := ZeroBlock], inodes[i := ip]);
    ExtendsTransitive(disk, inodes, disk[b := ZeroBlock], inodes, disk[b := ZeroBlock], inodes[i := ip]);
  }

  // balloc() of an indirect block.
  lemma AllocIndirectStep(sb: Superblock, bitmap: seq<bool>, disk: seq<Block>, inodes: seq<Inode>, own: map<nat, Slot>,
                          b: nat, i: nat)
    requires Ownership(sb, bitmap, disk, inodes, own) && b < sb.size && !bitmap[b]
    requires i < |inodes| && inodes[i].addrs[INDIRECT] == 0
    ensures
      var ip := inodes[i].(addrs := inodes[i].addrs[INDIRECT := b]);
      && 0 < sb.nmeta <= b
      && Ownership(sb, bitmap[b := true], disk[b := ZeroBlock], inodes[i := ip], own[b := Slot(i, INDIRECT)])
      && Extends(disk, inodes, disk[b := ZeroBlock], inodes[i := ip])
      && forall m: nat | m != INDIRECT :: Ptr(disk[b := ZeroBlock], ip, m) == Ptr(disk, inodes[i], m)
  {
    var ip := inodes[i].(addrs := inodes[i].addrs[INDIRECT := b]);
    AllocOwned(sb, bitmap, disk, inodes, own, {}, b);
    AllocExtends(sb, bitmap, disk, inodes, own, b);
    assert {} + {b} == {b};
    IndirectOwned(sb, bitmap[b := true], disk[b := ZeroBlock], inodes, own, b, i);
    ExtendsIf(disk[b := ZeroBlock], inodes, own, disk[b := ZeroBlock], inodes[i := ip]);
    ExtendsTransitive(disk, inodes, disk[b := ZeroBlock], inodes, disk[b := ZeroBlock], inodes[i := ip]);
  }

  // balloc() into an empty entry of an indirect block.
  lemma AllocEntryStep(sb: Superblock, bitmap: seq<bool>, disk: seq<Block>, inodes: seq<Inode>, own: map<nat, Slot>,
                       b: nat, i: nat, j: nat)
    requires Ownership(sb, bitmap, disk, inodes, own) && b < sb.size <= 0x1_0000_0000 && !bitmap[b]
    requires i < |inodes| && j < NINDIRECT && inodes[i].addrs[INDIRECT] != 0 && Ptr(disk, inodes[i], 13 + j) == 0
    ensures
      var ind := inodes[i].addrs[INDIRECT];
      && sb.nmeta <= ind < |disk| && ind != b && 0 < sb.nmeta <= b
      && var disk' := disk[b := ZeroBlock][ind := SetWord(disk[ind], j, b)];
      && Ownership(sb, bitmap[b := true], disk', inodes, own[b := Slot(i, 13 + j)])
      && Extends(disk, inodes, disk', inodes)
      && Ptr(disk', inodes[i], 13 + j) == b
  {
    hide WordAt, SetWord;
    var ind := inodes[i].addrs[INDIRECT];
    var disk1 := disk[b := ZeroBlock];
    assert Ptr(disk, inodes[i], INDIRECT) == ind;
    AllocOwned(sb, bitmap, disk, inodes, own, {}, b);
    AllocExtends(sb, bitmap, disk, inodes, own, b);
    assert {} + {b} == {b};
    EntryOwned(sb, bitmap[b := true], disk1, inodes, own, b, i, j);
    var disk' := disk1[ind := SetWord(disk1[ind], j, b)];
    EntryExtends(disk1, inodes, own, disk', ind, i, j);
    ExtendsTransitive(disk, inodes, disk1, inodes, disk', inodes);
  }

  lemma EntryExtends(disk: seq<Block>, inodes: seq<Inode>, own: map<nat, Slot>, disk': seq<Block>, ind: nat, i: nat,
                     j: nat)
    requires SlotsOwned(disk, inodes, own, {}) && |disk'| == |disk| && i < |inodes| && Ptr(disk, inodes[i], 13 + j) == 0
    requires forall n: nat, m: nat | n < |inodes| && (n != i || m != 13 + j) ::
               Ptr(disk', inodes[n], m) == Ptr(disk, inodes[n], m)
    requires ind in own && own[ind].k == INDIRECT && forall b: nat | b < |disk| && b != ind :: disk'[b] == disk[b]
    ensures Extends(disk, inodes, disk', inodes)
  {
  }

  // Writing a data block changes the bytes of that file block and of nothing else.
  lemma DataWriteBytes(sb: Superblock, bitmap: seq<bool>, disk: seq<Block>, inodes: seq<Inode>, own: map<nat, Slot>,
                       i: nat, bn: nat, data: Block)
    requires Ownership(sb, bitmap, disk, inodes, own) && i < |inodes| && bn < MAXFILE
    requires Ptr(disk, inodes[i], SlotOf(bn)) != 0
    ensures
      var b := Ptr(disk, inodes[i], SlotOf(bn));
      && b in own && b < |disk| && own[b].k != INDIRECT
      && Ownership(sb, bitmap, disk[b := data], inodes, own)
      && (forall j: nat, k: nat | j < |inodes| :: Ptr(disk[b := data], inodes[j], k) == Ptr(disk, inodes[j], k))
      && (forall p: nat | p / BSIZE == bn :: FileByte(disk[b := data], inodes[i], p) == data[p % BSIZE])
      && forall j: nat, p: nat | j < |inodes| && (j != i || p / BSIZE != bn) ::
           FileByte(disk[b := data], inodes[j], p) == FileByte(disk, inodes[j], p)
  {
    var b := Ptr(disk, inodes[i], SlotOf(bn));
    assert own[b] == Slot(i, SlotOf(bn));
    DataWriteOwned(sb, bitmap, disk, inodes, own, {}, b, data);
    PtrsUnaffected(disk, inodes, own, b, data);
    forall j: nat, p: nat | j < |inodes| && (j != i || p / BSIZE != bn)
      ensures FileByte(disk[b := data], inodes[j], p) == FileByte(disk, inodes[j], p)
    {
      var c := Ptr(disk, inodes[j], SlotOf(p / BSIZE));
      assert c != 0 ==> c in own && own[c] == Slot(j, SlotOf(p / BSIZE));
    }
  }

  // ---- Writing a range of bytes ----

  // memmove() of `piece` into a block at offset c.
  function SpliceBlock(b: Block, c: nat, piece: seq<Byte>): Block
    requires c + |piece| <= BSIZE
  {
    b[..c] + piece + b[c + |piece|..]
  }

  function Splice(s: seq<Byte>, off: nat, src: seq<Byte>): seq<Byte>
    requires off <= |s|
  {
    s[..off] + src + (if off + |src| < |s| then s[off + |src|..] else [])
  }

  // Splicing gives each byte of the range its new value and keeps every other.
  lemma SpliceBytes(s: seq<Byte>, off: nat, src: seq<Byte>)
    requires off <= |s|
    ensures
      var t := Splice(s, off, src);
      && |t| == (if off + |src| < |s| then |s| else off + |src|)
      && (forall q | 0 <= q < |src| :: t[off + q] == src[q])
      && (forall p | 0 <= p < |s| && !(off <= p < off + |src|) :: t[p] == s[p])
  {
  }

  lemma SpliceTwice(s: seq<Byte>, off: nat, src: seq<Byte>, i: nat, n: nat)
    requires off <= |s| && i + n <= |src|
    ensures |Splice(s, off, src[..i])| >= off + i
    ensures Splice(Splice(s, off, src[..i]), off + i, src[i..i + n]) == Splice(s, off, src[..i + n])
    ensures i == 0 ==> Splice(s, off, src[..i]) == s
  {
  }

  // Slots of the start state keep their blocks, and inodes other than i are untouched.
  ghost predicate PtrsKept(disk0: seq<Block>, inodes0: seq<Inode>, disk: seq<Block>, inodes: seq<Inode>, i: nat) {
    && |inodes| == |inodes0| && i < |inodes| && inodes[i].size == inodes0[i].size
    && (forall j | 0 <= j < |inodes| && j != i :: inodes[j] == inodes0[j])
    && (forall j: nat, k: nat | j < |inodes| && Ptr(disk0, inodes0[j], k) != 0 ::
         Ptr(disk, inodes[j], k) == Ptr(disk0, inodes0[j], k))
  }

  // Bytes off .. off + tot of file i hold src; all other allocated bytes are as at the start.
  ghost predicate BytesWritten(disk0: seq<Block>, inodes0: seq<Inode>, disk: seq<Block>, inodes: seq<Inode>, i: nat,
                               off: nat, src: seq<Byte>, tot: nat)
    requires |inodes| == |inodes0| && i < |inodes| && tot <= |src|
  {
    && (forall p: nat | off <= p < off + tot :: FileByte(disk, inodes[i], p) == src[p - off])
    && (forall j: nat, p: nat |
          && j < |inodes| && Ptr(disk0, inodes0[j], SlotOf(p / BSIZE)) != 0
          && (j != i || !(off <= p < off + tot)) ::
          FileByte(disk, inodes[j], p) == FileByte(disk0, inodes0[j], p))
  }

  ghost predicate WrittenTo(disk0: seq<Block>, inodes0: seq<Inode>, disk: seq<Block>, inodes: seq<Inode>, i: nat,
                            off: nat, src: seq<Byte>, tot: nat) {
    && tot <= |src|
    && PtrsKept(disk0, inodes0, disk, inodes, i)
    && BytesWritten(disk0, inodes0, disk, inodes, i, off, src, tot)
    && HoleFree(disk, inodes[i], off + tot)
  }

  // Allocation by bmap() disturbs nothing written so far.
  lemma WrittenExtends(disk0: seq<Block>, inodes0: seq<Inode>, disk: seq<Block>, inodes: seq<Inode>, disk': seq<Block>,
                       inodes': seq<Inode>,
                       i: nat, off: nat, src: seq<Byte>, tot: nat)
    requires WrittenTo(disk0, inodes0, disk, inodes, i, off, src, tot) && Extends(disk, inodes, disk', inodes')
    requires forall j | 0 <= j < |inodes| && j != i :: inodes'[j] == inodes[j]
    ensures WrittenTo(disk0, inodes0, disk', inodes', i, off, src, tot)
  {
  }

  // One round of writei(): the next m bytes, all in file block bn, go to its block.
  lemma WrittenRound(sb: Superblock, bitmap: seq<bool>, own: map<nat, Slot>,
                     disk0: seq<Block>, inodes0: seq<Inode>, disk: seq<Block>, inodes: seq<Inode>,
                     i: nat, off: nat, src: seq<Byte>, tot: nat, m: nat)
    requires Ownership(sb, bitmap, disk, inodes, own)
    requires WrittenTo(disk0, inodes0, disk, inodes, i, off, src, tot)
    requires tot + m <= |src| && (off + tot) % BSIZE + m <= BSIZE && m > 0
    requires (off + tot) / BSIZE < MAXFILE && Ptr(disk, inodes[i], SlotOf((off + tot) / BSIZE)) != 0
    ensures
      var b := Ptr(disk, inodes[i], SlotOf((off + tot) / BSIZE));
      && b < |disk|
      && var disk' := disk[b := SpliceBlock(disk[b], (off + tot) % BSIZE, src[tot..tot + m])];
      && Ownership(sb, bitmap, disk', inodes, own)
      && WrittenTo(disk0, inodes0, disk', inodes, i, off, src, tot + m)
  {
    hide Owned, Ptr, SlotOf, FileByte, BytesWritten, HoleFree;
    var o := off + tot;
    var bn, c := o / BSIZE, o % BSIZE;
    var b := Ptr(disk, inodes[i], SlotOf(bn));
    var piece := src[tot..tot + m];
    PtrBounds(sb, bitmap, disk, inodes, own, i);
    var data := SpliceBlock(disk[b], c, piece);
    DataWriteBytes(sb, bitmap, disk, inodes, own, i, bn, data);
    var disk' := disk[b := data];
    assert PtrsKept(disk0, inodes0, disk', inodes, i);
    RoundBytes(disk0, inodes0, disk, disk', inodes, i, off, src, tot, m, data);
    RoundHoleFree(disk, disk', inodes[i], o, m);
  }

  lemma RoundHoleFree(disk: seq<Block>, disk': seq<Block>, ip: Inode, o: nat, m: nat)
    requires HoleFree(disk, ip, o) && Ptr(disk, ip, SlotOf(o / BSIZE)) != 0 && o % BSIZE + m <= BSIZE
    requires forall k: nat :: Ptr(disk', ip, k) == Ptr(disk, ip, k)
    ensures HoleFree(disk', ip, o + m)
  {
  }

  lemma RoundBytes(disk0: seq<Block>, inodes0: seq<Inode>, disk: seq<Block>, disk': seq<Block>, inodes: seq<Inode>,
                   i: nat, off: nat, src: seq<Byte>, tot: nat, m: nat, data: Block)
    requires tot + m <= |src| && (off + tot) % BSIZE + m <= BSIZE
    requires PtrsKept(disk0, inodes0, disk, inodes, i) && BytesWritten(disk0, inodes0, disk, inodes, i, off, src, tot)
    requires
      var o := off + tot;
      && var b := Ptr(disk, inodes[i], SlotOf(o / BSIZE));
      && 0 < b < |disk|
      && data == SpliceBlock(disk[b], o % BSIZE, src[tot..tot + m])
      && (forall p: nat | p / BSIZE == o / BSIZE :: FileByte(disk', inodes[i], p) == data[p % BSIZE])
      && forall j: nat, p: nat | j < |inodes| && (j != i || p / BSIZE != o / BSIZE) ::
           FileByte(disk', inodes[j], p) == FileByte(disk, inodes[j], p)
    ensures BytesWritten(disk0, inodes0, disk', inodes, i, off, src, tot + m)
  {
    hide Ptr, SlotOf;
    var o := off + tot;
    var b := Ptr(disk, inodes[i], SlotOf(o / BSIZE));
    var c := o % BSIZE;
    forall p: nat | p / BSIZE == o / BSIZE
      ensures FileByte(disk', inodes[i], p) == if o <= p < o + m then src[p - off] else FileByte(disk, inodes[i], p)
    {
      var q := p % BSIZE;
      assert data[q] == if c <= q < c + m then src[tot + q - c] else disk[b][q];
      assert p - o == q - c;
    }
    hide FileByte;
  }

  // From bytes to the whole sequence: what writei() does to the contents of its file.
  lemma WrittenContents(disk0: seq<Block>, inodes0: seq<Inode>, disk: seq<Block>, inodes: seq<Inode>, i: nat, off: nat,
                        src: seq<Byte>)
    requires WrittenTo(disk0, inodes0, disk, inodes, i, off, src, |src|)
    requires off <= inodes0[i].size && HoleFree(disk0, inodes0[i], inodes0[i].size)
    ensures
      var size := if off + |src| > inodes0[i].size then off + |src| else inodes0[i].size;
      Contents(disk, inodes[i].(size := size)) == Splice(Contents(disk0, inodes0[i]), off, src)
  {
    var ip := inodes0[i];
    var size := if off + |src| > ip.size then off + |src| else ip.size;
    var now := Contents(disk, inodes[i].(size := size));
    var then_ := Splice(Contents(disk0, ip), off, src);
    assert |now| == |then_| == size;
    forall p: nat | p < size
      ensures now[p] == then_[p]
    {
      SizeIrrelevant(disk, inodes[i], size, p);
      if !(off <= p < off + |src|) {
        assert (p / BSIZE) * BSIZE < ip.size;
      }
    }
  }

  lemma SizeIrrelevant(disk: seq<Block>, ip: Inode, size: nat, p: nat)
    ensures FileByte(disk, ip.(size := size), p) == FileByte(disk, ip, p)
  {
  }

  // Files that writei() was not asked to write keep their contents.
  lemma OthersKeepContents(disk0: seq<Block>, inodes0: seq<Inode>, disk: seq<Block>, inodes: seq<Inode>, i: nat,
                           off: nat, src: seq<Byte>, j: nat)
    requires WrittenTo(disk0, inodes0, disk, inodes, i, off, src, |src|) && j < |inodes| && j != i
    requires HoleFree(disk0, inodes0[j], inodes0[j].size)
    ensures Contents(disk, inodes[j]) == Contents(disk0, inodes0[j])
    ensures HoleFree(disk, inodes[j], inodes[j].size)
  {
    hide Ptr, FileByte, SlotOf;
    forall p: nat | p < inodes0[j].size
      ensures FileByte(disk, inodes[j], p) == FileByte(disk0, inodes0[j], p)
    {
      assert (p / BSIZE) * BSIZE < inodes0[j].size;
      assert Ptr(disk0, inodes0[j], SlotOf(p / BSIZE)) != 0;
    }
  }
}
