// Block allocation, block maps and inode contents of fs.c, and the chunked write of
// file.c. `calls` lists the calls of log_write() in the current transaction, and `logged` the
// blocks given to them.
module Fs {
  import opened Common
  import opened Blocks
  import opened FsSpec
  import opened FsLog

  class FileSystem {
    const sb: Superblock
    var bitmap: seq<bool>
    var disk: seq<Block>
    var inodes: seq<Inode>    // the in-memory inodes
    var dinodes: seq<Inode>   // their copies in the inode blocks

    ghost var own: map<nat, Slot>
    ghost var logged: set<nat>
    ghost var calls: seq<nat>

    // A file system as found on disk. EmptyOwned is the case of no files.
    constructor (sb: Superblock, bitmap: seq<bool>, disk: seq<Block>, dinodes: seq<Inode>, ghost own: map<nat, Slot>)
      requires sb.size <= 0x1_0000_0000 && |dinodes| == sb.ninodes && Ownership(sb, bitmap, disk, dinodes, own)
      requires forall i | 0 <= i < |dinodes| ::
                 dinodes[i].size <= MAXFILE * BSIZE && HoleFree(disk, dinodes[i], dinodes[i].size)
      ensures Valid() && this.sb == sb && Snap() == Snapshot(bitmap, disk, dinodes) && logged == {}
    {
      this.sb := sb;
      this.bitmap := bitmap;
      this.disk := disk;
      inodes := dinodes;
      this.dinodes := dinodes;
      this.own := own;
      logged := {};
      calls := [];
    }

    ghost predicate Shape()
      reads this
    {
      && sb.size <= 0x1_0000_0000 && |inodes| == sb.ninodes && Ownership(sb, bitmap, disk, inodes, own)
      && Tracks(calls, logged)
    }

    ghost function St(): Store
      reads this
    {
      Store(bitmap, disk, logged)
    }

    // Between operations: blocks are owned by one slot each, files have no holes and the
    // inode blocks hold what the in-memory inodes say.
    ghost predicate Valid()
      reads this
    {
      && Shape() && dinodes == inodes
      && forall i | 0 <= i < |inodes| :: inodes[i].size <= MAXFILE * BSIZE && HoleFree(disk, inodes[i], inodes[i].size)
    }

    lemma ValidIsIntact()
      requires Valid()
      ensures Intact(sb, Snap())
    {
    }

    // What a crash between operations must preserve.
    ghost function Snap(): Snapshot
      reads this
    {
      Snapshot(bitmap, disk, dinodes)
    }

    // No block is free.
    ghost predicate Full()
      reads this
    {
      forall c | 0 <= c < |bitmap| :: bitmap[c]
    }

    // log_write()
    ghost method LogWrite(b: nat)
      requires Tracks(calls, logged)
      modifies this`logged, this`calls
      ensures logged == old(logged) + {b} && calls == old(calls) + [b] && Tracks(calls, logged)
    {
      TracksMore(calls, logged, b);
      logged, calls := logged + {b}, calls + [b];
    }

    // balloc(): the first free block, zeroed. None is the panic "balloc: out of blocks".
    method Balloc() returns (r: Option<nat>)
      requires |bitmap| == |disk| == sb.size && Tracks(calls, logged)
      modifies this`bitmap, this`disk, this`logged, this`calls
      ensures Tracks(calls, logged)
      ensures r.None? ==> bitmap == old(bitmap) && disk == old(disk) && logged == old(logged)
      ensures r.None? ==> Full()
      ensures r.Some? ==> r.value < sb.size && !old(bitmap)[r.value] && forall c | 0 <= c < r.value :: old(bitmap)[c]
      ensures r.Some? ==> bitmap == old(bitmap)[r.value := true] && disk == old(disk)[r.value := ZeroBlock]
      ensures r.Some? ==> logged == old(logged) + {BBlock(sb, r.value), r.value}
    {
      hide Tracks;
      var b := 0;
      while b < sb.size
        invariant 0 <= b && b % BPB == 0
        invariant forall c | 0 <= c < b && c < sb.size :: bitmap[c]
        invariant bitmap == old(bitmap) && disk == old(disk) && logged == old(logged) && calls == old(calls)
        decreases sb.size - b
      {
        var bi := 0;
        while bi < BPB && b + bi < sb.size
          invariant 0 <= bi <= BPB
          invariant forall c | 0 <= c < b + bi && c < sb.size :: bitmap[c]
          invariant bitmap == old(bitmap) && disk == old(disk) && logged == old(logged) && calls == old(calls)
        {
          if !bitmap[b + bi] {
            bitmap := bitmap[b + bi := true];
            LogWrite(BBlock(sb, b));
            disk := disk[b + bi := ZeroBlock];
            LogWrite(b + bi);
            assert BBlock(sb, b + bi) == BBlock(sb, b);
            return Some(b + bi);
          }
          bi := bi + 1;
        }
        b := b + BPB;
      }
      return None;
    }

    // bfree(); false is the panic "freeing free block".
    method Bfree(b: nat) returns (ok: bool)
      requires b < |bitmap| && Tracks(calls, logged)
      modifies this`bitmap, this`logged, this`calls
      ensures Tracks(calls, logged)
      ensures ok == old(bitmap)[b]
      ensures !ok ==> bitmap == old(bitmap) && logged == old(logged)
      ensures ok ==> bitmap == old(bitmap)[b := false] && logged == old(logged) + {BBlock(sb, b)}
    {
      if !bitmap[b] {
        return false;
      }
      bitmap := bitmap[b := false];
      LogWrite(BBlock(sb, b));
      return true;
    }

    // balloc() into slot k < NDIRECT of inode i.
    method AllocDirect(i: nat, k: nat) returns (r: Option<nat>)
      requires Shape() && i < |inodes| && k < NDIRECT && inodes[i].addrs[k] == 0
      modifies this`bitmap, this`disk, this`inodes, this`own, this`logged, this`calls
      ensures r.Some? ==> Shape() && Extends(old(disk), old(inodes), disk, inodes)
      ensures r.None? ==> Full()
      ensures r.Some? ==> Covered(sb, old(St()), St())
      ensures r.Some? ==> Ptr(disk, inodes[i], k) == r.value != 0
      ensures r.Some? ==> forall j | 0 <= j < |inodes| && j != i :: inodes[j] == old(inodes)[j]
      ensures r.Some? ==> inodes[i].addrs[INDIRECT] == old(inodes)[i].addrs[INDIRECT]
      ensures r.Some? ==> logged == old(logged) + {BBlock(sb, r.value), r.value}
    {
      hide Tracks, Owned, Extends, Covered, BBlock;
      PtrBounds(sb, bitmap, disk, inodes, own, i);
      r := Balloc();
      if r.Some? {
        var b := r.value;
        AllocDirectStep(sb, old(bitmap), old(disk), inodes, own, b, i, k);
        CoveredAlloc(sb, old(St()), b);
        var ip := inodes[i].(addrs := inodes[i].addrs[k := b]);
        inodes := inodes[i := ip];
        own := own[b := Slot(i, k)];
      }
    }

    // balloc() of the indirect block of inode i.
    method AllocIndirect(i: nat) returns (r: Option<nat>)
      requires Shape() && i < |inodes| && inodes[i].addrs[INDIRECT] == 0
      modifies this`bitmap, this`disk, this`inodes, this`own, this`logged, this`calls
      ensures r.Some? ==> Shape() && Extends(old(disk), old(inodes), disk, inodes)
      ensures r.None? ==> Full()
      ensures r.Some? ==> Covered(sb, old(St()), St())
      ensures r.Some? ==> inodes[i].addrs[INDIRECT] == r.value != 0
      ensures r.Some? ==> forall m: nat | m != INDIRECT :: Ptr(disk, inodes[i], m) == Ptr(old(disk), old(inodes)[i], m)
      ensures r.Some? ==> forall j | 0 <= j < |inodes| && j != i :: inodes[j] == old(inodes)[j]
      ensures r.Some? ==> logged == old(logged) + {BBlock(sb, r.value), r.value}
    {
      hide Tracks, Owned, Extends, Covered, BBlock;
      PtrBounds(sb, bitmap, disk, inodes, own, i);
      r := Balloc();
      if r.Some? {
        var b := r.value;
        AllocIndirectStep(sb, old(bitmap), old(disk), inodes, own, b, i);
        CoveredAlloc(sb, old(St()), b);
        var ip := inodes[i].(addrs := inodes[i].addrs[INDIRECT := b]);
        inodes := inodes[i := ip];
        own := own[b := Slot(i, INDIRECT)];
      }
    }

    // balloc() into entry j of the indirect block of inode i.
    method AllocEntry(i: nat, j: nat) returns (r: Option<nat>)
      requires Shape() && i < |inodes| && j < NINDIRECT
      requires inodes[i].addrs[INDIRECT] != 0 && Ptr(disk, inodes[i], 13 + j) == 0
      modifies this`bitmap, this`disk, this`own, this`logged, this`calls
      ensures r.Some? ==> Shape() && Extends(old(disk), inodes, disk, inodes)
      ensures r.None? ==> Full()
      ensures r.Some? ==> Covered(sb, old(St()), St())
      ensures r.Some? ==> Ptr(disk, inodes[i], 13 + j) == r.value != 0
      ensures r.Some? ==> logged == old(logged) + {BBlock(sb, r.value), r.value, inodes[i].addrs[INDIRECT]}
    {
      hide Tracks, WordAt, SetWord, Owned, Extends, Covered, BBlock;
      PtrBounds(sb, bitmap, disk, inodes, own, i);
      r := Balloc();
      if r.Some? {
        var b := r.value;
        AllocEntryStep(sb, old(bitmap), old(disk), inodes, own, b, i, j);
        var ind := inodes[i].addrs[INDIRECT];
        CoveredAlloc(sb, old(St()), b);
        CoveredWrite(sb, old(St()), St(), ind, SetWord(disk[ind], j, b));
        disk := disk[ind := SetWord(disk[ind], j, b)];
        own := own[b := Slot(i, 13 + j)];
        LogWrite(ind);
      }
    }

    // bmap(): the block that holds file block bn, allocated if need be. None is a panic in
    // balloc(). `bits` are the bitmap blocks it logs, at most one for each allocation.
    method Bmap(i: nat, bn: nat) returns (r: Option<nat>, ghost bits: set<nat>)
      requires Shape() && i < |inodes| && bn < MAXFILE
      modifies this`bitmap, this`disk, this`inodes, this`own, this`logged, this`calls
      ensures r.Some? ==> Shape() && Extends(old(disk), old(inodes), disk, inodes)
      ensures r.None? ==> Full()
      ensures r.Some? ==> Covered(sb, old(St()), St())
      ensures r.Some? ==> Ptr(disk, inodes[i], SlotOf(bn)) == r.value != 0
      ensures r.Some? && bn < 12 ==> |inodes[i].addrs| == 13 && r.value == inodes[i].addrs[bn]
      ensures r.Some? && bn >= 12 ==>
                |inodes[i].addrs| == 13 && 0 < inodes[i].addrs[12] < |disk| &&
                r.value == WordAt(disk[inodes[i].addrs[12]], bn - 12)
      ensures r.Some? ==> forall j | 0 <= j < |inodes| && j != i :: inodes[j] == old(inodes)[j]
      ensures r.Some? ==> bn < NDIRECT ==> inodes[i].addrs[INDIRECT] == old(inodes)[i].addrs[INDIRECT]
      ensures r.Some? ==> bn >= NDIRECT ==> inodes[i].addrs[INDIRECT] != 0
      ensures Ptr(old(disk), old(inodes)[i], SlotOf(bn)) != 0 ==>
                r.Some? && bitmap == old(bitmap) && disk == old(disk) && inodes == old(inodes) && own == old(own) &&
                logged == old(logged) && calls == old(calls)
      ensures r.Some? ==>
                logged <= old(logged) + bits + {r.value} + (if bn < NDIRECT then {} else {inodes[i].addrs[INDIRECT]})
      ensures r.Some? ==> |bits| <= Count(Ptr(old(disk), old(inodes)[i], SlotOf(bn)) == 0)
                                    + Count(bn >= NDIRECT && old(inodes)[i].addrs[INDIRECT] == 0)
    {
      hide Tracks, WordAt, Owned, Covered, BBlock;
      PtrBounds(sb, bitmap, disk, inodes, own, i);
      CoveredSelf(sb, St());
      bits := {};
      if bn < NDIRECT {
        if inodes[i].addrs[bn] != 0 {
          return Some(inodes[i].addrs[bn]), bits;
        }
        r := AllocDirect(i, bn);
        if r.Some? {
          bits := {BBlock(sb, r.value)};
        }
        return;
      }
      ghost var disk0, inodes0 := disk, inodes;
      if inodes[i].addrs[INDIRECT] == 0 {
        r := AllocIndirect(i);
        if r.None? {
          return;
        }
        bits := {BBlock(sb, r.value)};
      }
      ghost var disk1, inodes1 := disk, inodes;
      ghost var st1 := St();
      PtrBounds(sb, bitmap, disk, inodes, own, i);
      var ind := inodes[i].addrs[INDIRECT];
      assert Ptr(disk, inodes[i], INDIRECT) == ind;
      var addr := WordAt(disk[ind], bn - NDIRECT);
      assert addr == Ptr(disk, inodes[i], SlotOf(bn));
      if addr != 0 {
        return Some(addr), bits;
      }
      r := AllocEntry(i, bn - NDIRECT);
      if r.Some? {
        if inodes0[i].addrs[INDIRECT] == 0 {
          ExtendsTransitive(disk0, inodes0, disk1, inodes1, disk, inodes);
          CoveredTransitive(sb, old(St()), st1, St());
        }
        bits := bits + {BBlock(sb, r.value)};
      }
    }

    // One round of readi(): m bytes at offset o, all within one file block.
    method ReadRound(i: nat, o: nat, m: nat) returns (piece: seq<Byte>)
      requires Valid() && i < |inodes| && m > 0 && o % BSIZE + m <= BSIZE && o + m <= inodes[i].size
      modifies this`bitmap, this`disk, this`inodes, this`own, this`logged, this`calls
      ensures bitmap == old(bitmap) && disk == old(disk) && inodes == old(inodes) && own == old(own)
      ensures logged == old(logged) && calls == old(calls)
      ensures piece == Contents(disk, inodes[i])[o..o + m]
    {
      hide Tracks, Owned, Extends, Ptr, Contents, FileByte, SlotOf;
      assert (o / BSIZE) * BSIZE < inodes[i].size;
      assert Ptr(disk, inodes[i], SlotOf(o / BSIZE)) != 0;
      var b, _ := Bmap(i, o / BSIZE);
      PtrBounds(sb, bitmap, disk, inodes, own, i);
      ReadPiece(disk, inodes[i], o, m);
      piece := disk[b.value][o % BSIZE..o % BSIZE + m];
    }

    // readi() on a file: -1 for a bad range, else the bytes of the range that exist.
    method Readi(i: nat, off: nat, n: nat) returns (r: int, dst: seq<Byte>)
      requires Valid() && i < |inodes| && off < 0x1_0000_0000 && n < 0x1_0000_0000
      modifies this`bitmap, this`disk, this`inodes, this`own, this`logged, this`calls
      ensures bitmap == old(bitmap) && disk == old(disk) && inodes == old(inodes) && own == old(own)
      ensures logged == old(logged) && calls == old(calls)
      ensures r == -1 <==> off > inodes[i].size || off + n >= 0x1_0000_0000
      ensures r == -1 ==> dst == []
      ensures r != -1 ==> r == if off + n > inodes[i].size then inodes[i].size - off else n
      ensures r != -1 ==> dst == Contents(disk, inodes[i])[off..off + r]
      ensures r != -1 ==> |dst| == r && forall q | 0 <= q < r :: StoredAs(disk, inodes[i], off + q, dst[q])
    {
      hide Tracks, Owned, Extends, Ptr, Contents, FileByte, SlotOf, StoredAs;
      if off > inodes[i].size || off + n >= 0x1_0000_0000 {
        return -1, [];
      }
      var want := if off + n > inodes[i].size then inodes[i].size - off else n;
      ghost var s := Contents(disk, inodes[i]);
      dst := [];
      var tot := 0;
      while tot < want
        invariant 0 <= tot <= want && dst == s[off..off + tot]
        invariant bitmap == old(bitmap) && disk == old(disk) && inodes == old(inodes) && own == old(own)
        invariant logged == old(logged) && calls == old(calls)
        decreases want - tot
      {
        var o := off + tot;
        var m := if want - tot < BSIZE - o % BSIZE then want - tot else BSIZE - o % BSIZE;
        var piece := ReadRound(i, o, m);
        dst := dst + piece;
        tot := tot + m;
      }
      r := want;
      ContentsStored(sb, bitmap, disk, inodes, own, i);
    }

    // iupdate(): the in-memory inode goes to its inode block.
    method Iupdate(i: nat)
      requires i < |inodes| == |dinodes| && Tracks(calls, logged)
      modifies this`dinodes, this`logged, this`calls
      ensures dinodes == old(dinodes)[i := inodes[i]] && logged == old(logged) + {IBlock(sb, i)}
      ensures calls == old(calls) + [IBlock(sb, i)] && Tracks(calls, logged)
    {
      dinodes := dinodes[i := inodes[i]];
      LogWrite(IBlock(sb, i));
    }

    // One round of writei(): m bytes of src, from byte tot on, all within one file block.
    method WriteRound(i: nat, off: nat, src: seq<Byte>, tot: nat, m: nat, ghost disk0: seq<Block>,
                      ghost inodes0: seq<Inode>)
      returns (ok: bool, ghost b: nat, ghost bits: set<nat>)
      requires Shape() && i < |inodes| && WrittenTo(disk0, inodes0, disk, inodes, i, off, src, tot)
      requires 0 < m && tot + m <= |src| && (off + tot) % BSIZE + m <= BSIZE && (off + tot) / BSIZE < MAXFILE
      modifies this`bitmap, this`disk, this`inodes, this`own, this`logged, this`calls
      ensures ok ==> Shape() && |inodes| == |old(inodes)| && |inodes[i].addrs| == NDIRECT + 1
      ensures !ok ==> Full()
      ensures ok ==> Covered(sb, old(St()), St())
      ensures ok ==> WrittenTo(disk0, inodes0, disk, inodes, i, off, src, tot + m)
      ensures ok ==>
                logged <= old(logged) + bits + {b}
                          + (if (off + tot) / BSIZE < NDIRECT then {} else {inodes[i].addrs[INDIRECT]})
      ensures ok ==> (off + tot) / BSIZE < NDIRECT ==> inodes[i].addrs[INDIRECT] == old(inodes)[i].addrs[INDIRECT]
      ensures ok ==> (off + tot) / BSIZE >= NDIRECT ==> inodes[i].addrs[INDIRECT] != 0
      ensures ok ==> old(inodes)[i].addrs[INDIRECT] != 0 ==> inodes[i].addrs[INDIRECT] == old(inodes)[i].addrs[INDIRECT]
      ensures ok ==> Ptr(old(disk), old(inodes)[i], SlotOf((off + tot) / BSIZE)) != 0 ==> inodes == old(inodes)
      ensures ok ==> |bits| <= Count(Ptr(old(disk), old(inodes)[i], SlotOf((off + tot) / BSIZE)) == 0)
                               + Count((off + tot) / BSIZE >= NDIRECT && old(inodes)[i].addrs[INDIRECT] == 0)
    {
      hide Tracks, Owned, WrittenTo, SlotOf, Covered, FileSystem.Full, Ptr;
      var bn := (off + tot) / BSIZE;
      var r;
      r, bits := Bmap(i, bn);
      if r.None? {
        return false, 0, bits;
      }
      PtrBounds(sb, old(bitmap), old(disk), old(inodes), old(own), i);
      PtrOfDirect(old(disk), old(inodes)[i], INDIRECT);
      PtrBounds(sb, bitmap, disk, inodes, own, i);
      PtrOfDirect(disk, inodes[i], INDIRECT);
      WrittenExtends(disk0, inodes0, old(disk), old(inodes), disk, inodes, i, off, src, tot);
      WrittenRound(sb, bitmap, own, disk0, inodes0, disk, inodes, i, off, src, tot, m);
      b := r.value;
      var blk := r.value;
      CoveredWrite(sb, old(St()), St(), blk, SpliceBlock(disk[blk], (off + tot) % BSIZE, src[tot..tot + m]));
      disk := disk[blk := SpliceBlock(disk[blk], (off + tot) % BSIZE, src[tot..tot + m])];
      LogWrite(blk);
      return true, b, bits;
    }

    // writei() on a file, for the bytes src at offset off. The result is -1 for a bad
    // range, |src| otherwise; None is a panic in balloc().
    method Writei(i: nat, off: nat, src: seq<Byte>) returns (r: Option<int>)
      requires Valid() && i < |inodes| && off < 0x1_0000_0000 && |src| < 0x1_0000_0000 && logged == {}
      modifies this`bitmap, this`disk, this`inodes, this`dinodes, this`own, this`logged, this`calls
      ensures r == Some(-1) <==> BadRange(old(inodes)[i].size, off, |src|)
      ensures r == Some(-1) <==>
              off > old(inodes)[i].size || off + |src| >= 0x1_0000_0000 || off + |src| > 140 * 512
      ensures r.None? ==> Full()
      ensures r == Some(-1) ==>
                bitmap == old(bitmap) && disk == old(disk) && inodes == old(inodes) && dinodes == old(dinodes) &&
                own == old(own) && logged == {} && calls == old(calls)
      ensures r.Some? && r != Some(-1) ==> r == Some(|src|) && |inodes| == |old(inodes)|
      ensures r.Some? ==> Valid()
      ensures r == Some(|src|) ==> inodes[i].size == Max(old(inodes)[i].size, off + |src|)
      ensures r == Some(|src|) ==>
                inodes[i].size == if off + |src| > old(inodes)[i].size then off + |src| else old(inodes)[i].size
      ensures r == Some(|src|) ==> forall q | 0 <= q < |src| :: StoredAs(disk, inodes[i], off + q, src[q])
      ensures r == Some(|src|) ==> Contents(disk, inodes[i]) == Splice(Contents(old(disk), old(inodes)[i]), off, src)
      ensures r == Some(|src|) ==> forall j | 0 <= j < |inodes| && j != i ::
                inodes[j] == old(inodes)[j] && Contents(disk, inodes[j]) == Contents(old(disk), old(inodes)[j])
      ensures r == Some(|src|) ==> |logged| <= TxnBound(off, |src|)
      ensures r.Some? ==> Logs(sb, old(Snap()), Snap(), logged)
      ensures r.Some? && 0 < |src| && TxnBound(off, |src|) <= MAXOPBLOCKS ==> RoomCalls(calls)
    {
      hide Tracks, Owned, Ptr, Contents, FileByte, SlotOf, WrittenTo, HoleFree, Splice, TxnBound, Covered, IBlock;
      hide Logs, RoomCalls, StoredAs;
      CoveredSelf(sb, St());
      LogsOne(sb, Snap(), Snap(), i, logged);
      FewCalls(calls, logged, 0);
      if off > inodes[i].size || off + |src| >= 0x1_0000_0000 {
        return Some(-1);
      }
      if off + |src| > MAXFILE * BSIZE {
        return Some(-1);
      }
      var ok := WriteBytes(i, off, src);
      if !ok {
        return None;
      }
      WriteDone(sb, bitmap, own, old(disk), old(inodes), disk, inodes, i, off, src);
      if |src| > 0 && TxnBound(off, |src|) <= MAXOPBLOCKS {
        FewCalls(calls, logged, IBlock(sb, i));
      }
      if |src| > 0 && off + |src| > inodes[i].size {
        inodes := inodes[i := inodes[i].(size := off + |src|)];
        CoveredInode(sb, old(St()), St(), i);
        Iupdate(i);
      }
      LogsOne(sb, old(Snap()), Snap(), i, logged);
      SrcStored(sb, bitmap, disk, inodes, own, i, Contents(old(disk), old(inodes)[i]), off, src);
      return Some(|src|);
    }

    // One round with its share of the blocks that a transaction may log.
    method WriteNext(i: nat, off: nat, src: seq<Byte>, tot: nat, m: nat, ghost disk0: seq<Block>,
                     ghost inodes0: seq<Inode>,
                     ghost st: Store, ghost tally: Tally)
      returns (ok: bool, ghost tally': Tally)
      requires Shape() && i < |inodes| && WrittenTo(disk0, inodes0, disk, inodes, i, off, src, tot)
      requires |inodes[i].addrs| == NDIRECT + 1 && i < |inodes0| && |inodes0[i].addrs| == NDIRECT + 1
      requires 0 < m && tot + m <= |src| && (off + tot) % BSIZE + m <= BSIZE && (off + tot) / BSIZE < MAXFILE
      requires (tot == 0 || (off + tot) % BSIZE == 0) && HoleFree(disk0, inodes0[i], inodes0[i].size)
      requires Covered(sb, st, St())
      requires Budget(logged, tally, inodes0[i].addrs[INDIRECT], inodes[i].addrs[INDIRECT], off, tot)
      modifies this`bitmap, this`disk, this`inodes, this`own, this`logged, this`calls
      ensures !ok ==> Full()
      ensures ok ==> Shape() && |inodes| == |old(inodes)| && |inodes[i].addrs| == NDIRECT + 1
      ensures ok ==> WrittenTo(disk0, inodes0, disk, inodes, i, off, src, tot + m)
      ensures ok ==> off + tot < inodes0[i].size ==> inodes == old(inodes)
      ensures ok ==> Covered(sb, st, St())
      ensures ok ==> Budget(logged, tally', inodes0[i].addrs[INDIRECT], inodes[i].addrs[INDIRECT], off, tot + m)
    {
      hide Tracks, Owned, Ptr, FileByte, SlotOf, WrittenTo, HoleFree, Covered, FileSystem.Full;
      hide Budget, RoundsDone, Count;
      ghost var isNew := Ptr(disk, inodes[i], SlotOf((off + tot) / BSIZE)) == 0;
      ghost var ind1, logged1, st1 := inodes[i].addrs[INDIRECT], logged, St();
      NotFresh(disk0, inodes0, disk, inodes, i, off, src, tot);
      InFile(disk0, inodes0, disk, inodes, i, off, src, tot);
      ghost var b, bs;
      ok, b, bs := WriteRound(i, off, src, tot, m, disk0, inodes0);
      tally' := tally;
      if ok {
        CoveredTransitive(sb, st, st1, St());
        tally' := BudgetRound(logged1, logged, tally, inodes0[i].addrs[INDIRECT], ind1, inodes[i].addrs[INDIRECT], off,
                              tot, m, b, bs, isNew);
      }
    }

    // The loop of writei().
    method WriteBytes(i: nat, off: nat, src: seq<Byte>) returns (ok: bool)
      requires Valid() && i < |inodes| && off <= inodes[i].size && off + |src| <= MAXFILE * BSIZE && logged == {}
      modifies this`bitmap, this`disk, this`inodes, this`own, this`logged, this`calls
      ensures ok ==>
                Shape() && |inodes| == |old(inodes)| &&
                WrittenTo(old(disk), old(inodes), disk, inodes, i, off, src, |src|)
      ensures !ok ==> Full()
      ensures ok ==> Covered(sb, old(St()), St())
      ensures ok ==> off + |src| <= old(inodes)[i].size ==> inodes == old(inodes)
      ensures ok ==> |logged| + Count(|src| > 0) <= TxnBound(off, |src|)
    {
      hide Tracks, Owned, Ptr, FileByte, SlotOf, WrittenTo, HoleFree, Covered, FileSystem.Full;
      hide Budget, RoundsDone, TxnBound, Count;
      ghost var disk0, inodes0, st := disk, inodes, St();
      ghost var tally := Tally({}, {}, {}, 0);
      CoveredSelf(sb, st);
      PtrBounds(sb, bitmap, disk, inodes, own, i);
      WrittenNothing(disk, inodes, i, off, src);
      StartBudget(inodes[i].addrs[INDIRECT], off);
      var tot := 0;
      while tot < |src|
        invariant 0 <= tot <= |src| && (tot == 0 || tot == |src| || (off + tot) % BSIZE == 0)
        invariant Shape() && |inodes| == |inodes0| && WrittenTo(disk0, inodes0, disk, inodes, i, off, src, tot)
        invariant |inodes[i].addrs| == NDIRECT + 1
        invariant off + |src| <= inodes0[i].size ==> inodes == inodes0
        invariant Covered(sb, st, St())
        invariant Budget(logged, tally, inodes0[i].addrs[INDIRECT], inodes[i].addrs[INDIRECT], off, tot)
        decreases |src| - tot
      {
        var m := if |src| - tot < BSIZE - (off + tot) % BSIZE then |src| - tot else BSIZE - (off + tot) % BSIZE;
        ok, tally := WriteNext(i, off, src, tot, m, disk0, inodes0, st, tally);
        if !ok {
          return;
        }
        tot := tot + m;
      }
      BudgetTotal(logged, tally, inodes0[i].addrs[INDIRECT], inodes[i].addrs[INDIRECT], off, |src|);
      return true;
    }

    // itrunc() on direct slot k. Since the start of the loop, `own0` and `logged0` were the owners
    // and the logged blocks.
    method FreeSlot(i: nat, k: nat, ghost own0: map<nat, Slot>, ghost logged0: set<nat>, ghost st: Store)
      returns (ok: bool)
      requires Shape() && i < |inodes| && k < NDIRECT && OwnWithout(own0, own, i, k, 0)
      requires Covered(sb, st, St()) && logged == logged0 + BitsGone(sb, own0, i, k, 0)
      modifies this`bitmap, this`inodes, this`own, this`logged, this`calls
      ensures ok && Shape() && OwnWithout(own0, own, i, k + 1, 0)
      ensures Covered(sb, st, St()) && logged == logged0 + BitsGone(sb, own0, i, k + 1, 0)
      ensures inodes == old(inodes)[i := old(inodes)[i].(addrs := old(inodes)[i].addrs[k := 0])]
    {
      hide Tracks, Owned, Ptr, Covered, BitsGone, BBlock, OwnWithout;
      PtrBounds(sb, bitmap, disk, inodes, own, i);
      PtrOfDirect(disk, inodes[i], k);
      var b := inodes[i].addrs[k];
      if b == 0 {
        FreedMore(sb, bitmap, disk, inodes, own0, own, {}, i, k, 0, k + 1, 0, k);
        assert inodes[i].addrs[k := 0] == inodes[i].addrs;
        return true;
      }
      FreeDirectStep(sb, bitmap, disk, inodes, own, i, k);
      FreedMore(sb, bitmap, disk, inodes, own0, own, {}, i, k, 0, k + 1, 0, k);
      CoveredFree(sb, st, St(), b);
      ok := Bfree(b);
      inodes := inodes[i := inodes[i].(addrs := inodes[i].addrs[k := 0])];
      own := own - {b};
    }

    // The loop of itrunc() over the direct blocks.
    method FreeDirect(i: nat) returns (ok: bool)
      requires Shape() && i < |inodes|
      modifies this`bitmap, this`inodes, this`own, this`logged, this`calls
      ensures ok && Shape() && OwnWithout(old(own), own, i, NDIRECT, 0)
      ensures Covered(sb, old(St()), St()) && logged == old(logged) + BitsGone(sb, old(own), i, NDIRECT, 0)
      ensures |inodes| == |old(inodes)| && forall j | 0 <= j < |inodes| && j != i :: inodes[j] == old(inodes)[j]
      ensures |inodes[i].addrs| == NDIRECT + 1 && forall k | 0 <= k < NDIRECT :: inodes[i].addrs[k] == 0
      ensures inodes[i].addrs[INDIRECT] == old(inodes)[i].addrs[INDIRECT] && inodes[i].size == old(inodes)[i].size
    {
      hide Tracks, Owned, Ptr, Covered, BitsGone, BBlock, OwnWithout;
      ok := true;
      PtrBounds(sb, bitmap, disk, inodes, own, i);
      CoveredSelf(sb, St());
      NoneFreed(sb, own, i);
      for k := 0 to NDIRECT
        invariant ok && Shape() && OwnWithout(old(own), own, i, k, 0)
        invariant Covered(sb, old(St()), St()) && logged == old(logged) + BitsGone(sb, old(own), i, k, 0)
        invariant |inodes| == |old(inodes)| && forall j | 0 <= j < |inodes| && j != i :: inodes[j] == old(inodes)[j]
        invariant |inodes[i].addrs| == NDIRECT + 1 && inodes[i].addrs[INDIRECT] == old(inodes)[i].addrs[INDIRECT]
        invariant inodes[i].size == old(inodes)[i].size && forall m | 0 <= m < k :: inodes[i].addrs[m] == 0
      {
        ok := FreeSlot(i, k, old(own), old(logged), old(St()));
      }
    }

    // itrunc() on entry j of the indirect block, which keeps its number.
    method FreeEntry(i: nat, j: nat, ghost own0: map<nat, Slot>, ghost logged0: set<nat>, ghost st: Store)
      returns (ok: bool)
      requires i < |inodes| && j < NINDIRECT && |inodes[i].addrs| == NDIRECT + 1
      requires 0 < inodes[i].addrs[INDIRECT] < |disk| && |bitmap| == |disk| == sb.size && Tracks(calls, logged)
      requires Owned(sb, bitmap, disk, inodes, own, {}, Entries(i, j)) && OwnWithout(own0, own, i, 0, j)
      requires Covered(sb, st, St()) && logged == logged0 + BitsGone(sb, own0, i, 0, j)
      modifies this`bitmap, this`own, this`logged, this`calls
      ensures ok && |bitmap| == sb.size && Tracks(calls, logged)
      ensures Owned(sb, bitmap, disk, inodes, own, {}, Entries(i, j + 1)) && OwnWithout(own0, own, i, 0, j + 1)
      ensures Covered(sb, st, St()) && logged == logged0 + BitsGone(sb, own0, i, 0, j + 1)
    {
      hide Tracks, Owned, Ptr, Covered, BitsGone, BBlock, OwnWithout;
      FreeEntryStep(sb, bitmap, disk, inodes, own, i, j);
      PtrOfEntry(disk, inodes[i], j);
      FreedMore(sb, bitmap, disk, inodes, own0, own, Entries(i, j), i, 0, j, 0, j + 1, 13 + j);
      var b := WordAt(disk[inodes[i].addrs[INDIRECT]], j);
      if b == 0 {
        return true;
      }
      CoveredFree(sb, st, St(), b);
      ok := Bfree(b);
      own := own - {b as nat};
    }

    // The loop over the entries of the indirect block.
    method FreeEntries(i: nat) returns (ok: bool)
      requires Shape() && i < |inodes| && inodes[i].addrs[INDIRECT] != 0
      modifies this`bitmap, this`own, this`logged, this`calls
      ensures ok && Owned(sb, bitmap, disk, inodes, own, {}, Entries(i, NINDIRECT))
      ensures |bitmap| == |disk| == sb.size && OwnWithout(old(own), own, i, 0, NINDIRECT) && Tracks(calls, logged)
      ensures Covered(sb, old(St()), St()) && logged == old(logged) + BitsGone(sb, old(own), i, 0, NINDIRECT)
    {
      hide Tracks, Owned, Ptr, Covered, BitsGone, BBlock, OwnWithout;
      ok := true;
      PtrBounds(sb, bitmap, disk, inodes, own, i);
      CoveredSelf(sb, St());
      NoneFreed(sb, own, i);
      PtrOfDirect(disk, inodes[i], INDIRECT);
      assert Entries(i, 0) == {};
      for j := 0 to NINDIRECT
        invariant ok && |bitmap| == |disk| == sb.size && Tracks(calls, logged)
        invariant Owned(sb, bitmap, disk, inodes, own, {}, Entries(i, j)) && OwnWithout(old(own), own, i, 0, j)
        invariant Covered(sb, old(St()), St()) && logged == old(logged) + BitsGone(sb, old(own), i, 0, j)
      {
        ok := FreeEntry(i, j, old(own), old(logged), old(St()));
      }
    }

    // The part of itrunc() for the indirect block and its entries.
    method FreeIndirect(i: nat) returns (ok: bool)
      requires Shape() && i < |inodes| && inodes[i].addrs[INDIRECT] != 0
      modifies this`bitmap, this`inodes, this`own, this`logged, this`calls
      ensures Covered(sb, old(St()), St()) && logged == old(logged) + BitsIndirect(sb, old(own), i)
      ensures ok && Shape() && inodes == old(inodes)[i := old(inodes)[i].(addrs := old(inodes)[i].addrs[INDIRECT := 0])]
      ensures OwnDirect(old(own), own, i)
    {
      hide Tracks, Owned, Ptr, Covered, BitsGone, BitsIndirect, BBlock;
      PtrBounds(sb, bitmap, disk, inodes, own, i);
      var ind := inodes[i].addrs[INDIRECT];
      PtrOfDirect(disk, inodes[i], INDIRECT);
      ok := FreeEntries(i);
      FreeIndirectStep(sb, bitmap, disk, inodes, own, i);
      OneOwner(sb, bitmap, disk, inodes, own, Entries(i, NINDIRECT), i, INDIRECT);
      OwnersInRange(sb, old(bitmap), disk, inodes, old(own));
      BitsOfIndirect(sb, old(own), i, ind);
      CoveredFree(sb, old(St()), St(), ind);
      var last := Bfree(ind);
      ok := ok && last;
      inodes := inodes[i := inodes[i].(addrs := inodes[i].addrs[INDIRECT := 0])];
      own := own - {ind};
    }

    // The part of itrunc() that frees blocks.
    method FreeBlocks(i: nat) returns (ok: bool)
      requires Shape() && i < |inodes|
      modifies this`bitmap, this`inodes, this`own, this`logged, this`calls
      ensures ok && Shape() && inodes == old(inodes)[i := old(inodes)[i].(addrs := seq(NDIRECT + 1, _ => 0))]
      ensures Covered(sb, old(St()), St()) && logged == old(logged) + BitsOf(sb, old(own), i)
      ensures forall b :: b in own <==> b in old(own) && old(own)[b].inum != i
    {
      hide Tracks, Owned, Ptr, Covered, BitsGone, BitsOf, BitsIndirect, OwnWithout, OwnDirect;
      ghost var own0 := own;
      ok := FreeDirect(i);
      ghost var st1, own1 := St(), own;
      BitsSplit(sb, own0, own, i);
      if inodes[i].addrs[INDIRECT] != 0 {
        var ok2 := FreeIndirect(i);
        ok := ok && ok2;
        CoveredTransitive(sb, old(St()), st1, St());
      } else {
        NoEntries(sb, bitmap, disk, inodes, own, i);
        NoBitsIndirect(sb, own, i);
        NoneIndirect(own, i);
      }
      BitsAreIndirect(sb, own0, own1, i);
      AllDisowned(own0, own1, own, i);
      assert inodes[i].addrs == seq(NDIRECT + 1, _ => 0);
      assert inodes == old(inodes)[i := inodes[i]];
    }

    // itrunc(): no bfree() in it panics, exactly the blocks of inode i become free, and no
    // other inode is touched.
    method Itrunc(i: nat) returns (ok: bool)
      requires Valid() && i < |inodes|
      modifies this`bitmap, this`inodes, this`dinodes, this`own, this`logged, this`calls
      ensures ok && Valid() && |inodes| == |old(inodes)|
      ensures inodes == old(inodes)[i := Inode(seq(NDIRECT + 1, _ => 0), 0)]
      ensures forall b | 0 <= b < sb.size ::
                bitmap[b] <==> old(bitmap)[b] && !(b in old(own) && old(own)[b].inum == i)
      ensures logged == old(logged) + BitsOf(sb, old(own), i) + {IBlock(sb, i)}
      ensures Covered(sb, old(St()), St()) && |dinodes| == |old(dinodes)|
      ensures forall j | 0 <= j < |dinodes| && dinodes[j] != old(dinodes)[j] :: IBlock(sb, j) in logged
      ensures calls != [] && calls[|calls| - 1] == IBlock(sb, i)
      ensures Tracks(calls[..|calls| - 1], old(logged) + BitsOf(sb, old(own), i))
    {
      hide Tracks, Owned, Ptr, HoleFree, Covered, BitsOf, IBlock;
      ok := FreeBlocks(i);
      SizeKeepsOwnership(sb, bitmap, disk, inodes, own, i, 0);
      inodes := inodes[i := inodes[i].(size := 0)];
      CoveredInode(sb, old(St()), St(), i);
      Iupdate(i);
      EmptyHoleFree(disk, inodes[i]);
      TruncBitmap(sb, old(bitmap), bitmap, disk, old(inodes), inodes, old(own), own, i);
    }

    // A transaction that truncates file i.
    method Truncate(i: nat) returns (ok: bool, ghost txn: set<nat>)
      requires Valid() && i < |inodes|
      modifies this`bitmap, this`inodes, this`dinodes, this`own, this`logged, this`calls
      ensures ok && Valid() && txn == BitsOf(sb, old(own), i) + {IBlock(sb, i)}
      ensures Logs(sb, old(Snap()), Snap(), txn) && Performs(old(Snap()), Snap(), Trunc(i))
      ensures Tracks(calls, txn) && (DataBits(sb) < MAXOPBLOCKS ==> |txn| <= MAXOPBLOCKS && RoomCalls(calls))
    {
      hide Tracks, Owned, HoleFree, BitsOf, IBlock, DataBits, RoomCalls, FileByte, BBlock;
      logged, calls := {}, [];
      TracksNone();
      ok := Itrunc(i);
      txn := logged;
      assert {} + BitsOf(sb, old(own), i) == BitsOf(sb, old(own), i);
      if DataBits(sb) < MAXOPBLOCKS {
        TruncFits(sb, old(bitmap), disk, old(inodes), old(own), i);
        BitsFew(sb, old(bitmap), disk, old(inodes), old(own), i);
        FewCalls(calls[..|calls| - 1], BitsOf(sb, old(own), i), IBlock(sb, i));
        assert calls == calls[..|calls| - 1] + [IBlock(sb, i)];
      }
    }

    // One transaction of filewrite(): begin_op(), writei() at the file offset, end_op(). None is
    // a panic. The transaction logs at most MAXOPBLOCKS blocks and whatever it changes.
    method WriteChunk(f: File, chunk: seq<Byte>) returns (w: Option<int>, ghost txn: set<nat>)
      requires Valid() && f.inum < |inodes| && f.off < 0x1_0000_0000 && 0 < |chunk| <= 1536
      modifies this`bitmap, this`disk, this`inodes, this`dinodes, this`own, this`logged, this`calls, f`off
      ensures w.None? ==> Full() && f.off == old(f.off)
      ensures w.Some? ==> Valid() && |inodes| == |old(inodes)| && |txn| <= MAXOPBLOCKS
      ensures w.Some? ==> Logs(sb, old(Snap()), Snap(), txn) && Tracks(calls, txn) && RoomCalls(calls)
      ensures w == Some(-1) <==> BadRange(old(inodes)[f.inum].size, old(f.off), |chunk|)
      ensures w == Some(-1) ==> Snap() == old(Snap()) && f.off == old(f.off)
      ensures w.Some? && w != Some(-1) ==> w == Some(|chunk|) && f.off == old(f.off) + |chunk|
      ensures w == Some(|chunk|) ==> Spliced(old(Snap()), Snap(), f.inum, old(f.off), chunk)
      ensures w == Some(|chunk|) ==> inodes[f.inum].size == Max(old(inodes)[f.inum].size, old(f.off) + |chunk|)
    {
      hide Tracks, Owned, Ptr, Contents, HoleFree, Splice, TxnBound, Logs, FileSystem.Full;
      logged, calls := {}, [];
      TracksNone();
      ChunkFits(f.off, |chunk|);
      w := Writei(f.inum, f.off, chunk);
      txn := logged;
      if w.Some? {
        if w.value > 0 {
          f.off := f.off + w.value;
        }
      }
    }

    // filewrite() on an inode, one transaction per chunk. None is a panic. `txns` lists the
    // blocks that each transaction logged, and `states` what the file system is between them:
    // the file has then taken a whole number of chunks. A file that cannot take all of addr
    // takes as many chunks as fit.
    method FileWrite(f: File, addr: seq<Byte>) returns (r: Option<int>, ghost txns: seq<set<nat>>,
                     ghost states: seq<Snapshot>)
      requires Valid() && f.inum < |inodes| && f.off < 0x1_0000_0000 && |addr| < 0x8000_0000
      modifies this`bitmap, this`disk, this`inodes, this`dinodes, this`own, this`logged, this`calls, f`off
      ensures
        var taken := Taken(f.writable, old(inodes)[f.inum].size, old(f.off), |addr|);
        && ChunkHistory(sb, states, txns, f.inum, old(f.off), addr, taken) && states[0] == old(Snap())
        && (r.None? ==> Full())
        && (r.Some? ==> Valid() && states[|txns|] == Snap() && f.off == old(f.off) + taken)
        && (r.Some? ==> HoldsPrefix(old(Snap()), Snap(), f.inum, old(f.off), addr, taken))
        && (r.Some? ==>
              r.value == if Fits(f.writable, old(inodes)[f.inum].size, old(f.off), |addr|) then |addr| else -1)
    {
      hide Tracks, Owned, Ptr, Contents, HoleFree, Splice, Logs, Intact, HoldsPrefix, Spliced, ChunkHistory;
      hide FileSystem.Full, RoomCalls, Taken, Fits, Progress, Sizes, BadRange, Max;
      txns, states := [], [Snap()];
      ghost var i0, off0, size0, s0 := f.inum, f.off, inodes[f.inum].size, Snap();
      ghost var taken := Taken(f.writable, size0, off0, |addr|);
      StartHistory(sb, bitmap, disk, inodes, own, i0, off0, addr, taken);
      NothingTaken(size0, off0, |addr|);
      if !f.writable {
        return Some(-1), txns, states;
      }
      var max := (MAXOPBLOCKS - 1 - 1 - 2) / 2 * 512;
      var i := 0;
      while i < |addr|
        invariant 0 <= i <= |addr| && f.off == off0 + i && Valid() && i0 < |inodes| && f.off < 0x1_0000_0000
        invariant Sizes(size0, inodes[i0].size, off0, i)
        invariant i == Progress(|txns|, |addr|) <= taken
        invariant i == |addr| ==> taken == |addr| && Fits(true, size0, off0, |addr|)
        invariant |states| == |txns| + 1 && ChunkHistory(sb, states, txns, i0, off0, addr, taken)
        invariant states[0] == s0 && states[|txns|] == Snap() && HoldsPrefix(s0, Snap(), i0, off0, addr, i)
        decreases |addr| - i
      {
        var n1 := if |addr| - i > max then max else |addr| - i;
        ghost var s, size := Snap(), inodes[i0].size;
        var w;
        ghost var txn;
        NextChunk(size0, size, off0, |addr|, i, n1, |txns|);
        w, txn := WriteChunk(f, addr[i..i + n1]);
        if w.None? {
          return None, txns, states;
        }
        if w.value < 0 {
          MoreHistory(sb, states, txns, i0, off0, addr, taken, Snap(), txn, bitmap, disk, inodes, own);
          txns, states := txns + [txn], states + [Snap()];
          break;
        }
        PrefixGrows(s0, s, Snap(), i0, off0, addr, i, n1);
        MoreHistory(sb, states, txns, i0, off0, addr, taken, Snap(), txn, bitmap, disk, inodes, own);
        txns, states := txns + [txn], states + [Snap()];
        i := i + n1;
      }
      return Some(if i == |addr| then |addr| else -1), txns, states;
    }
  }

  // An open inode file.
  class File {
    const inum: nat
    const writable: bool
    var off: nat

    constructor (inum: nat, writable: bool)
      ensures this.inum == inum && this.writable == writable && off == 0
    {
      this.inum := inum;
      this.writable := writable;
      off := 0;
    }
  }

  // When filewrite() takes all n bytes.
  predicate Fits(writable: bool, size: nat, off: nat, n: nat) {
    writable && (n == 0 || (off <= size && off + n <= MAXFILE * BSIZE))
  }

  // How many of the n bytes filewrite() takes: all of them, or the whole chunks that fit.
  function Taken(writable: bool, size: nat, off: nat, n: nat): nat {
    if Fits(writable, size, off, n) then n
    else if !writable || off > size || off > MAXFILE * BSIZE then 0
    else (MAXFILE * BSIZE - off) / 1536 * 1536
  }

  // Taken is all of n if it fits, else nothing or the most whole chunks that leave the file at
  // its largest or below.
  lemma TakenIs(writable: bool, size: nat, off: nat, n: nat)
    requires size <= 71680
    ensures
      var t := Taken(writable, size, off, n);
      if !writable then t == 0 && !Fits(writable, size, off, n)
      else if n == 0 || (off <= size && off + n <= 71680) then t == n && Fits(writable, size, off, n)
      else
        && !Fits(writable, size, off, n) && t % 1536 == 0
        && if off > size then t == 0 else off + t <= 71680 < off + t + 1536
  {
  }

  lemma NothingTaken(size: nat, off: nat, n: nat)
    ensures Taken(false, size, off, n) == 0 && !Fits(false, size, off, n) && Progress(0, n) == 0
    ensures n == 0 ==> Taken(true, size, off, n) == 0 && Fits(true, size, off, n)
    ensures size <= MAXFILE * BSIZE ==> Sizes(size, size, off, 0)
  {
  }

  // The file size once i bytes have been taken at offset off.
  predicate Sizes(size0: nat, size: nat, off: nat, i: nat) {
    && size <= MAXFILE * BSIZE && (i == 0 ==> size == size0)
    && (i > 0 ==> off <= size0 && off + i <= size)
  }

  // Transaction t of filewrite() takes the next n1 bytes exactly if it still can.
  lemma NextChunk(size0: nat, size: nat, off: nat, n: nat, i: nat, n1: nat, t: nat)
    requires Sizes(size0, size, off, i) && i == Progress(t, n) <= Taken(true, size0, off, n)
    requires i < n && n1 == if n - i > 1536 then 1536 else n - i
    ensures
      var taken := Taken(true, size0, off, n);
      if BadRange(size, off + i, n1)
      then taken == i == Progress(t + 1, taken) && !Fits(true, size0, off, n)
      else
        && off <= size0 && Sizes(size0, Max(size, off + i + n1), off, i + n1)
        && i + n1 == Progress(t + 1, n) == Progress(t + 1, taken) <= taken
        && (i + n1 == n ==> taken == n && Fits(true, size0, off, n))
  {
    var room := MAXFILE * BSIZE - off;
    if !Fits(true, size0, off, n) && off <= size0 && off <= MAXFILE * BSIZE {
      WholeChunks(room, t);
    }
  }

  lemma WholeChunks(room: nat, t: nat)
    ensures t * 1536 <= room <==> t * 1536 <= room / 1536 * 1536
    ensures (t + 1) * 1536 <= room <==> (t + 1) * 1536 <= room / 1536 * 1536
  {
  }

  // A chunk of three blocks, aligned or not, stays within one transaction.
  lemma ChunkFits(off: nat, n: nat)
    requires n <= 1536
    ensures TxnBound(off, n) <= MAXOPBLOCKS
  {
  }

  lemma PtrOfDirect(disk: seq<Block>, ip: Inode, k: nat)
    requires |ip.addrs| == NDIRECT + 1 && k <= INDIRECT
    ensures Ptr(disk, ip, k) == ip.addrs[k]
  {
  }

  lemma PtrOfEntry(disk: seq<Block>, ip: Inode, j: nat)
    requires |ip.addrs| == NDIRECT + 1 && j < NINDIRECT && 0 < ip.addrs[INDIRECT] < |disk|
    ensures Ptr(disk, ip, 13 + j) == WordAt(disk[ip.addrs[INDIRECT]], j)
  {
  }

  lemma OwnersInRange(sb: Superblock, bitmap: seq<bool>, disk: seq<Block>, inodes: seq<Inode>, own: map<nat, Slot>)
    requires Ownership(sb, bitmap, disk, inodes, own)
    ensures forall b | b in own :: own[b].k < NSLOTS
  {
  }

  // Without an indirect block an inode owns no indirect or entry slot.
  lemma NoEntries(sb: Superblock, bitmap: seq<bool>, disk: seq<Block>, inodes: seq<Inode>, own: map<nat, Slot>, i: nat)
    requires Ownership(sb, bitmap, disk, inodes, own) && i < |inodes| && |inodes[i].addrs| == NDIRECT + 1
    requires inodes[i].addrs[INDIRECT] == 0
    ensures forall b | b in own :: own[b].inum != i || own[b].k < INDIRECT
  {
  }

  lemma EmptyHoleFree(disk: seq<Block>, ip: Inode)
    ensures HoleFree(disk, ip, 0)
  {
  }

  lemma TruncBitmap(sb: Superblock, bitmap0: seq<bool>, bitmap: seq<bool>, disk: seq<Block>, inodes0: seq<Inode>,
                    inodes: seq<Inode>,
                    own0: map<nat, Slot>, own: map<nat, Slot>, i: nat)
    requires Ownership(sb, bitmap0, disk, inodes0, own0) && Ownership(sb, bitmap, disk, inodes, own)
    requires forall b :: b in own <==> b in own0 && own0[b].inum != i
    ensures |bitmap| == |bitmap0| == sb.size
    ensures forall b | 0 <= b < sb.size :: bitmap[b] <==> bitmap0[b] && !(b in own0 && own0[b].inum == i)
  {
  }

  lemma SrcStored(sb: Superblock, bitmap: seq<bool>, disk: seq<Block>, inodes: seq<Inode>, own: map<nat, Slot>, i: nat,
                  s: seq<Byte>, off: nat, src: seq<Byte>)
    requires Ownership(sb, bitmap, disk, inodes, own) && i < |inodes| && inodes[i].size <= MAXFILE * BSIZE
    requires HoleFree(disk, inodes[i], inodes[i].size) && off <= |s| && Contents(disk, inodes[i]) == Splice(s, off, src)
    ensures forall q | 0 <= q < |src| :: StoredAs(disk, inodes[i], off + q, src[q])
  {
    hide Owned, HoleFree, Contents, StoredAs;
    ContentsStored(sb, bitmap, disk, inodes, own, i);
    SpliceBytes(s, off, src);
  }

  predicate BadRange(size: nat, off: nat, n: nat) {
    off > size || off + n >= 0x1_0000_0000 || off + n > MAXFILE * BSIZE
  }

  function Max(a: nat, b: nat): nat { if a > b then a else b }

  // ---- How many blocks one call of writei() logs ----

  // Rounds writei() needs for the first tot bytes at offset off.
  function RoundsDone(off: nat, tot: nat): nat {
    if tot == 0 then 0 else (off + tot - 1) / BSIZE - off / BSIZE + 1
  }

  // A data block for each round, a bitmap block for each allocated one (the block of an
  // unaligned start exists already), and the indirect block, its bitmap block and the
  // inode block.
  function TxnBound(off: nat, n: nat): nat {
    if n == 0 then 0 else 2 * RoundsDone(off, n) + 3 - Count(off % BSIZE != 0)
  }

  // The blocks logged so far: data blocks, at most one indirect block, and bitmap blocks, one
  // for each allocation.
  datatype Tally = Tally(data: set<nat>, ind: set<nat>, bits: set<nat>, allocs: nat)

  ghost predicate Budget(logged: set<nat>, t: Tally, ind0: nat, ind1: nat, off: nat, tot: nat) {
    && logged <= t.data + t.ind + t.bits && (tot == 0 ==> logged == {})
    && |t.data| <= RoundsDone(off, tot)
    && t.allocs + Count(off % BSIZE != 0 && tot > 0) <= RoundsDone(off, tot)
    && t.ind <= {ind1} && (ind1 == 0 ==> t.ind == {}) && (ind0 != 0 ==> ind1 != 0)
    && |t.bits| <= t.allocs + Count(ind0 == 0 && ind1 != 0)
  }

  lemma StartBudget(ind0: nat, off: nat)
    ensures Budget({}, Tally({}, {}, {}, 0), ind0, ind0, off, 0)
  {
  }

  lemma BudgetRound(logged: set<nat>, logged': set<nat>, t: Tally, ind0: nat, ind1: nat, ind2: nat,
                    off: nat, tot: nat, m: nat, b: nat, bs: set<nat>, isNew: bool)
    returns (t': Tally)
    requires Budget(logged, t, ind0, ind1, off, tot)
    requires m > 0 && (off + tot) % BSIZE + m <= BSIZE && (tot == 0 || (off + tot) % BSIZE == 0)
    requires tot == 0 && off % BSIZE != 0 ==> !isNew
    requires
      var bn := (off + tot) / BSIZE;
      && logged' <= logged + bs + {b} + (if bn < NDIRECT then {} else {ind2})
      && (bn < NDIRECT ==> ind2 == ind1) && (bn >= NDIRECT ==> ind2 != 0) && (ind1 != 0 ==> ind2 == ind1)
      && |bs| <= Count(isNew) + Count(bn >= NDIRECT && ind1 == 0)
    ensures Budget(logged', t', ind0, ind2, off, tot + m)
  {
    t' := Tally(t.data + {b}, if (off + tot) / BSIZE < NDIRECT then t.ind else {ind2}, t.bits + bs,
                t.allocs + Count(isNew));
    RoundCount(off, tot, m);
    assert |t'.data| <= |t.data| + 1;
    UnionSize(t.bits, bs);
  }

  lemma UnionSize(a: set<nat>, b: set<nat>)
    ensures |a + b| <= |a| + |b|
  {
  }

  lemma RoundCount(off: nat, tot: nat, m: nat)
    requires m > 0 && (off + tot) % BSIZE + m <= BSIZE && (tot == 0 || (off + tot) % BSIZE == 0)
    ensures RoundsDone(off, tot + m) == RoundsDone(off, tot) + 1
  {
  }

  // The block at an unaligned start is allocated.
  lemma NotFresh(disk0: seq<Block>, inodes0: seq<Inode>, disk: seq<Block>, inodes: seq<Inode>, i: nat, off: nat,
                 src: seq<Byte>, tot: nat)
    requires WrittenTo(disk0, inodes0, disk, inodes, i, off, src, tot)
    ensures tot == 0 && off % BSIZE != 0 ==> Ptr(disk, inodes[i], SlotOf(off / BSIZE)) != 0
  {
  }

  // So is every block that starts before the end of the file.
  lemma InFile(disk0: seq<Block>, inodes0: seq<Inode>, disk: seq<Block>, inodes: seq<Inode>, i: nat, off: nat,
               src: seq<Byte>, tot: nat)
    requires WrittenTo(disk0, inodes0, disk, inodes, i, off, src, tot) && HoleFree(disk0, inodes0[i], inodes0[i].size)
    ensures off + tot < inodes0[i].size ==> Ptr(disk, inodes[i], SlotOf((off + tot) / BSIZE)) != 0
  {
  }

  lemma BudgetTotal(logged: set<nat>, t: Tally, ind0: nat, ind1: nat, off: nat, n: nat)
    requires Budget(logged, t, ind0, ind1, off, n)
    ensures |logged| + Count(n > 0) <= TxnBound(off, n)
  {
    UnionSize(t.data, t.ind);
    UnionSize(t.data + t.ind, t.bits);
    SubsetSize(t.ind, {ind1});
    SubsetSize(logged, t.data + t.ind + t.bits);
  }

  // The state writei() leaves, once the size is updated.
  lemma WriteDone(sb: Superblock, bitmap: seq<bool>, own: map<nat, Slot>, disk0: seq<Block>, inodes0: seq<Inode>,
                  disk: seq<Block>, inodes: seq<Inode>, i: nat, off: nat, src: seq<Byte>)
    requires Ownership(sb, bitmap, disk, inodes, own) && WrittenTo(disk0, inodes0, disk, inodes, i, off, src, |src|)
    requires off <= inodes0[i].size
    requires forall j | 0 <= j < |inodes0| :: HoleFree(disk0, inodes0[j], inodes0[j].size)
    ensures
      var size := Max(inodes0[i].size, off + |src|);
      var ip := inodes[i].(size := size);
      && Ownership(sb, bitmap, disk, inodes[i := ip], own)
      && HoleFree(disk, ip, size)
      && Contents(disk, ip) == Splice(Contents(disk0, inodes0[i]), off, src)
      && inodes[i].size == inodes0[i].size && |inodes| == |inodes0|
      && forall j | 0 <= j < |inodes| && j != i ::
           inodes[j] == inodes0[j] && Contents(disk, inodes[j]) == Contents(disk0, inodes0[j]) &&
           HoleFree(disk, inodes[j], inodes[j].size)
  {
    var size := Max(inodes0[i].size, off + |src|);
    var ip := inodes[i].(size := size);
    SizeKeepsOwnership(sb, bitmap, disk, inodes, own, i, size);
    WrittenContents(disk0, inodes0, disk, inodes, i, off, src);
    forall j | 0 <= j < |inodes| && j != i
      ensures inodes[j] == inodes0[j] && Contents(disk, inodes[j]) == Contents(disk0, inodes0[j])
      ensures HoleFree(disk, inodes[j], inodes[j].size)
    {
      OthersKeepContents(disk0, inodes0, disk, inodes, i, off, src, j);
    }
    GrownHoleFree(disk0, inodes0, disk, inodes, i, off, src, size);
  }

  lemma GrownHoleFree(disk0: seq<Block>, inodes0: seq<Inode>, disk: seq<Block>, inodes: seq<Inode>, i: nat, off: nat,
                      src: seq<Byte>, size: nat)
    requires WrittenTo(disk0, inodes0, disk, inodes, i, off, src, |src|) && HoleFree(disk0, inodes0[i], inodes0[i].size)
    requires size == Max(inodes0[i].size, off + |src|)
    ensures HoleFree(disk, inodes[i].(size := size), size)
  {
  }

  lemma SizeKeepsOwnership(sb: Superblock, bitmap: seq<bool>, disk: seq<Block>, inodes: seq<Inode>, own: map<nat, Slot>,
                           i: nat, size: nat)
    requires Ownership(sb, bitmap, disk, inodes, own) && i < |inodes|
    ensures Ownership(sb, bitmap, disk, inodes[i := inodes[i].(size := size)], own)
  {
    assert forall k: nat :: Ptr(disk, inodes[i].(size := size), k) == Ptr(disk, inodes[i], k);
  }

  lemma WrittenNothing(disk: seq<Block>, inodes: seq<Inode>, i: nat, off: nat, src: seq<Byte>)
    requires i < |inodes| && off <= inodes[i].size && HoleFree(disk, inodes[i], inodes[i].size)
    ensures WrittenTo(disk, inodes, disk, inodes, i, off, src, 0)
  {
  }

  lemma ReadPiece(disk: seq<Block>, ip: Inode, o: nat, m: nat)
    requires o % BSIZE + m <= BSIZE && o + m <= ip.size
    requires 0 < Ptr(disk, ip, SlotOf(o / BSIZE)) < |disk|
    ensures disk[Ptr(disk, ip, SlotOf(o / BSIZE))][o % BSIZE..o % BSIZE + m] == Contents(disk, ip)[o..o + m]
  {
  }

  function Count(b: bool): nat { if b then 1 else 0 }
}
