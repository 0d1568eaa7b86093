// The page allocator of kalloc.c and the user part of one page directory of vm.c.
module Vm {
  import opened Common
  import opened VmSpec

  // Remap is the panic "remap" on a page that is mapped already.
  datatype MapResult = Mapped | NoMemory | Remap

  const KERNBASE: nat := 0x8000_0000

  // PGROUNDUP(sz) / PGSIZE
  function PagesUpTo(sz: nat): nat { (sz + PGSIZE - 1) / PGSIZE }

  // Rounding up takes in every page that begins below sz.
  lemma PagesBelow(sz: nat)
    ensures forall v: nat :: v < PagesUpTo(sz) <==> v * 4096 < sz
  {
  }

  // The user pages that begin below sz bytes, and no others, are mapped.
  ghost predicate Sized(pgdir: seq<Pte>, tables: map<nat, seq<Pte>>, sz: nat) {
    forall v: nat | v < USERPAGES :: Entry(pgdir, tables, v).Some? <==> v * PGSIZE < sz
  }

  class AddressSpace {
    var freelist: seq<nat>             // kmem.freelist, most recently freed first
    var dir: nat                       // the frame of the directory
    var pgdir: seq<Pte>
    var tables: map<nat, seq<Pte>>
    var sz: nat                        // the size of the process in bytes

    ghost var own: map<nat, Use>
    ghost var total: set<nat>

    ghost predicate Valid(loose: set<nat>)
      reads this
    {
      Frames(dir, pgdir, tables, freelist, own, loose, total)
    }

    // A fresh directory in the first frame of the free list.
    constructor (frames: seq<nat>)
      requires frames != [] && forall i, j | 0 <= i < j < |frames| :: frames[i] != frames[j]
      ensures Valid({}) && total == (set f | f in frames) && forall v: nat :: Entry(pgdir, tables, v).None?
    {
      freelist := frames[1..];
      dir := frames[0];
      pgdir := EmptyTable();
      tables := map[];
      sz := 0;
      own := map[frames[0] := Dir];
      total := set f | f in frames;
      new;
      FreshFrames(frames);
    }

    // kalloc(): 0 (None) when no frame is free.
    method Kalloc(ghost loose: set<nat>) returns (r: Option<nat>)
      requires Valid(loose)
      modifies this`freelist
      ensures r.None? <==> old(freelist) == []
      ensures r.None? ==> freelist == old(freelist)
      ensures r.Some? ==> freelist == old(freelist)[1..] && r.value == old(freelist)[0]
      ensures r.Some? ==> r.value !in loose && Valid(loose + {r.value})
    {
      hide TablesOwned, PagesOwned, OwnersHold;
      if freelist == [] {
        return None;
      }
      AllocAccounted(freelist, own, loose, total);
      r := Some(freelist[0]);
      freelist := freelist[1..];
    }

    // kfree() of a frame that nothing uses.
    method Kfree(f: nat, ghost loose: set<nat>)
      requires Valid(loose) && f in loose
      modifies this`freelist
      ensures freelist == [f] + old(freelist) && Valid(loose - {f})
    {
      hide TablesOwned, PagesOwned, OwnersHold;
      FreeAccounted(freelist, own, loose, total, f);
      freelist := [f] + freelist;
    }

    // walkpgdir(): whether the page has an entry to look at; with `alloc` a missing table
    // is created if a frame is free.
    method Walkpgdir(v: nat, alloc: bool, ghost loose: set<nat>) returns (ok: bool)
      requires Valid(loose) && v / NENTRIES < NENTRIES
      modifies this`freelist, this`pgdir, this`tables, this`own
      ensures Valid(loose) && forall w: nat :: Entry(pgdir, tables, w) == Entry(old(pgdir), old(tables), w)
      ensures ok <==> pgdir[v / NENTRIES].Some?
      ensures old(pgdir)[v / NENTRIES].Some? || !alloc ==>
                freelist == old(freelist) && pgdir == old(pgdir) && tables == old(tables) && own == old(own)
      ensures !ok && alloc ==> old(freelist) == [] && freelist == []
      ensures |pgdir| == NENTRIES && forall j | 0 <= j < NENTRIES && j != v / NENTRIES :: pgdir[j] == old(pgdir)[j]
      ensures ok ==> |freelist| == |old(freelist)| - (if old(pgdir)[v / NENTRIES].None? then 1 else 0)
    {
      hide TablesOwned, PagesOwned, OwnersHold, Accounted;
      if pgdir[v / NENTRIES].Some? {
        return true;
      }
      if !alloc {
        return false;
      }
      var r := Kalloc(loose);
      if r.None? {
        return false;
      }
      var f := r.value;
      NewTable(dir, pgdir, tables, freelist, own, loose + {f}, total, v / NENTRIES, f);
      assert loose + {f} - {f} == loose;
      pgdir := pgdir[v / NENTRIES := Some(f)];
      tables := tables[f := EmptyTable()];
      own := own[f := Table(v / NENTRIES)];
      return true;
    }

    // mappages() of one user page.
    method Mappages(v: nat, f: nat, ghost loose: set<nat>) returns (r: MapResult)
      requires Valid(loose) && v < USERPAGES && f in loose
      modifies this`freelist, this`pgdir, this`tables, this`own
      ensures r == Remap <==> Entry(old(pgdir), old(tables), v).Some?
      ensures r == Mapped ==>
                && Valid(loose - {f})
                && forall w: nat ::
                     Entry(pgdir, tables, w) == if w == v then Some(f) else Entry(old(pgdir), old(tables), w)
      ensures r != Mapped ==>
                Valid(loose) && forall w: nat :: Entry(pgdir, tables, w) == Entry(old(pgdir), old(tables), w)
      ensures r == NoMemory ==> old(freelist) == [] && old(pgdir)[v / NENTRIES].None?
      ensures |pgdir| == NENTRIES && forall j | 0 <= j < NENTRIES && j != v / NENTRIES :: pgdir[j] == old(pgdir)[j]
      ensures r == Mapped ==> Walks(pgdir, tables, v, f)
      ensures r == Mapped ==>
                pgdir[v / NENTRIES].Some? &&
                |freelist| == |old(freelist)| - (if old(pgdir)[v / NENTRIES].None? then 1 else 0)
    {
      hide TablesOwned, PagesOwned, OwnersHold, Accounted, Entry;
      var ok := Walkpgdir(v, true, loose);
      if !ok {
        NoTable(pgdir, tables, v);
        return NoMemory;
      }
      if Entry(pgdir, tables, v).Some? {
        return Remap;
      }
      MapPage(dir, pgdir, tables, freelist, own, loose, total, v, f);
      tables := PutEntry(tables, pgdir[v / NENTRIES].value, v % NENTRIES, Some(f));
      own := own[f := Page(v)];
      return Mapped;
    }

    // One page of mappages() above KERNBASE, where the frame is not the address space's own.
    method MapKernelPage(v: nat, f: nat) returns (r: MapResult)
      requires Valid({}) && USERPAGES <= v < NENTRIES * NENTRIES
      modifies this`freelist, this`pgdir, this`tables, this`own
      ensures Valid({}) && (r == Remap <==> Entry(old(pgdir), old(tables), v).Some?)
      ensures r == NoMemory ==> freelist == old(freelist) == [] && old(pgdir)[v / NENTRIES].None?
      ensures r == Mapped ==> Entry(pgdir, tables, v) == Some(f) && Walks(pgdir, tables, v, f)
      ensures forall w: nat | w != v || r != Mapped :: Entry(pgdir, tables, w) == Entry(old(pgdir), old(tables), w)
    {
      hide TablesOwned, PagesOwned, OwnersHold, Accounted, Entry;
      var ok := Walkpgdir(v, true, {});
      if !ok {
        NoTable(pgdir, tables, v);
        return NoMemory;
      }
      if Entry(pgdir, tables, v).Some? {
        return Remap;
      }
      SetEntry(pgdir, tables, own, v, Some(f));
      KernelEntry(dir, pgdir, tables, freelist, own, total, v, f);
      tables := PutEntry(tables, pgdir[v / NENTRIES].value, v % NENTRIES, Some(f));
      return Mapped;
    }

    // mappages() of n kernel pages, as setupkvm() uses it. Out of memory or at a page that is
    // mapped already, it stops with the pages before that one mapped.
    method MapKernel(v: nat, n: nat, f: nat) returns (r: MapResult)
      requires Valid({}) && USERPAGES <= v && v + n <= NENTRIES * NENTRIES && n > 0
      modifies this`freelist, this`pgdir, this`tables, this`own
      ensures Valid({})
      ensures r == Mapped ==> forall w: nat | v <= w < v + n :: Entry(pgdir, tables, w) == Some(f + w - v)
      ensures r == Remap ==> exists w: nat :: v <= w < v + n && Entry(old(pgdir), old(tables), w).Some?
      ensures (exists w: nat :: v <= w < v + n && Entry(old(pgdir), old(tables), w).Some?) ==> r != Mapped
      ensures r == NoMemory ==> freelist == []
      ensures forall w: nat | !(v <= w < v + n) :: Entry(pgdir, tables, w) == Entry(old(pgdir), old(tables), w)
    {
      hide TablesOwned, PagesOwned, OwnersHold, Accounted, Entry;
      var k := 0;
      r := Mapped;
      while k < n
        invariant 0 <= k <= n && Valid({}) && r == Mapped
        invariant forall w: nat | v <= w < v + k :: Entry(old(pgdir), old(tables), w).None?
        invariant forall w: nat | v <= w < v + k :: Entry(pgdir, tables, w) == Some(f + w - v)
        invariant forall w: nat | !(v <= w < v + k) :: Entry(pgdir, tables, w) == Entry(old(pgdir), old(tables), w)
      {
        r := MapKernelPage(v + k, f + k);
        if r != Mapped {
          return;
        }
        k := k + 1;
      }
    }

    // deallocuvm(): unmaps and frees the user pages from newsz up to oldsz. Jumping over an
    // absent table skips no mapped page.
    method Deallocuvm(oldsz: nat, newsz: nat, ghost loose: set<nat>) returns (r: nat)
      requires Valid(loose) && oldsz <= KERNBASE
      modifies this`freelist, this`tables, this`own
      ensures r == if newsz >= oldsz then oldsz else newsz
      ensures Valid(loose)
      ensures forall v: nat ::
                Entry(pgdir, tables, v) ==
                if newsz <= v * PGSIZE < oldsz then None else Entry(pgdir, old(tables), v)
    {
      hide TablesOwned, PagesOwned, OwnersHold, Accounted, Entry;
      if newsz >= oldsz {
        return oldsz;
      }
      PagesBelow(newsz);
      PagesBelow(oldsz);
      var a := PagesUpTo(newsz);
      while a * PGSIZE < oldsz
        invariant Valid(loose)
        invariant forall v: nat | PagesUpTo(newsz) <= v < a && v < PagesUpTo(oldsz) :: Entry(pgdir, tables, v).None?
        invariant forall v: nat | !(PagesUpTo(newsz) <= v < a && v < PagesUpTo(oldsz)) ::
                    Entry(pgdir, tables, v) == Entry(pgdir, old(tables), v)
        decreases USERPAGES - a
      {
        if pgdir[a / NENTRIES].None? {
          NoTable(pgdir, tables, a);
          a := (a / NENTRIES + 1) * NENTRIES - 1;
        } else {
          var pte := Entry(pgdir, tables, a);
          if pte.Some? {
            UnmapPage(dir, pgdir, tables, freelist, own, loose, total, a);
            tables := PutEntry(tables, pgdir[a / NENTRIES].value, a % NENTRIES, None);
            own := own - {pte.value};
            ghost var both := loose + {pte.value};
            assert both - {pte.value} == loose;
            Kfree(pte.value, both);
          }
        }
        a := a + 1;
      }
      return newsz;
    }

    // allocuvm(): maps fresh frames at the pages from oldsz up to newsz. None is the error
    // return 0, after which every page is mapped as before.
    method Allocuvm(oldsz: nat, newsz: nat) returns (r: Option<nat>)
      requires Valid({})
      requires forall v: nat | oldsz <= v * PGSIZE < newsz && v < USERPAGES :: Entry(pgdir, tables, v).None?
      modifies this`freelist, this`pgdir, this`tables, this`own
      ensures Valid({})
      ensures
        var needed := Needed(old(pgdir), PagesUpTo(oldsz), PagesUpTo(newsz));
        r.None? <==> newsz >= KERNBASE || (newsz >= oldsz && |old(freelist)| < needed)
      ensures r.None? ==> forall v: nat :: Entry(pgdir, tables, v) == Entry(old(pgdir), old(tables), v)
      ensures r.Some? ==> r.value == if newsz < oldsz then oldsz else newsz
      ensures r.Some? ==> forall v: nat ::
                if oldsz <= v * PGSIZE < newsz then Entry(pgdir, tables, v).Some?
                else Entry(pgdir, tables, v) == Entry(old(pgdir), old(tables), v)
    {
      hide TablesOwned, PagesOwned, OwnersHold, Accounted, Entry, Absent;
      if newsz >= KERNBASE {
        return None;
      }
      if newsz < oldsz {
        return Some(oldsz);
      }
      PagesBelow(oldsz);
      PagesBelow(newsz);
      var a := PagesUpTo(oldsz);
      ghost var end := PagesUpTo(newsz);
      while a * PGSIZE < newsz
        invariant PagesUpTo(oldsz) <= a <= end && Valid({}) && |pgdir| == NENTRIES
        invariant |old(freelist)| - Needed(old(pgdir), PagesUpTo(oldsz), end) == |freelist| - Needed(pgdir, a, end)
        invariant forall v: nat | PagesUpTo(oldsz) <= v < a :: Entry(pgdir, tables, v).Some?
        invariant forall v: nat | !(PagesUpTo(oldsz) <= v < a) ::
                    Entry(pgdir, tables, v) == Entry(old(pgdir), old(tables), v)
      {
        ghost var before := pgdir;
        assert Needed(pgdir, a, end) > 0;
        var mem := Kalloc({});
        if mem.None? {
          var _ := Deallocuvm(newsz, oldsz, {});
          assert forall v: nat :: Entry(pgdir, tables, v) == Entry(old(pgdir), old(tables), v);
          return None;
        }
        var f := mem.value;
        ghost var one := {} + {f};
        assert one - {f} == {};
        var mapped := Mappages(a, f, one);
        if mapped == NoMemory {
          AtLeastTwo(before, a, end);
          var _ := Deallocuvm(newsz, oldsz, one);
          Kfree(f, one);
          assert forall v: nat :: Entry(pgdir, tables, v) == Entry(old(pgdir), old(tables), v);
          return None;
        }
        NeededStep(before, pgdir, a, end);
        a := a + 1;
      }
      return Some(newsz);
    }

    // growproc(). The size field stays right except when the process shrinks to nothing: then
    // deallocuvm() returns 0, which is read as a failure, and the old size is kept although
    // every page is gone.
    method Growproc(n: int) returns (ok: bool)
      requires Valid({}) && sz < KERNBASE && Sized(pgdir, tables, sz) && -0x8000_0000 <= n < 0x8000_0000
      modifies this`freelist, this`pgdir, this`tables, this`sz, this`own
      ensures Valid({}) && sz < KERNBASE
      ensures ok ==> sz == if old(sz) + n < 0 then old(sz) else old(sz) + n
      ensures n > 0 ==>
                var needed := Needed(old(pgdir), PagesUpTo(old(sz)), PagesUpTo(old(sz) + n));
                ok <==> old(sz) + n < KERNBASE && |old(freelist)| >= needed
      ensures n <= 0 ==> (ok <==> n == 0 || !(old(sz) == 0 || old(sz) + n == 0))
      ensures !ok ==> sz == old(sz)
      ensures old(sz) + n == 0 && n < 0 ==> !ok && Sized(pgdir, tables, 0)
      ensures Sized(pgdir, tables, sz) <==> !(old(sz) + n == 0 && n < 0)
      ensures !(old(sz) + n == 0 && n < 0) ==>
                forall v: nat | v < USERPAGES :: Entry(pgdir, tables, v).Some? <==> v * 4096 < sz
      ensures forall v: nat, w: nat | v < w < USERPAGES && Entry(pgdir, tables, v).Some? ::
                Entry(pgdir, tables, v) != Entry(pgdir, tables, w)
    {
      hide TablesOwned, PagesOwned, OwnersHold, Accounted, Entry;
      ok := true;
      if n > 0 {
        var r := Allocuvm(sz, sz + n);
        ok := r.Some?;
        if ok {
          sz := r.value;
        }
      } else if n < 0 {
        // unsigned 32-bit sum
        var newsz := if sz + n < 0 then sz + n + 0x1_0000_0000 else sz + n;
        var r := Deallocuvm(sz, newsz, {});
        ok := r != 0;
        if ok {
          sz := r;
        }
        assert old(sz) + n == 0 ==> Entry(pgdir, tables, 0).None?;
      }
      PagesDistinct(dir, pgdir, tables, freelist, own, {}, total);
    }

    // The loop of freevm() over the page directory.
    method FreeTables()
      requires |pgdir| == NENTRIES && TablesOwned(pgdir, tables, own) && Accounted(freelist, own, {}, total)
      requires dir in own && own[dir].Dir?
      requires forall f | f in own && own[f].Table? :: own[f].pdx < NENTRIES && pgdir[own[f].pdx] == Some(f)
      modifies this`freelist, this`own
      ensures Accounted(freelist, own, {}, total)
      ensures forall f :: f in own <==> f in old(own) && !old(own)[f].Table?
      ensures forall f | f in own :: own[f] == old(own)[f]
    {
      hide TablesOwned, Accounted, Entry;
      ghost var own0 := own;
      var i := 0;
      while i < NENTRIES
        invariant 0 <= i <= NENTRIES && Accounted(freelist, own, {}, total) && dir in own
        invariant forall f :: f in own <==> f in own0 && !(own0[f].Table? && own0[f].pdx < i)
        invariant forall f | f in own :: own[f] == own0[f]
        invariant |pgdir| == NENTRIES && TablesOwned(pgdir, tables, own0)
      {
        TableOwner(dir, pgdir, tables, own0, i);
        if pgdir[i].Some? {
          var t := pgdir[i].value;
          FreeOne(freelist, own, total, t);
          freelist := [t] + freelist;
          own := own - {t};
        }
        i := i + 1;
      }
    }

    // freevm(): afterwards every frame of the directory is free, each exactly once.
    method Freevm()
      requires Valid({})
      modifies this`freelist, this`tables, this`own
      ensures forall f: nat :: f in freelist <==> f in total
      ensures forall i, j | 0 <= i < j < |freelist| :: freelist[i] != freelist[j]
    {
      hide TablesOwned, Accounted, Entry;
      var _ := Deallocuvm(KERNBASE, 0, {});
      forall v: nat | v < USERPAGES
        ensures Entry(pgdir, tables, v).None?
      {
        assert Entry(pgdir, tables, v).None?;
      }
      NoPages(dir, pgdir, tables, own);
      FreeTables();
      FreeOne(freelist, own, total, dir);
      freelist := [dir] + freelist;
      own := own - {dir};
      AllFree(freelist, own, total);
    }
  }

  // Once no user page is mapped, the directory owns only itself and its tables.
  lemma NoPages(dir: nat, pgdir: seq<Pte>, tables: map<nat, seq<Pte>>, own: map<nat, Use>)
    requires OwnersHold(dir, pgdir, tables, own) && |pgdir| == NENTRIES
    requires forall v: nat | v < USERPAGES :: Entry(pgdir, tables, v).None?
    ensures forall f | f in own ::
              !own[f].Page? && (own[f].Dir? ==> f == dir) &&
              (own[f].Table? ==> own[f].pdx < NENTRIES && pgdir[own[f].pdx] == Some(f))
  {
  }

  lemma TableOwner(dir: nat, pgdir: seq<Pte>, tables: map<nat, seq<Pte>>, own: map<nat, Use>, i: nat)
    requires TablesOwned(pgdir, tables, own) && i < |pgdir|
    ensures pgdir[i].Some? ==> pgdir[i].value in own && own[pgdir[i].value] == Table(i)
  {
  }

  lemma FreeOne(freelist: seq<nat>, own: map<nat, Use>, total: set<nat>, f: nat)
    requires Accounted(freelist, own, {}, total) && f in own
    ensures Accounted([f] + freelist, own - {f}, {}, total)
  {
  }

  lemma AllFree(freelist: seq<nat>, own: map<nat, Use>, total: set<nat>)
    requires Accounted(freelist, own, {}, total) && own == map[]
    ensures forall f: nat :: f in freelist <==> f in total
    ensures forall i, j | 0 <= i < j < |freelist| :: freelist[i] != freelist[j]
  {
  }

  lemma FreshFrames(frames: seq<nat>)
    requires frames != [] && forall i, j | 0 <= i < j < |frames| :: frames[i] != frames[j]
    ensures Frames(frames[0], EmptyTable(), map[], frames[1..], map[frames[0] := Dir], {}, set f | f in frames)
    ensures forall v: nat :: Entry(EmptyTable(), map[], v).None?
  {
    var empty := EmptyTable();
    assert frames == [frames[0]] + frames[1..];
    forall j | 0 <= j < |frames[1..]|
      ensures frames[1..][j] != frames[0]
    {
      assert frames[1..][j] == frames[j + 1];
    }
    assert forall i | 0 <= i < |empty| :: empty[i].None?;
    forall v: nat
      ensures Entry(empty, map[], v).None?
    {
    }
    assert PagesOwned(empty, map[], map[frames[0] := Dir]);
    var total := set f | f in frames;
    forall f: nat
      ensures f in total <==> f in frames[1..] || f in map[frames[0] := Dir]
    {
      assert f in frames <==> f == frames[0] || f in frames[1..];
    }
  }

  // A kernel entry does not touch the user pages.
  lemma KernelEntry(dir: nat, pgdir: seq<Pte>, tables: map<nat, seq<Pte>>, freelist: seq<nat>,
                    own: map<nat, Use>, total: set<nat>, v: nat, f: nat)
    requires Frames(dir, pgdir, tables, freelist, own, {}, total) && USERPAGES <= v < NENTRIES * NENTRIES
    requires pgdir[v / NENTRIES].Some?
    ensures
      var tables' := PutEntry(tables, pgdir[v / NENTRIES].value, v % NENTRIES, Some(f));
      Frames(dir, pgdir, tables', freelist, own, {}, total)
  {
    SetEntry(pgdir, tables, own, v, Some(f));
    hide Entry;
  }

  lemma AtLeastTwo(pgdir: seq<Pte>, lo: nat, hi: nat)
    requires lo < hi && lo / NENTRIES < |pgdir| && pgdir[lo / NENTRIES].None?
    ensures Needed(pgdir, lo, hi) >= 2
  {
    assert lo / NENTRIES in Absent(pgdir, lo, hi);
  }

  // No page of an absent table is mapped.
  lemma NoTable(pgdir: seq<Pte>, tables: map<nat, seq<Pte>>, a: nat)
    requires a / NENTRIES < |pgdir| && pgdir[a / NENTRIES].None?
    ensures forall v: nat | a <= v < (a / NENTRIES + 1) * NENTRIES :: Entry(pgdir, tables, v).None?
  {
  }
}
