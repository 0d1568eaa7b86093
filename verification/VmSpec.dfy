// Two-level page tables over a page allocator (vm.c, kalloc.c), on values: which frame
// each page of a directory maps to, and who owns every frame.
module VmSpec {
  import opened Common

  const NENTRIES: nat := 1024
  const USERPAGES: nat := 0x8_0000     // KERNBASE / PGSIZE
  const PGSIZE: nat := 4096

  // What a frame of the address space is used for.
  datatype Use = Dir | Table(pdx: nat) | Page(vpn: nat)

  type Pte = Option<nat>               // the frame number of a present entry

  // The entry for page v, None when its table or the entry is absent.
  function Entry(pgdir: seq<Pte>, tables: map<nat, seq<Pte>>, v: nat): Pte {
    var i := v / NENTRIES;
    if i >= |pgdir| || pgdir[i].None? || pgdir[i].value !in tables || |tables[pgdir[i].value]| != NENTRIES then None
    else tables[pgdir[i].value][v % NENTRIES]
  }

  // What the hardware does with an address in page v: the upper ten bits of the page number
  // choose the table, the lower ten the entry.
  ghost predicate Walks(pgdir: seq<Pte>, tables: map<nat, seq<Pte>>, v: nat, f: nat) {
    && v * 4096 / 0x40_0000 < |pgdir| && pgdir[v * 4096 / 0x40_0000].Some?
    && var t := pgdir[v * 4096 / 0x40_0000].value;
    && t in tables && v * 4096 / 4096 % 1024 < |tables[t]| && tables[t][v * 4096 / 4096 % 1024] == Some(f)
  }

  // It finds what Entry says.
  lemma EntryWalks(pgdir: seq<Pte>, tables: map<nat, seq<Pte>>, own: map<nat, Use>, v: nat)
    requires TablesOwned(pgdir, tables, own)
    ensures forall f: nat :: Entry(pgdir, tables, v) == Some(f) <==> Walks(pgdir, tables, v, f)
  {
    assert v * 4096 / 0x40_0000 == v / NENTRIES && v * 4096 / 4096 % 1024 == v % NENTRIES;
  }

  // Every frame of `total` is free, loose, or used for exactly one thing.
  ghost predicate Frames(dir: nat, pgdir: seq<Pte>, tables: map<nat, seq<Pte>>, freelist: seq<nat>,
                         own: map<nat, Use>, loose: set<nat>, total: set<nat>)
  {
    && |pgdir| == NENTRIES && dir in own && own[dir] == Dir
    && TablesOwned(pgdir, tables, own)
    && PagesOwned(pgdir, tables, own)
    && OwnersHold(dir, pgdir, tables, own)
    && Accounted(freelist, own, loose, total)
  }

  ghost predicate TablesOwned(pgdir: seq<Pte>, tables: map<nat, seq<Pte>>, own: map<nat, Use>) {
    forall i | 0 <= i < |pgdir| && pgdir[i].Some? ::
      var t := pgdir[i].value;
      t in tables && |tables[t]| == NENTRIES && t in own && own[t] == Table(i)
  }

  ghost predicate PagesOwned(pgdir: seq<Pte>, tables: map<nat, seq<Pte>>, own: map<nat, Use>) {
    forall v: nat | v < USERPAGES && Entry(pgdir, tables, v).Some? ::
      Entry(pgdir, tables, v).value in own && own[Entry(pgdir, tables, v).value] == Page(v)
  }

  ghost predicate OwnersHold(dir: nat, pgdir: seq<Pte>, tables: map<nat, seq<Pte>>, own: map<nat, Use>) {
    forall f | f in own ::
      match own[f]
      case Dir => f == dir
      case Table(i) => i < |pgdir| && pgdir[i] == Some(f)
      case Page(v) => v < USERPAGES && Entry(pgdir, tables, v) == Some(f)
  }

  ghost predicate Accounted(freelist: seq<nat>, own: map<nat, Use>, loose: set<nat>, total: set<nat>) {
    && (forall i, j | 0 <= i < j < |freelist| :: freelist[i] != freelist[j])
    && (forall f | f in freelist :: f !in own && f !in loose)
    && (forall f | f in loose :: f !in own)
    && (forall f: nat :: f in total <==> f in freelist || f in own || f in loose)
  }

  // ---- kalloc() and kfree() ----

  lemma AllocAccounted(freelist: seq<nat>, own: map<nat, Use>, loose: set<nat>, total: set<nat>)
    requires Accounted(freelist, own, loose, total) && freelist != []
    ensures freelist[0] !in own && freelist[0] !in loose
    ensures Accounted(freelist[1..], own, loose + {freelist[0]}, total)
  {
    assert freelist == [freelist[0]] + freelist[1..];
    assert freelist[0] !in freelist[1..];
    forall f: nat
      ensures f in total <==> f in freelist[1..] || f in own || f in loose + {freelist[0]}
    {
      assert f in freelist <==> f == freelist[0] || f in freelist[1..];
    }
  }

  lemma FreeAccounted(freelist: seq<nat>, own: map<nat, Use>, loose: set<nat>, total: set<nat>, f: nat)
    requires Accounted(freelist, own, loose, total) && f in loose
    ensures Accounted([f] + freelist, own, loose - {f}, total)
  {
    assert f !in freelist;
    forall g: nat
      ensures g in total <==> g in [f] + freelist || g in own || g in loose - {f}
    {
      assert g in [f] + freelist <==> g == f || g in freelist;
    }
  }

  // ---- Page tables ----

  function EmptyTable(): seq<Pte> {
    seq(NENTRIES, _ => None)
  }

  // Entry j of table t set to x.
  function PutEntry(tables: map<nat, seq<Pte>>, t: nat, j: nat, x: Pte): map<nat, seq<Pte>> {
    if t in tables && j < |tables[t]| then
      var row: seq<Pte> := tables[t][j := x];
      tables[t := row]
    else tables
  }

  // A loose frame becomes the table of an absent directory entry: no page changes.
  lemma NewTable(dir: nat, pgdir: seq<Pte>, tables: map<nat, seq<Pte>>, freelist: seq<nat>,
                 own: map<nat, Use>, loose: set<nat>, total: set<nat>, i: nat, f: nat)
    requires Frames(dir, pgdir, tables, freelist, own, loose, total) && i < NENTRIES && pgdir[i].None? && f in loose
    ensures
      Frames(dir, pgdir[i := Some(f)], tables[f := EmptyTable()], freelist, own[f := Table(i)], loose - {f}, total)
    ensures forall v: nat :: Entry(pgdir[i := Some(f)], tables[f := EmptyTable()], v) == Entry(pgdir, tables, v)
  {
    var pgdir', tables', own' := pgdir[i := Some(f)], tables[f := EmptyTable()], own[f := Table(i)];
    forall v: nat
      ensures Entry(pgdir', tables', v) == Entry(pgdir, tables, v)
    {
    }
    assert TablesOwned(pgdir', tables', own');
    assert PagesOwned(pgdir', tables', own') && OwnersHold(dir, pgdir', tables', own') by {
      hide Entry, TablesOwned;
    }
  }

  // Writing one entry of a present table changes one page.
  lemma SetEntry(pgdir: seq<Pte>, tables: map<nat, seq<Pte>>, own: map<nat, Use>, v: nat, x: Pte)
    requires TablesOwned(pgdir, tables, own) && v / NENTRIES < |pgdir| && pgdir[v / NENTRIES].Some?
    ensures
      var t := pgdir[v / NENTRIES].value;
      && t in tables && |tables[t]| == NENTRIES
      && var tables' := PutEntry(tables, t, v % NENTRIES, x);
      && TablesOwned(pgdir, tables', own)
      && forall w: nat :: Entry(pgdir, tables', w) == if w == v then x else Entry(pgdir, tables, w)
  {
    var t := pgdir[v / NENTRIES].value;
    var tables' := PutEntry(tables, t, v % NENTRIES, x);
    forall w: nat
      ensures Entry(pgdir, tables', w) == if w == v then x else Entry(pgdir, tables, w)
    {
      if w / NENTRIES < |pgdir| && pgdir[w / NENTRIES] == Some(t) {
        assert w / NENTRIES == v / NENTRIES;
      }
    }
  }

  // mappages() of one page: a loose frame is mapped at an unmapped page.
  lemma MapPage(dir: nat, pgdir: seq<Pte>, tables: map<nat, seq<Pte>>, freelist: seq<nat>,
                own: map<nat, Use>, loose: set<nat>, total: set<nat>, v: nat, f: nat)
    requires Frames(dir, pgdir, tables, freelist, own, loose, total) && v < USERPAGES && f in loose
    requires pgdir[v / NENTRIES].Some? && Entry(pgdir, tables, v).None?
    ensures
      var t := pgdir[v / NENTRIES].value;
      && t in tables && |tables[t]| == NENTRIES
      && var tables' := PutEntry(tables, t, v % NENTRIES, Some(f));
      && Frames(dir, pgdir, tables', freelist, own[f := Page(v)], loose - {f}, total)
      && forall w: nat :: Entry(pgdir, tables', w) == if w == v then Some(f) else Entry(pgdir, tables, w)
  {
    SetEntry(pgdir, tables, own, v, Some(f));
    hide Entry;
  }

  // deallocuvm() of one page: its frame becomes loose.
  lemma UnmapPage(dir: nat, pgdir: seq<Pte>, tables: map<nat, seq<Pte>>, freelist: seq<nat>,
                  own: map<nat, Use>, loose: set<nat>, total: set<nat>, v: nat)
    requires Frames(dir, pgdir, tables, freelist, own, loose, total) && v < USERPAGES && Entry(pgdir, tables, v).Some?
    ensures pgdir[v / NENTRIES].Some?
    ensures
      var t, f := pgdir[v / NENTRIES].value, Entry(pgdir, tables, v).value;
      && t in tables && |tables[t]| == NENTRIES && f in own && f !in loose
      && var tables' := PutEntry(tables, t, v % NENTRIES, None);
      && Frames(dir, pgdir, tables', freelist, own - {f}, loose + {f}, total)
      && forall w: nat :: Entry(pgdir, tables', w) == if w == v then None else Entry(pgdir, tables, w)
  {
    SetEntry(pgdir, tables, own, v, None);
    hide Entry;
  }

  // Distinct user pages are mapped to distinct frames.
  lemma PagesDistinct(dir: nat, pgdir: seq<Pte>, tables: map<nat, seq<Pte>>, freelist: seq<nat>,
                      own: map<nat, Use>, loose: set<nat>, total: set<nat>)
    requires Frames(dir, pgdir, tables, freelist, own, loose, total)
    ensures forall v: nat, w: nat | v < w < USERPAGES && Entry(pgdir, tables, v).Some? ::
              Entry(pgdir, tables, v) != Entry(pgdir, tables, w)
  {
    hide Entry, TablesOwned, OwnersHold, Accounted;
    forall v: nat, w: nat | v < w < USERPAGES && Entry(pgdir, tables, v).Some?
      ensures Entry(pgdir, tables, v) != Entry(pgdir, tables, w)
    {
      assert own[Entry(pgdir, tables, v).value] == Page(v);
    }
  }

  // ---- How many frames allocuvm() takes ----

  // The tables that the pages from lo to hi lack.
  ghost function Absent(pgdir: seq<Pte>, lo: nat, hi: nat): set<nat> {
    set i | lo / NENTRIES <= i < |pgdir| && i * NENTRIES < hi && pgdir[i].None?
  }

  // One frame for each page and for each missing table.
  ghost function Needed(pgdir: seq<Pte>, lo: nat, hi: nat): nat {
    if lo >= hi then 0 else hi - lo + |Absent(pgdir, lo, hi)|
  }

  lemma NeededStep(pgdir: seq<Pte>, pgdir': seq<Pte>, lo: nat, hi: nat)
    requires lo < hi && lo / NENTRIES < |pgdir| == |pgdir'| && pgdir'[lo / NENTRIES].Some?
    requires forall j | 0 <= j < |pgdir| && j != lo / NENTRIES :: pgdir'[j] == pgdir[j]
    ensures Needed(pgdir, lo, hi) == (if pgdir[lo / NENTRIES].None? then 2 else 1) + Needed(pgdir', lo + 1, hi)
  {
    var i := lo / NENTRIES;
    var a := Absent(pgdir, lo, hi);
    if lo + 1 == hi {
      assert a == if pgdir[i].None? then {i} else {};
    } else {
      assert Absent(pgdir', lo + 1, hi) == a - {i};
      assert i in a <==> pgdir[i].None?;
    }
  }
}
