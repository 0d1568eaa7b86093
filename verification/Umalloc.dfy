// The user-level allocator of umalloc.c, after section 8.7 of The C Programming Language:
// a circular, address-ordered list of free blocks. Addresses count header units.
module Umalloc {
  import opened Common

  // A block: the address of its header and its size in units, header included.
  datatype Blk = Blk(addr: nat, size: nat)

  // The header fields in memory, by address.
  datatype Mem = Mem(ptr: map<nat, nat>, size: map<nat, nat>)

  // A header field in memory; memory nobody wrote reads as 0.
  function At(m: map<nat, nat>, a: nat): nat { if a in m then m[a] else 0 }

  // ---- The free list ----

  // base first, then the free blocks by address, no two of them adjacent.
  ghost predicate Ordered(free: seq<Blk>, base: nat) {
    && |free| >= 1 && free[0] == Blk(base, 0)
    && (forall i | 1 <= i < |free| :: free[i].size > 0)
    && (forall i, j | 0 <= i < j < |free| :: free[i].addr + free[i].size < free[j].addr)
  }

  function NextAddr(free: seq<Blk>, i: nat): nat
    requires i < |free|
  {
    if i + 1 < |free| then free[i + 1].addr else free[0].addr
  }

  // The headers in memory spell out the list.
  ghost predicate Chained(m: Mem, free: seq<Blk>) {
    SizesSpelt(m, free) && forall i | 0 <= i < |free| :: At(m.ptr, free[i].addr) == NextAddr(free, i)
  }

  ghost predicate SizesSpelt(m: Mem, free: seq<Blk>) {
    forall i | 0 <= i < |free| :: At(m.size, free[i].addr) == free[i].size
  }

  // ---- Live blocks ----

  ghost predicate LiveOk(m: Mem, live: map<nat, nat>) {
    && (forall a | a in live :: live[a] > 0 && At(m.size, a) == live[a])
    && (forall a, b | a in live && b in live && a != b :: a + live[a] <= b || b + live[b] <= a)
  }

  ghost predicate Clear(b: Blk, live: map<nat, nat>) {
    forall a | a in live :: b.addr + b.size <= a || a + live[a] <= b.addr
  }

  ghost predicate Apart(free: seq<Blk>, live: map<nat, nat>) {
    forall i | 0 <= i < |free| :: Clear(free[i], live)
  }

  ghost predicate Within(free: seq<Blk>, live: map<nat, nat>, base: nat, brk: nat) {
    && (forall i | 0 <= i < |free| :: free[i].addr + free[i].size <= brk)
    && (forall a | a in live :: base < a && a + live[a] <= brk)
  }

  function FreeUnits(free: seq<Blk>): nat {
    if free == [] then 0 else FreeUnits(free[..|free| - 1]) + free[|free| - 1].size
  }

  ghost function LiveUnits(live: map<nat, nat>): nat {
    if live == map[] then 0 else
      var a :| a in live;
      live[a] + LiveUnits(live - {a})
  }

  // The whole heap: list, live blocks, and every unit obtained from sbrk() in one of them.
  ghost predicate HeapOk(m: Mem, free: seq<Blk>, live: map<nat, nat>, base: nat, brk: nat, total: nat) {
    && base > 0
    && Ordered(free, base) && Chained(m, free)
    && LiveOk(m, live) && Apart(free, live) && Within(free, live, base, brk)
    && FreeUnits(free) + LiveUnits(live) == total
  }

  // ---- Counting units ----

  lemma {:induction false} FreeUnitsConcat(u: seq<Blk>, v: seq<Blk>)
    ensures FreeUnits(u + v) == FreeUnits(u) + FreeUnits(v)
  {
    if v == [] {
      assert u + v == u;
    } else {
      assert (u + v)[..|u + v| - 1] == u + v[..|v| - 1];
      FreeUnitsConcat(u, v[..|v| - 1]);
    }
  }

  lemma FreeUnitsOne(b: Blk)
    ensures FreeUnits([b]) == b.size
  {
  }

  lemma {:induction false} LiveUnitsLess(live: map<nat, nat>, a: nat)
    requires a in live
    ensures LiveUnits(live) == live[a] + LiveUnits(live - {a})
    decreases |live|
  {
    var b :| b in live && LiveUnits(live) == live[b] + LiveUnits(live - {b});
    if a != b {
      var rest := live - {b};
      LiveUnitsLess(rest, a);
      assert (live - {a}) - {b} == rest - {a};
      LiveUnitsLess(live - {a}, b);
    }
  }

  lemma LiveUnitsMore(live: map<nat, nat>, a: nat, n: nat)
    requires a !in live
    ensures LiveUnits(live[a := n]) == LiveUnits(live) + n
  {
    assert live[a := n] - {a} == live;
    LiveUnitsLess(live[a := n], a);
  }

  // ---- free(): where the block goes ----

  // Block number i is the last one below address a.
  ghost predicate InsertAt(free: seq<Blk>, a: nat, i: nat) {
    i < |free| && free[i].addr < a && (i + 1 < |free| ==> a < free[i + 1].addr)
  }

  // There is such a block, whatever the list.
  lemma {:induction false} InsertionPoint(free: seq<Blk>, base: nat, a: nat) returns (i: nat)
    requires Ordered(free, base) && base < a && forall k | 0 <= k < |free| :: free[k].addr != a
    ensures InsertAt(free, a, i)
  {
    i := 0;
    while i + 1 < |free| && free[i + 1].addr < a
      invariant i < |free| && free[i].addr < a
    {
      i := i + 1;
    }
  }

  // The test that ends the search of free() holds at that block and at no other.
  predicate Stop(p: nat, next: nat, bp: nat) {
    (bp > p && bp < next) || (p >= next && (bp > p || bp < next))
  }

  lemma StopsThere(free: seq<Blk>, base: nat, a: nat, i: nat, k: nat)
    requires Ordered(free, base) && InsertAt(free, a, i) && base < a && k < |free|
    ensures Stop(free[k].addr, NextAddr(free, k), a) <==> k == i
  {
    if k < i {
      assert free[k + 1].addr <= free[i].addr;
    }
    if k > i {
      assert free[i + 1].addr <= free[k].addr;
    }
  }

  // ---- Changing one place of the list ----

  function Without(free: seq<Blk>, k: nat): (w: seq<Blk>)
    requires k < |free|
    ensures |w| == |free| - 1
    ensures forall i | 0 <= i < |w| :: w[i] == free[if i < k then i else i + 1]
  {
    free[..k] + free[k + 1..]
  }

  function With(free: seq<Blk>, k: nat, b: Blk): (w: seq<Blk>)
    requires k <= |free|
    ensures |w| == |free| + 1 && w[k] == b
    ensures forall i | 0 <= i < |w| && i != k :: w[i] == free[if i < k then i else i - 1]
  {
    free[..k] + [b] + free[k..]
  }

  lemma {:induction false} WithoutUnits(free: seq<Blk>, k: nat)
    requires k < |free|
    ensures FreeUnits(Without(free, k)) == FreeUnits(free) - free[k].size
  {
    assert free == free[..k] + ([free[k]] + free[k + 1..]);
    FreeUnitsConcat(free[..k], [free[k]] + free[k + 1..]);
    FreeUnitsConcat([free[k]], free[k + 1..]);
    FreeUnitsOne(free[k]);
    FreeUnitsConcat(free[..k], free[k + 1..]);
  }

  lemma {:induction false} WithUnits(free: seq<Blk>, k: nat, b: Blk)
    requires k <= |free|
    ensures FreeUnits(With(free, k, b)) == FreeUnits(free) + b.size
  {
    hide FreeUnits, With, Without;
    assert Without(With(free, k, b), k) == free;
    WithoutUnits(With(free, k, b), k);
  }

  lemma {:induction false} ResizedUnits(free: seq<Blk>, k: nat, n: nat)
    requires k < |free|
    ensures FreeUnits(free[k := free[k].(size := n)]) == FreeUnits(free) - free[k].size + n
  {
    hide FreeUnits, With, Without;
    assert free[k := free[k].(size := n)] == With(Without(free, k), k, free[k].(size := n));
    WithoutUnits(free, k);
    WithUnits(Without(free, k), k, free[k].(size := n));
  }

  lemma WithoutOrdered(free: seq<Blk>, base: nat, k: nat)
    requires Ordered(free, base) && 1 <= k < |free|
    ensures Ordered(Without(free, k), base)
  {
  }

  // b lies in the gap after block i, clear of the block above.
  ghost predicate Gap(free: seq<Blk>, i: nat, b: Blk) {
    && i < |free| && b.size > 0
    && free[i].addr + free[i].size <= b.addr
    && (i + 1 < |free| ==> b.addr + b.size < free[i + 1].addr)
  }

  lemma WithOrdered(free: seq<Blk>, base: nat, i: nat, b: Blk)
    requires Ordered(free, base) && Gap(free, i, b) && free[i].addr + free[i].size != b.addr
    ensures Ordered(With(free, i + 1, b), base)
  {
    hide With;
    var w := With(free, i + 1, b);
    forall x, y | 0 <= x < y < |w|
      ensures w[x].addr + w[x].size < w[y].addr
    {
      if x <= i && y == i + 1 {
        assert w[x] == free[x] && (x < i ==> free[x].addr + free[x].size < free[i].addr);
      } else if x == i + 1 {
        assert w[y] == free[y - 1] && (y > i + 2 ==> free[i + 1].addr < free[y - 1].addr);
      } else {
        assert w[x] == free[if x <= i then x else x - 1] && w[y] == free[if y <= i then y else y - 1];
      }
    }
    assert forall x | 1 <= x < |w| :: w[x].size > 0;
  }

  lemma GrownOrdered(free: seq<Blk>, base: nat, i: nat, b: Blk)
    requires Ordered(free, base) && Gap(free, i, b) && free[i].addr + free[i].size == b.addr && i > 0
    ensures Ordered(free[i := free[i].(size := free[i].size + b.size)], base)
  {
  }

  // ---- free(): the two merges ----

  // Merge with the block above p, or link to it.
  function AbsorbMem(m: Mem, p: nat, bp: nat): Mem {
    var next := At(m.ptr, p);
    if bp + At(m.size, bp) == next
    then Mem(m.ptr[bp := At(m.ptr, next)], m.size[bp := At(m.size, bp) + At(m.size, next)])
    else m.(ptr := m.ptr[bp := next])
  }

  // Merge into block p below, or link from it.
  function JoinMem(m: Mem, p: nat, bp: nat): Mem {
    if p + At(m.size, p) == bp
    then Mem(m.ptr[p := At(m.ptr, bp)], m.size[p := At(m.size, p) + At(m.size, bp)])
    else m.(ptr := m.ptr[p := bp])
  }

  // All links but the one of block i are as in the list.
  ghost predicate ChainedBut(m: Mem, free: seq<Blk>, i: nat) {
    SizesSpelt(m, free) && forall k | 0 <= k < |free| && k != i :: At(m.ptr, free[k].addr) == NextAddr(free, k)
  }

  ghost predicate NotListed(free: seq<Blk>, a: nat) {
    forall k | 0 <= k < |free| :: free[k].addr != a
  }

  // The list once the block above has been absorbed, if it is adjacent.
  function Absorbed(free: seq<Blk>, i: nat, a: nat, n: nat): seq<Blk>
    requires i < |free|
  {
    if i + 1 < |free| && a + n == free[i + 1].addr then Without(free, i + 1) else free
  }

  lemma Absorb(m: Mem, free: seq<Blk>, base: nat, a: nat, i: nat)
    requires Ordered(free, base) && Chained(m, free) && InsertAt(free, a, i) && NotListed(free, a) && base < a
    requires
      var n := At(m.size, a);
      n > 0 && free[i].addr + free[i].size <= a && (i + 1 < |free| ==> a + n <= free[i + 1].addr)
    ensures
      var m' := AbsorbMem(m, free[i].addr, a);
      var free' := Absorbed(free, i, a, At(m.size, a));
      var b := Blk(a, At(m'.size, a));
      && Ordered(free', base) && i < |free'| && free'[i] == free[i] && Gap(free', i, b) && NotListed(free', a)
      && ChainedBut(m', free', i) && At(m'.ptr, a) == NextAddr(free', i)
      && FreeUnits(free') + b.size == FreeUnits(free) + At(m.size, a)
  {
    hide FreeUnits, Without, NextAddr, Ordered, Chained;
    var n := At(m.size, a);
    AbsorbWhen(m, free, base, a, i);
    if i + 1 < |free| && a + n == free[i + 1].addr {
      WithoutOrdered(free, base, i + 1);
      WithoutUnits(free, i + 1);
      AbsorbLinks(m, free, a, i);
      if i + 2 < |free| {
        NextBeyond(free, base, i + 1);
      }
    } else {
      LinkLinks(m, free, a, i);
    }
  }

  lemma NextBeyond(free: seq<Blk>, base: nat, k: nat)
    requires Ordered(free, base) && k + 1 < |free|
    ensures free[k].addr + free[k].size < free[k + 1].addr
  {
  }

  // The test of free() for an adjacent block above is never met by the wrap to base.
  lemma AbsorbWhen(m: Mem, free: seq<Blk>, base: nat, a: nat, i: nat)
    requires Ordered(free, base) && Chained(m, free) && i < |free| && base < a
    ensures At(m.ptr, free[i].addr) == NextAddr(free, i) && At(m.size, free[i].addr) == free[i].size
    ensures a + At(m.size, a) == At(m.ptr, free[i].addr) <==> i + 1 < |free| && a + At(m.size, a) == free[i + 1].addr
    ensures i + 1 < |free| ==>
              At(m.size, free[i + 1].addr) == free[i + 1].size && At(m.ptr, free[i].addr) == free[i + 1].addr
  {
  }

  lemma LinkLinks(m: Mem, free: seq<Blk>, a: nat, i: nat)
    requires Chained(m, free) && NotListed(free, a) && i < |free| && a + At(m.size, a) != At(m.ptr, free[i].addr)
    ensures
      var m' := AbsorbMem(m, free[i].addr, a);
      ChainedBut(m', free, i) && At(m'.ptr, a) == NextAddr(free, i) && At(m'.size, a) == At(m.size, a)
  {
  }

  lemma {:induction false} AbsorbLinks(m: Mem, free: seq<Blk>, a: nat, i: nat)
    requires Chained(m, free) && NotListed(free, a) && i + 1 < |free| && a + At(m.size, a) == free[i + 1].addr
    requires At(m.ptr, free[i].addr) == free[i + 1].addr
    ensures
      var m', w := AbsorbMem(m, free[i].addr, a), Without(free, i + 1);
      ChainedBut(m', w, i) && At(m'.ptr, a) == NextAddr(w, i) && NotListed(w, a)
  {
    hide Without, NextAddr;
    var m', w := AbsorbMem(m, free[i].addr, a), Without(free, i + 1);
    assert At(m.ptr, free[i + 1].addr) == NextAddr(free, i + 1);
    WithoutNext(free, i + 1, i);
    forall k | 0 <= k < |w| && k != i
      ensures At(m'.ptr, w[k].addr) == NextAddr(w, k)
    {
      WithoutNext(free, i + 1, k);
      var j := if k < i + 1 then k else k + 1;
      assert w[k] == free[j] && At(m.ptr, free[j].addr) == NextAddr(free, j);
    }
  }

  // The list once b has been merged into block i or inserted after it.
  function Joined(free: seq<Blk>, i: nat, b: Blk): seq<Blk>
    requires i < |free|
  {
    if free[i].addr + free[i].size == b.addr then free[i := free[i].(size := free[i].size + b.size)]
    else With(free, i + 1, b)
  }

  lemma Join(m: Mem, free: seq<Blk>, base: nat, i: nat, b: Blk)
    requires Ordered(free, base) && Gap(free, i, b) && NotListed(free, b.addr) && base < b.addr
    requires ChainedBut(m, free, i) && At(m.ptr, b.addr) == NextAddr(free, i) && At(m.size, b.addr) == b.size
    ensures
      var m', free' := JoinMem(m, free[i].addr, b.addr), Joined(free, i, b);
      && Ordered(free', base) && Chained(m', free')
      && FreeUnits(free') == FreeUnits(free) + b.size
      && i < |free'| && free'[i].addr == free[i].addr
  {
    hide FreeUnits, With, Ordered, Chained, NextAddr, NotListed;
    assert At(m.size, free[i].addr) == free[i].size;
    if free[i].addr + free[i].size == b.addr {
      assert i > 0 by { BaseNotAdjacent(free, base, i, b.addr); }
      GrownOrdered(free, base, i, b);
      ResizedUnits(free, i, free[i].size + b.size);
      JoinGrown(m, free, base, i, b);
    } else {
      WithOrdered(free, base, i, b);
      WithUnits(free, i + 1, b);
      JoinLinks(m, free, base, i, b);
    }
  }

  lemma JoinGrown(m: Mem, free: seq<Blk>, base: nat, i: nat, b: Blk)
    requires Ordered(free, base) && i < |free| && ChainedBut(m, free, i) && free[i].addr + free[i].size == b.addr
    requires At(m.ptr, b.addr) == NextAddr(free, i) && At(m.size, b.addr) == b.size
    ensures Chained(JoinMem(m, free[i].addr, b.addr), free[i := free[i].(size := free[i].size + b.size)])
  {
    hide NextAddr, Ordered;
    var g, m' := free[i := free[i].(size := free[i].size + b.size)], JoinMem(m, free[i].addr, b.addr);
    assert At(m.size, free[i].addr) == free[i].size;
    forall k | 0 <= k < |g|
      ensures At(m'.ptr, g[k].addr) == NextAddr(g, k) && At(m'.size, g[k].addr) == g[k].size
    {
      ResizedNext(free, i, free[i].size + b.size, k);
      AddrsDiffer(free, base, i, k);
    }
  }

  lemma ResizedNext(free: seq<Blk>, i: nat, n: nat, k: nat)
    requires i < |free| && k < |free|
    ensures NextAddr(free[i := free[i].(size := n)], k) == NextAddr(free, k)
  {
  }

  lemma BaseNotAdjacent(free: seq<Blk>, base: nat, i: nat, a: nat)
    requires Ordered(free, base) && base < a && i < |free| && free[i].addr + free[i].size == a
    ensures i > 0
  {
  }

  lemma JoinLinks(m: Mem, free: seq<Blk>, base: nat, i: nat, b: Blk)
    requires Ordered(free, base) && i < |free| && ChainedBut(m, free, i) && free[i].addr + free[i].size != b.addr
    requires At(m.ptr, b.addr) == NextAddr(free, i) && At(m.size, b.addr) == b.size && NotListed(free, b.addr)
    ensures Chained(JoinMem(m, free[i].addr, b.addr), With(free, i + 1, b))
  {
    hide With, NextAddr, Ordered;
    var w, m' := With(free, i + 1, b), JoinMem(m, free[i].addr, b.addr);
    assert At(m.size, free[i].addr) == free[i].size;
    forall k | 0 <= k < |w|
      ensures At(m'.ptr, w[k].addr) == NextAddr(w, k) && At(m'.size, w[k].addr) == w[k].size
    {
      WithNext(free, i, b, k);
      AddrsDiffer(free, base, i, if k <= i then k else k - 1);
    }
  }

  lemma AddrsDiffer(free: seq<Blk>, base: nat, i: nat, k: nat)
    requires Ordered(free, base) && i < |free|
    ensures k < |free| && k != i ==> free[k].addr != free[i].addr
  {
  }

  // The successor of each block in the list with b inserted.
  lemma WithNext(free: seq<Blk>, i: nat, b: Blk, k: nat)
    requires i < |free| && k <= |free|
    ensures
      var w := With(free, i + 1, b);
      NextAddr(w, k) ==
      if k == i then b.addr else if k == i + 1 then NextAddr(free, i)
      else NextAddr(free, if k < i then k else k - 1)
  {
  }

  // ---- free() on the whole heap ----

  // A live block lies in the gap of the list that its address falls into.
  lemma LiveInGap(m: Mem, free: seq<Blk>, live: map<nat, nat>, base: nat, brk: nat, total: nat, a: nat, i: nat)
    requires HeapOk(m, free, live, base, brk, total) && a in live && InsertAt(free, a, i)
    ensures NotListed(free, a) && At(m.size, a) == live[a] > 0 && base < a
    ensures free[i].addr + free[i].size <= a && (i + 1 < |free| ==> a + live[a] <= free[i + 1].addr)
  {
  }

  lemma AbsorbedApart(m: Mem, free: seq<Blk>, live: map<nat, nat>, a: nat, i: nat)
    requires LiveOk(m, live) && Apart(free, live) && a in live && i < |free|
    ensures
      var n, rest := live[a], live - {a};
      var size := if i + 1 < |free| && a + n == free[i + 1].addr then n + free[i + 1].size else n;
      && Apart(Absorbed(free, i, a, n), rest)
      && Clear(Blk(a, size), rest)
  {
  }

  lemma JoinedApart(free: seq<Blk>, i: nat, b: Blk, live: map<nat, nat>)
    requires Apart(free, live) && Clear(b, live) && i < |free| && forall a | a in live :: live[a] > 0
    ensures Apart(Joined(free, i, b), live)
  {
  }

  lemma JoinedWithin(free: seq<Blk>, i: nat, a: nat, n: nat, size: nat, brk: nat)
    requires i < |free| && forall k | 0 <= k < |free| :: free[k].addr + free[k].size <= brk
    requires a + n <= brk
    requires size == if i + 1 < |free| && a + n == free[i + 1].addr then n + free[i + 1].size else n
    requires i < |Absorbed(free, i, a, n)|
    ensures
      var free' := Joined(Absorbed(free, i, a, n), i, Blk(a, size));
      forall k | 0 <= k < |free'| :: free'[k].addr + free'[k].size <= brk
  {
  }

  // The headers of live blocks are untouched by the merges.
  lemma LiveHeadersKept(m: Mem, free: seq<Blk>, live: map<nat, nat>, base: nat, a: nat, i: nat)
    requires LiveOk(m, live) && Apart(free, live) && a in live && i < |free| && Ordered(free, base)
    requires forall x | x in live :: base < x
    ensures LiveOk(JoinMem(AbsorbMem(m, free[i].addr, a), free[i].addr, a), live - {a})
  {
    assert Clear(free[i], live);
  }

  lemma FreeKeepsHeap(m: Mem, free: seq<Blk>, live: map<nat, nat>, base: nat, brk: nat, total: nat, a: nat, i: nat)
    requires HeapOk(m, free, live, base, brk, total) && a in live && InsertAt(free, a, i)
    ensures
      var m1 := AbsorbMem(m, free[i].addr, a);
      var free1 := Absorbed(free, i, a, live[a]);
      && i < |free1|
      && var free2 := Joined(free1, i, Blk(a, At(m1.size, a)));
      && HeapOk(JoinMem(m1, free[i].addr, a), free2, live - {a}, base, brk, total)
      && i < |free2| && free2[i].addr == free[i].addr
      && (free2[i].size >= live[a] || (i + 1 < |free2| && free2[i + 1].size >= live[a]))
  {
    hide Ordered, Chained, NextAddr, Clear, FreeUnits, LiveUnits, With, Without;
    LiveInGap(m, free, live, base, brk, total, a, i);
    Absorb(m, free, base, a, i);
    var m1 := AbsorbMem(m, free[i].addr, a);
    var free1 := Absorbed(free, i, a, live[a]);
    var b := Blk(a, At(m1.size, a));
    AbsorbSize(m, free, base, a, i);
    Join(m1, free1, base, i, b);
    LiveUnitsLess(live, a);
    AbsorbedApart(m, free, live, a, i);
    JoinedApart(free1, i, b, live - {a});
    LiveHeadersKept(m, free, live, base, a, i);
    JoinedWithin(free, i, a, live[a], b.size, brk);
  }

  lemma AbsorbSize(m: Mem, free: seq<Blk>, base: nat, a: nat, i: nat)
    requires Ordered(free, base) && Chained(m, free) && i < |free| && NotListed(free, a) && base < a
    ensures
      At(AbsorbMem(m, free[i].addr, a).size, a) ==
      if i + 1 < |free| && a + At(m.size, a) == free[i + 1].addr then At(m.size, a) + free[i + 1].size
      else At(m.size, a)
  {
  }

  // ---- malloc(): taking a block ----

  // The whole of block k leaves the list.
  function TakeMem(m: Mem, prevp: nat, p: nat): Mem {
    m.(ptr := m.ptr[prevp := At(m.ptr, p)])
  }

  lemma TakeWhole(m: Mem, free: seq<Blk>, live: map<nat, nat>, base: nat, brk: nat, total: nat, k: nat)
    requires HeapOk(m, free, live, base, brk, total) && 1 <= k < |free|
    ensures
      var b := free[k];
      && b.addr !in live
      && HeapOk(TakeMem(m, free[k - 1].addr, b.addr), Without(free, k), live[b.addr := b.size], base, brk, total)
  {
    hide Ordered, NextAddr, Clear, FreeUnits, LiveUnits, Without;
    var b := free[k];
    FreeNotLive(free, live, base, k);
    WithoutOrdered(free, base, k);
    WithoutUnits(free, k);
    LiveUnitsMore(live, b.addr, b.size);
    TakeLinks(m, free, base, k);
    TakeApart(m, free, live, base, k);
  }

  lemma FreeNotLive(free: seq<Blk>, live: map<nat, nat>, base: nat, k: nat)
    requires Ordered(free, base) && Apart(free, live) && 1 <= k < |free| && forall a | a in live :: live[a] > 0
    ensures free[k].addr !in live && free[k].size > 0 && base < free[k].addr
  {
  }

  lemma TakeLinks(m: Mem, free: seq<Blk>, base: nat, k: nat)
    requires Ordered(free, base) && Chained(m, free) && 1 <= k < |free|
    ensures Chained(TakeMem(m, free[k - 1].addr, free[k].addr), Without(free, k))
  {
    hide Without, NextAddr, Ordered;
    var w, m' := Without(free, k), TakeMem(m, free[k - 1].addr, free[k].addr);
    forall j | 0 <= j < |w|
      ensures At(m'.ptr, w[j].addr) == NextAddr(w, j)
    {
      WithoutNext(free, k, j);
      AddrsDiffer(free, base, k - 1, if j < k then j else j + 1);
    }
  }

  lemma WithoutNext(free: seq<Blk>, k: nat, j: nat)
    requires 1 <= k < |free| && j < |free| - 1
    ensures NextAddr(Without(free, k), j) == NextAddr(free, if j < k - 1 then j else j + 1)
  {
  }

  lemma TakeApart(m: Mem, free: seq<Blk>, live: map<nat, nat>, base: nat, k: nat)
    requires Ordered(free, base) && Chained(m, free) && LiveOk(m, live) && Apart(free, live) && 1 <= k < |free|
    ensures Apart(Without(free, k), live[free[k].addr := free[k].size])
    ensures LiveOk(TakeMem(m, free[k - 1].addr, free[k].addr), live[free[k].addr := free[k].size])
  {
    hide Without, NextAddr;
    var b, w := free[k], Without(free, k);
    assert Clear(b, live);
    assert At(m.size, b.addr) == b.size;
    forall j | 0 <= j < |w|
      ensures Clear(w[j], live[b.addr := b.size])
    {
      var x := if j < k then j else j + 1;
      assert w[j] == free[x] && Clear(free[x], live);
      assert free[x].addr + free[x].size < b.addr || b.addr + b.size < free[x].addr;
    }
  }

  // The tail of block k, n units long, leaves it.
  function SplitMem(m: Mem, p: nat, n: nat): Mem {
    var left := if At(m.size, p) >= n then At(m.size, p) - n else 0;
    m.(size := m.size[p := left][p + left := n])
  }

  lemma TakeTail(m: Mem, free: seq<Blk>, live: map<nat, nat>, base: nat, brk: nat, total: nat, k: nat, n: nat)
    requires HeapOk(m, free, live, base, brk, total) && 1 <= k < |free| && 0 < n < free[k].size
    ensures
      var left := free[k].size - n;
      var q := free[k].addr + left;
      && q !in live
      && HeapOk(SplitMem(m, free[k].addr, n), free[k := free[k].(size := left)], live[q := n], base, brk, total)
  {
    hide NextAddr, Clear, FreeUnits, LiveUnits;
    var left := free[k].size - n;
    var q := free[k].addr + left;
    ResizedUnits(free, k, left);
    TailApart(m, free, live, base, k, n);
    LiveUnitsMore(live, q, n);
    TailOrdered(free, base, k, left);
    TailLinks(m, free, base, k, n);
    assert free[0].addr + free[0].size < free[k].addr;
  }

  lemma TailOrdered(free: seq<Blk>, base: nat, k: nat, left: nat)
    requires Ordered(free, base) && 1 <= k < |free| && 0 < left <= free[k].size
    ensures Ordered(free[k := free[k].(size := left)], base)
  {
  }

  lemma TailLinks(m: Mem, free: seq<Blk>, base: nat, k: nat, n: nat)
    requires Ordered(free, base) && Chained(m, free) && 1 <= k < |free| && 0 < n < free[k].size
    ensures Chained(SplitMem(m, free[k].addr, n), free[k := free[k].(size := free[k].size - n)])
  {
    hide NextAddr, Ordered;
    var left := free[k].size - n;
    var g, m' := free[k := free[k].(size := left)], SplitMem(m, free[k].addr, n);
    assert At(m.size, free[k].addr) == free[k].size;
    forall j | 0 <= j < |g|
      ensures At(m'.ptr, g[j].addr) == NextAddr(g, j) && At(m'.size, g[j].addr) == g[j].size
    {
      ResizedNext(free, k, left, j);
      AddrsDiffer(free, base, k, j);
      InnerNotListed(free, base, k, free[k].addr + left, j);
    }
  }

  lemma InnerNotListed(free: seq<Blk>, base: nat, k: nat, a: nat, j: nat)
    requires Ordered(free, base) && k < |free| && j < |free| && free[k].addr < a < free[k].addr + free[k].size
    ensures free[j].addr != a
  {
  }

  lemma TailApart(m: Mem, free: seq<Blk>, live: map<nat, nat>, base: nat, k: nat, n: nat)
    requires Ordered(free, base) && Chained(m, free) && LiveOk(m, live) && Apart(free, live) && 1 <= k < |free|
    requires 0 < n < free[k].size
    ensures
      var left := free[k].size - n;
      var q := free[k].addr + left;
      && q !in live
      && Apart(free[k := free[k].(size := left)], live[q := n])
      && LiveOk(SplitMem(m, free[k].addr, n), live[q := n])
  {
    hide NextAddr;
    var left := free[k].size - n;
    var q := free[k].addr + left;
    var g := free[k := free[k].(size := left)];
    assert Clear(free[k], live);
    assert At(m.size, free[k].addr) == free[k].size;
    forall j | 0 <= j < |g|
      ensures Clear(g[j], live[q := n])
    {
      assert Clear(free[j], live);
    }
  }

  // ---- morecore(): a new block above everything ----

  lemma GrowHeap(m: Mem, free: seq<Blk>, live: map<nat, nat>, base: nat, brk: nat, total: nat, hp: nat, n: nat)
    requires HeapOk(m, free, live, base, brk, total) && brk <= hp && n > 0 && base < hp
    ensures hp !in live
    ensures HeapOk(m.(size := m.size[hp := n]), free, live[hp := n], base, hp + n, total + n)
  {
    hide FreeUnits, LiveUnits, NextAddr;
    assert hp !in live;
    LiveUnitsMore(live, hp, n);
    assert NotListed(free, hp) by {
      forall k | 0 <= k < |free|
        ensures free[k].addr != hp
      {
        assert free[k].addr + free[k].size <= brk;
      }
    }
    forall k | 0 <= k < |free|
      ensures Clear(free[k], live[hp := n])
    {
      assert Clear(free[k], live);
    }
  }

  // ---- The allocator ----

  // The slot d steps after slot `at` on a list of n slots.
  function Around(at: nat, d: nat, n: nat): (k: nat)
    requires at < n && d <= n
    ensures k < n
  {
    if at + d < n then at + d else at + d - n
  }

  // Units for a request: the 32-bit arithmetic of malloc().
  function Units(nbytes: nat): nat {
    (nbytes + 7) % 0x1_0000_0000 / 8 + 1
  }

  // The signed argument morecore() passes to sbrk() for such a request.
  function SbrkArg(nbytes: nat): int {
    var nu := if Units(nbytes) < 4096 then 4096 else Units(nbytes);
    var bytes := nu * 8 % 0x1_0000_0000;
    if bytes < 0x8000_0000 then bytes else bytes - 0x1_0000_0000
  }

  // morecore() asks for room enough exactly for requests up to 2^31 - 16 bytes; beyond
  // that the unit count or its product wraps, or turns negative. A block of that many units
  // holds the request exactly up to 2^32 - 8 bytes; beyond that it is a mere header.
  lemma RequestsThatFit(nbytes: nat)
    requires nbytes < 0x1_0000_0000
    ensures SbrkArg(nbytes) >= nbytes + 8 <==> nbytes <= 0x7FFF_FFF0
    ensures 8 * (Units(nbytes) - 1) >= nbytes <==> nbytes <= 0xFFFF_FFF8
    ensures nbytes > 0xFFFF_FFF8 ==> Units(nbytes) == 1
    ensures nbytes <= 0xFFFF_FFF8 ==> nbytes <= 8 * (Units(nbytes) - 1) < nbytes + 8
    ensures 8 * Units(nbytes) <= SbrkArg(nbytes) <==> nbytes <= 0x7FFF_FFF0 || nbytes > 0xFFFF_FFF8
  {
  }

  class Heap {
    const base: nat
    var mem: Mem
    var freep: nat              // 0 until the first malloc()

    ghost var free: seq<Blk>
    ghost var at: nat           // where in `free` freep points
    ghost var live: map<nat, nat>
    ghost var brk: nat
    ghost var total: nat        // units obtained from sbrk()

    ghost predicate Valid()
      reads this
    {
      if freep == 0
      then base > 0 && brk >= base && live == map[] && total == 0
      else HeapOk(mem, free, live, base, brk, total) && at < |free| && free[at].addr == freep
    }

    constructor (base: nat)
      requires base > 0
      ensures Valid() && freep == 0 && live == map[] && total == 0 && this.base == base && brk == base
    {
      this.base := base;
      mem := Mem(map[], map[]);
      freep := 0;
      free := [];
      at := 0;
      live := map[];
      brk := base;
      total := 0;
    }

    // The search of free(): from wherever freep points, it ends at the gap the block
    // belongs into.
    method FindGap(bp: nat, ghost i: nat) returns (p: nat)
      requires Valid() && freep != 0 && base < bp && InsertAt(free, bp, i)
      ensures p == free[i].addr
    {
      hide HeapOk, Ordered;
      p := freep;
      ghost var k: nat := at;
      SearchFacts(mem, free, live, base, brk, total, bp, i, k);
      while !(bp > p && bp < At(mem.ptr, p))
        invariant k < |free| && p == free[k].addr && At(mem.ptr, p) == NextAddr(free, k)
        invariant Stop(p, At(mem.ptr, p), bp) <==> k == i
        decreases if k <= i then i - k else i - k + |free|
      {
        if p >= At(mem.ptr, p) && (bp > p || bp < At(mem.ptr, p)) {
          return;
        }
        p := At(mem.ptr, p);
        k := if k + 1 < |free| then k + 1 else 0;
        SearchFacts(mem, free, live, base, brk, total, bp, i, k);
      }
    }

    // free(): merge with the block above, or link to it.
    method MergeAbove(p: nat, bp: nat)
      modifies this`mem
      ensures mem == AbsorbMem(old(mem), p, bp)
    {
      var next := At(mem.ptr, p);
      if bp + At(mem.size, bp) == next {
        mem := mem.(size := mem.size[bp := At(mem.size, bp) + At(mem.size, next)]);
        mem := mem.(ptr := mem.ptr[bp := At(mem.ptr, next)]);
      } else {
        mem := mem.(ptr := mem.ptr[bp := next]);
      }
    }

    // free(): merge into block p below, or link from it.
    method MergeBelow(p: nat, bp: nat)
      modifies this`mem
      ensures mem == JoinMem(old(mem), p, bp)
    {
      if p + At(mem.size, p) == bp {
        mem := mem.(size := mem.size[p := At(mem.size, p) + At(mem.size, bp)]);
        mem := mem.(ptr := mem.ptr[p := At(mem.ptr, bp)]);
      } else {
        mem := mem.(ptr := mem.ptr[p := bp]);
      }
    }

    // free() of a live block.
    method Free(ap: nat)
      requires Valid() && ap > 0 && ap - 1 in live && freep != 0
      modifies this`mem, this`freep, this`free, this`at, this`live
      ensures Valid() && freep != 0 && live == old(live) - {ap - 1}
      ensures free[at].size >= old(live)[ap - 1] || (at + 1 < |free| && free[at + 1].size >= old(live)[ap - 1])
    {
      hide HeapOk, Joined, Absorbed, Ordered, AbsorbMem, JoinMem;
      var bp: nat := ap - 1;
      LiveNotListed(mem, free, live, base, brk, total, bp);
      HeaderOfLive(mem, free, live, base, brk, total, bp);
      ghost var i := InsertionPoint(free, base, bp);
      var p := FindGap(bp, i);
      FreeKeepsHeap(mem, free, live, base, brk, total, bp, i);
      ghost var free1 := Absorbed(free, i, bp, live[bp]);
      MergeAbove(p, bp);
      ghost var m1 := mem;
      MergeBelow(p, bp);
      freep := p;
      free := Joined(free1, i, Blk(bp, At(m1.size, bp)));
      at := i;
      live := live - {bp};
    }

    // morecore(); `core` is what sbrk() would return, None for its failure.
    method Morecore(nunits: nat, core: Option<nat>) returns (ok: bool)
      requires Valid() && freep != 0 && nunits > 0 && (core.Some? ==> brk <= core.value && base < core.value)
      modifies this`mem, this`freep, this`free, this`at, this`live, this`brk, this`total
      ensures ok == core.Some? && Valid() && freep != 0 && live == old(live)
      ensures !ok ==>
                free == old(free) && at == old(at) && freep == old(freep) && mem == old(mem) && total == old(total) &&
                brk == old(brk)
      ensures ok ==> total == old(total) + (if nunits < 4096 then 4096 else nunits)
      ensures ok ==> free[at].size >= nunits || (at + 1 < |free| && free[at + 1].size >= nunits)
    {
      hide HeapOk;
      var nu := if nunits < 4096 then 4096 else nunits;
      if core.None? {
        return false;
      }
      var hp := core.value;
      GrowHeap(mem, free, live, base, brk, total, hp, nu);
      mem := mem.(size := mem.size[hp := nu]);
      live := live[hp := nu];
      brk := hp + nu;
      total := total + nu;
      Free(hp + 1);
      assert live == old(live);
      return true;
    }

    // The body of the search in malloc() once block p, list position k, is large enough.
    method Take(prevp: nat, p: nat, nunits: nat, ghost k: nat) returns (r: nat)
      requires Valid() && freep != 0 && nunits > 0
      requires 1 <= k < |free| && p == free[k].addr && prevp == free[k - 1].addr && free[k].size >= nunits
      modifies this`mem, this`freep, this`free, this`at, this`live
      ensures Valid() && freep != 0 && r > 0 && r - 1 !in old(live) && live == old(live)[r - 1 := nunits]
      ensures freep == prevp && r - 1 == p + old(free)[k].size - nunits
    {
      hide HeapOk, Without;
      ListHeaders(mem, free, live, base, brk, total, k);
      ListHeaders(mem, free, live, base, brk, total, k - 1);
      if At(mem.size, p) == nunits {
        TakeWhole(mem, free, live, base, brk, total, k);
        mem := mem.(ptr := mem.ptr[prevp := At(mem.ptr, p)]);
        free := Without(free, k);
        live := live[p := nunits];
        r := p + 1;
      } else {
        TakeTail(mem, free, live, base, brk, total, k, nunits);
        ghost var m0 := mem;
        mem := mem.(size := mem.size[p := At(mem.size, p) - nunits]);
        var q := p + At(mem.size, p);
        mem := mem.(size := mem.size[q := nunits]);
        assert mem == SplitMem(m0, p, nunits);
        free := free[k := free[k].(size := free[k].size - nunits)];
        live := live[q := nunits];
        r := q + 1;
      }
      freep := prevp;
      at := k - 1;
    }

    // The first call sets up a list of base alone.
    method Init(ghost nunits: nat)
      requires Valid() && nunits > 0
      modifies this`mem, this`freep, this`free, this`at
      ensures Valid() && freep != 0
      ensures old(Fits(nunits)) <==> exists i :: 0 <= i < |free| && free[i].size >= nunits
      ensures old(freep) != 0 ==> free == old(free) && at == old(at)
    {
      hide HeapOk;
      if freep == 0 {
        mem := Mem(mem.ptr[base := base], mem.size[base := 0]);
        freep := base;
        free := [Blk(base, 0)];
        at := 0;
        EmptyHeap(mem, base, brk);
      }
    }

    ghost predicate Fits(nunits: nat)
      reads this
    {
      freep != 0 && exists i :: 0 <= i < |free| && free[i].size >= nunits
    }

    // malloc(): first fit from freep on, asking for more memory at most once. None is a
    // failure, which happens only when no block fits and sbrk() refuses. sbrk() must be asked
    // for enough, or a block fit.
    method Malloc(nbytes: nat, core: Option<nat>) returns (r: Option<nat>, ghost calls: nat)
      requires Valid() && nbytes < 0x1_0000_0000 && (core.Some? ==> brk <= core.value && base < core.value)
      requires 8 * Units(nbytes) <= SbrkArg(nbytes) || Fits(Units(nbytes))
      modifies this
      ensures Valid() && freep != 0 && calls <= 1
      ensures r.Some? ==> r.value > 0 && r.value - 1 !in old(live) && live == old(live)[r.value - 1 := Units(nbytes)]
      ensures r.None? <==> core.None? && !old(Fits(Units(nbytes)))
      ensures r.None? ==> live == old(live)
      ensures r.Some? && old(freep) != 0 && calls == 0 ==> FirstFit(old(free), old(at), Units(nbytes), r.value - 1)
      ensures calls == 1 ==> !old(Fits(Units(nbytes)))
      ensures total == old(total) + if calls == 0 || core.None? then 0
                                    else if Units(nbytes) < 4096 then 4096 else Units(nbytes)
    {
      hide HeapOk, Walk, Fits, FirstFit;
      calls := 0;
      var nunits := (nbytes + 7) % 0x1_0000_0000 / 8 + 1;
      ghost var fits := Fits(nunits);
      Init(nunits);
      ghost var free0, at0 := free, at;
      var prevp := freep;
      ghost var d: nat := 1;
      WalkStarts(mem, free, live, base, brk, total, at, nunits);
      var p := At(mem.ptr, prevp);
      while true
        invariant Valid() && freep != 0 && calls <= 1 && live == old(live)
        invariant Walk(free, at, nunits, prevp, p, d) && 1 <= d <= |free|
        invariant calls == 0 ==> total == old(total) && brk == old(brk) && free == free0 && at == at0
        invariant calls == 1 ==> core.Some? && !fits && total == old(total) + (if nunits < 4096 then 4096 else nunits)
        invariant calls == 1 ==> free[at].size >= nunits || (at + 1 < |free| && free[at + 1].size >= nunits)
        decreases 1 - calls, |free| - d
      {
        if At(mem.size, p) >= nunits {
          ghost var k := WalkFits(mem, free, live, base, brk, total, at, nunits, prevp, p, d);
          FitFound(free, at, nunits, prevp, p, d, k);
          var a := Take(prevp, p, nunits, k);
          return Some(a), calls;
        }
        if p == freep {
          WalkEnds(mem, free, live, base, brk, total, at, nunits, prevp, p, d);
          assert calls == 0 && !fits;
          var ok := Morecore(nunits, core);
          calls := 1;
          if !ok {
            return None, calls;
          }
          WalkStarts(mem, free, live, base, brk, total, at, nunits);
          p := freep;
          d := 0;
        } else {
          WalkGoesOn(mem, free, live, base, brk, total, at, nunits, prevp, p, d);
        }
        prevp := p;
        p := At(mem.ptr, p);
        d := d + 1;
      }
    }
  }

  // Address a is the tail of n units of the first block large enough, going round the list from
  // the one after position `at`.
  ghost predicate FirstFit(free: seq<Blk>, at: nat, n: nat, a: nat) {
    exists d: nat :: Fit(free, at, n, a, d)
  }

  ghost predicate Fit(free: seq<Blk>, at: nat, n: nat, a: nat, d: nat) {
    && at < |free| && 1 <= d <= |free|
    && var b := free[Around(at, d, |free|)];
    && b.size >= n && a == b.addr + b.size - n
    && forall e | 1 <= e < d :: free[Around(at, e, |free|)].size < n
  }

  lemma FitFound(free: seq<Blk>, at: nat, n: nat, prevp: nat, p: nat, d: nat, k: nat)
    requires Walk(free, at, n, prevp, p, d) && k == Around(at, d, |free|) && free[k].size >= n
    ensures FirstFit(free, at, n, p + free[k].size - n)
  {
    assert Fit(free, at, n, p + free[k].size - n, d);
  }

  // The search of malloc() has passed d - 1 blocks after the one at position `at`, none of
  // them large enough, and looks at block p next.
  ghost predicate Walk(free: seq<Blk>, at: nat, nunits: nat, prevp: nat, p: nat, d: nat) {
    && at < |free| && 1 <= d <= |free|
    && p == free[Around(at, d, |free|)].addr && prevp == free[Around(at, d - 1, |free|)].addr
    && forall e | 1 <= e < d :: free[Around(at, e, |free|)].size < nunits
  }

  lemma WalkStarts(m: Mem, free: seq<Blk>, live: map<nat, nat>, base: nat, brk: nat, total: nat, at: nat, nunits: nat)
    requires HeapOk(m, free, live, base, brk, total) && at < |free|
    ensures Walk(free, at, nunits, free[at].addr, At(m.ptr, free[at].addr), 1)
  {
  }

  lemma WalkFits(m: Mem, free: seq<Blk>, live: map<nat, nat>, base: nat, brk: nat, total: nat, at: nat, nunits: nat,
                 prevp: nat, p: nat, d: nat)
    returns (k: nat)
    requires HeapOk(m, free, live, base, brk, total) && Walk(free, at, nunits, prevp, p, d)
    requires nunits > 0 && At(m.size, p) >= nunits
    ensures 1 <= k < |free| && p == free[k].addr && prevp == free[k - 1].addr && free[k].size >= nunits
    ensures at < |free| && d <= |free| && k == Around(at, d, |free|)
  {
    hide HeapOk;
    k := Around(at, d, |free|);
    ListHeaders(m, free, live, base, brk, total, k);
  }

  lemma WalkGoesOn(m: Mem, free: seq<Blk>, live: map<nat, nat>, base: nat, brk: nat, total: nat, at: nat, nunits: nat,
                   prevp: nat, p: nat, d: nat)
    requires HeapOk(m, free, live, base, brk, total) && Walk(free, at, nunits, prevp, p, d)
    requires At(m.size, p) < nunits && p != free[at].addr
    ensures d < |free| && Walk(free, at, nunits, p, At(m.ptr, p), d + 1)
  {
    hide HeapOk;
    ListHeaders(m, free, live, base, brk, total, Around(at, d, |free|));
  }

  lemma WalkEnds(m: Mem, free: seq<Blk>, live: map<nat, nat>, base: nat, brk: nat, total: nat, at: nat, nunits: nat,
                 prevp: nat, p: nat, d: nat)
    requires HeapOk(m, free, live, base, brk, total) && Walk(free, at, nunits, prevp, p, d)
    requires At(m.size, p) < nunits && p == free[at].addr
    ensures forall i | 0 <= i < |free| :: free[i].size < nunits
  {
    hide HeapOk;
    var k := Around(at, d, |free|);
    ListHeaders(m, free, live, base, brk, total, k);
    ListDistinct(m, free, live, base, brk, total, k, at);
    assert d == |free|;
    AllVisited(free, at, nunits);
  }

  lemma EmptyHeap(m: Mem, base: nat, brk: nat)
    requires base > 0 && brk >= base && At(m.ptr, base) == base && At(m.size, base) == 0
    ensures HeapOk(m, [Blk(base, 0)], map[], base, brk, 0)
  {
  }

  // What the headers on the list hold; base is the only block of size 0.
  lemma ListHeaders(m: Mem, free: seq<Blk>, live: map<nat, nat>, base: nat, brk: nat, total: nat, k: nat)
    requires HeapOk(m, free, live, base, brk, total) && k < |free|
    ensures At(m.ptr, free[k].addr) == NextAddr(free, k) && At(m.size, free[k].addr) == free[k].size
    ensures free[k].addr > 0 && (k == 0 ==> free[k].size == 0)
  {
  }

  lemma ListDistinct(m: Mem, free: seq<Blk>, live: map<nat, nat>, base: nat, brk: nat, total: nat, j: nat, k: nat)
    requires HeapOk(m, free, live, base, brk, total) && j < |free| && k < |free| && free[j].addr == free[k].addr
    ensures j == k
  {
  }

  // Going once round the list visits every block.
  lemma AllVisited(free: seq<Blk>, at: nat, nunits: nat)
    requires at < |free| && forall e | 1 <= e < |free| :: free[Around(at, e, |free|)].size < nunits
    requires free[at].size < nunits
    ensures forall i | 0 <= i < |free| :: free[i].size < nunits
  {
    forall i | 0 <= i < |free|
      ensures free[i].size < nunits
    {
      if i != at {
        assert Around(at, if i > at then i - at else i - at + |free|, |free|) == i;
      }
    }
  }

  lemma HeaderOfLive(m: Mem, free: seq<Blk>, live: map<nat, nat>, base: nat, brk: nat, total: nat, a: nat)
    requires HeapOk(m, free, live, base, brk, total) && a in live
    ensures At(m.size, a) == live[a] && Ordered(free, base) && forall k | 0 <= k < |free| :: free[k].addr > 0
  {
  }

  // What the search of free() reads at block k.
  lemma SearchFacts(m: Mem, free: seq<Blk>, live: map<nat, nat>, base: nat, brk: nat, total: nat, a: nat, i: nat,
                    k: nat)
    requires HeapOk(m, free, live, base, brk, total) && InsertAt(free, a, i) && base < a && k < |free|
    ensures At(m.ptr, free[k].addr) == NextAddr(free, k)
    ensures Stop(free[k].addr, NextAddr(free, k), a) <==> k == i
  {
    hide FreeUnits, LiveUnits, NextAddr;
    StopsThere(free, base, a, i, k);
  }

  lemma LiveNotListed(m: Mem, free: seq<Blk>, live: map<nat, nat>, base: nat, brk: nat, total: nat, a: nat)
    requires HeapOk(m, free, live, base, brk, total) && a in live
    ensures base < a && forall k | 0 <= k < |free| :: free[k].addr != a
  {
  }
}
