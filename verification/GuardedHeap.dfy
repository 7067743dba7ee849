/** A guard-paged heap on an address space: the heap's books and the page tables agree over every run. */
module GuardedHeap {
  import H = Heap
  import P = PageTables
  import opened HeapChunk

  /** The page table entry of a page the heap protects. */
  predicate Protected(e: P.Word) {
    P.StatusOf(e) == P.HeapGuardPage
  }

  /** A page-aligned address and the number of its page. */
  lemma PageNumber(g: nat, h: nat)
    requires g % PAGE == 0 && h % PAGE == 0
    ensures g / PAGE * PAGE == g && (g / PAGE == h / PAGE <==> g == h)
  {
  }

  class GuardedHeap {
    const heap: H.Heap
    const space: P.AddressSpace

    /** The regions given to the heap lie below 4 GiB, and the directory has a table for each of their pages. */
    ghost predicate Tabled(base: nat)
      reads space, space.l0
    {
      space.Valid() && forall u: nat :: base <= u * PAGE < base + heap.chunkSize ==> u < P.PAGES && space.l0[u / P.NENTRIES] != P.ZERO
    }

    ghost predicate Tables()
      reads space, space.l0
    {
      space.Valid() && forall k :: 0 <= k < |heap.regions| ==> Tabled(heap.regions[k])
    }

    /** Every page the heap's books call a guard page is one in the page tables. */
    ghost predicate Agrees(guards: set<int>)
      reads space, space.l0, space.arrays
    {
      space.Valid() && forall g :: g in guards ==>
        0 <= g && g % PAGE == 0 && g / PAGE < P.PAGES && Protected(space.Entry(g / PAGE))
    }

    /** The flat map is `before`, except perhaps on guard pages. */
    ghost predicate SameUnguarded(before: seq<P.Word>, guards: set<int>)
      requires |before| == P.PAGES
      reads space, space.l0, space.arrays
    {
      space.Valid() && forall w :: 0 <= w < P.PAGES && w * PAGE !in guards ==> space.Entry(w) == before[w]
    }

    ghost predicate Valid()
      reads this, heap, heap.Repr, space, space.l0, space.arrays
    {
      heap.Valid() && heap.guarded && Tables() && Agrees(heap.guardPages)
    }

    constructor (heap: H.Heap, space: P.AddressSpace)
      requires heap.Valid() && heap.guarded && heap.guardPages == {} && space.Valid()
      requires forall k, u: nat :: 0 <= k < |heap.regions| && heap.regions[k] <= u * PAGE < heap.regions[k] + heap.chunkSize ==>
                 u < P.PAGES && space.l0[u / P.NENTRIES] != P.ZERO
      ensures Valid() && this.heap == heap && this.space == space
    {
      this.heap, this.space := heap, space;
    }

    /** The page number of a live allocation's guard page, which has a table. */
    lemma GuardTabled(m: nat)
      requires heap.Valid() && heap.guarded && Tables() && m < |heap.allocations|
      ensures var g := H.GuardPage(heap.allocations[m]);
              0 <= g && g % PAGE == 0 && g / PAGE < P.PAGES && space.l0[g / PAGE / P.NENTRIES] != P.ZERO
    {
      var g := H.GuardPage(heap.allocations[m]);
      heap.GuardPageOwn(m);
      var k := heap.GuardPageInRegion(m);
      PageNumber(g, g);
      assert Tabled(heap.regions[k]);
      assert heap.regions[k] <= g / PAGE * PAGE < heap.regions[k] + heap.chunkSize;
    }

    /** Heap::malloc with its call of setGuardPage; `ok` is false where that panics. */
    method Malloc(req: nat) returns (r: H.MallocResult, ok: bool)
      requires Valid()
      modifies heap, heap.Repr, space.arrays
      ensures Valid() && ok && fresh(heap.Repr - old(heap.Repr)) && old(heap.Repr) <= heap.Repr
      ensures r.Ptr? ==> |heap.allocations| == |old(heap.allocations)| + 1
      ensures !r.Ptr? ==> heap.allocations == old(heap.allocations)
      ensures r.Ptr? ==> space.Same(old(space.Flat()), NewGuard() / PAGE)
      ensures !r.Ptr? ==> space.Flat() == old(space.Flat())
    {
      ok := true;
      r := MallocIt(req);
      if r.Ptr? {
        ok := Protect(old(heap.guardPages));
      }
    }

    method MallocIt(req: nat) returns (r: H.MallocResult)
      requires Valid()
      modifies heap, heap.Repr
      ensures heap.Valid() && Tables() && Agrees(old(heap.guardPages))
      ensures fresh(heap.Repr - old(heap.Repr)) && old(heap.Repr) <= heap.Repr
      ensures r.Ptr? ==> |heap.allocations| == |old(heap.allocations)| + 1 && heap.guardPages == old(heap.guardPages) + {NewGuard()}
      ensures !r.Ptr? ==> heap.allocations == old(heap.allocations) && heap.guardPages == old(heap.guardPages)
      ensures space.Flat() == old(space.Flat())
    {
      r := heap.Malloc(req);
    }

    /** The guard page of the allocation listed last. */
    ghost function NewGuard(): int
      reads heap
    {
      if heap.allocations == [] then 0 else H.GuardPage(heap.allocations[|heap.allocations| - 1])
    }

    method Protect(ghost guards: set<int>) returns (ok: bool)
      requires heap.Valid() && heap.guarded && Tables() && heap.allocations != []
      requires heap.guardPages == guards + {NewGuard()} && Agrees(guards)
      modifies space.arrays
      ensures ok && Tables() && Agrees(heap.guardPages)
      ensures space.Same(old(space.Flat()), NewGuard() / PAGE)
    {
      var g := H.GuardPage(heap.allocations[|heap.allocations| - 1]);
      GuardTabled(|heap.allocations| - 1);
      var released;
      ok, released := space.SetGuardPage(g / PAGE);
      assert Protected(space.Entry(g / PAGE)) by {
        P.GuardEntry(old(space.Entry(g / PAGE)).lo);
        P.StatusFlags(space.Entry(g / PAGE));
      }
    }

    /** Heap::free with its call of unsetGuardPage; `ok` is false where that panics. */
    method Free(p: nat) returns (r: H.FreeResult, ok: bool)
      requires Valid()
      modifies heap, heap.Repr, space.arrays
      ensures Valid() && ok && heap.Repr == old(heap.Repr)
      ensures r.Freed? <==> exists a :: a in old(heap.allocations) && a.addr + ALLOC_HDR == p
      ensures SameUnguarded(old(space.Flat()), old(heap.guardPages))
    {
      var m := Find(p);
      NamedOnce(p, m);
      ok := true;
      if m < |heap.allocations| {
        ok := Unprotect(m);
      }
      r := FreeIt(p, m);
    }

    method Find(p: nat) returns (m: nat)
      ensures Named(heap.allocations, p, m)
    {
      m := 0;
      while m < |heap.allocations| && heap.allocations[m].addr + ALLOC_HDR != p
        invariant m <= |heap.allocations| && forall i :: 0 <= i < m ==> heap.allocations[i].addr + ALLOC_HDR != p
      {
        m := m + 1;
      }
    }

    /** Unprotects the guard page of allocation `m`; every other guard page stays protected. */
    method Unprotect(m: nat) returns (ok: bool)
      requires Valid() && m < |heap.allocations|
      modifies space.arrays
      ensures ok && Tables() && Agrees(heap.guardPages - {H.GuardPage(heap.allocations[m])})
      ensures SameUnguarded(old(space.Flat()), heap.guardPages)
    {
      var g := H.GuardPage(heap.allocations[m]);
      GuardTabled(m);
      heap.GuardPageOwn(m);
      PageNumber(g, g);
      ok := space.UnsetGuardPage(g / PAGE);
      forall h | h in heap.guardPages - {g}
        ensures Protected(space.Entry(h / PAGE))
      {
        PageNumber(h, g);
      }
    }

    method FreeIt(p: nat, m: nat) returns (r: H.FreeResult)
      requires heap.Valid() && heap.guarded && Tables() && Named(heap.allocations, p, m)
      requires Agrees(heap.guardPages - (if m < |heap.allocations| then {H.GuardPage(heap.allocations[m])} else {}))
      modifies heap, heap.Repr
      ensures Valid() && heap.Repr == old(heap.Repr)
      ensures r.Freed? <==> m < |old(heap.allocations)|
      ensures space.Flat() == old(space.Flat())
    {
      ghost var keep := heap.guardPages - (if m < |heap.allocations| then {H.GuardPage(heap.allocations[m])} else {});
      r := FreeBooks(p, m);
      assert Agrees(keep);
    }

    /** Heap::free takes exactly the guard page of the pointer's allocation off the books. */
    method FreeBooks(p: nat, ghost m: nat) returns (r: H.FreeResult)
      requires heap.Valid() && heap.guarded && Named(heap.allocations, p, m)
      modifies heap, heap.Repr
      ensures heap.Valid() && heap.Repr == old(heap.Repr)
      ensures r.Freed? <==> m < |old(heap.allocations)|
      ensures heap.guardPages ==
              old(heap.guardPages - (if m < |heap.allocations| then {H.GuardPage(heap.allocations[m])} else {}))
    {
      NamedOnce(p, m);
      r := heap.Free(p);
    }

    lemma NamedOnce(p: nat, m: nat)
      requires heap.Valid() && Named(heap.allocations, p, m)
      ensures m < |heap.allocations| <==> exists a :: a in heap.allocations && a.addr + ALLOC_HDR == p
      ensures forall n :: 0 <= n < |heap.allocations| && heap.allocations[n].addr + ALLOC_HDR == p ==> n == m
    {
      var live := heap.allocations;
      assert m < |live| ==> live[m] in live;
      forall n | 0 <= n < |live| && live[n].addr + ALLOC_HDR == p
        ensures n == m
      {
        assert live[n] in live;
        heap.SameHeader(m, n);
      }
    }

    /** Entry `m` of the list is that of pointer `p`; one past the end if there is none. */
    ghost predicate Named(live: seq<Allocation>, p: nat, m: nat) {
      if m < |live| then live[m].addr + ALLOC_HDR == p
      else m == |live| && forall a :: a in live ==> a.addr + ALLOC_HDR != p
    }

    /** Every live allocation ends in a page that lookup reports as a heap guard page. */
    lemma LiveGuarded(m: nat)
      requires Valid() && m < |heap.allocations|
      ensures var g := H.GuardPage(heap.allocations[m]);
              && 0 <= g && g % PAGE == 0 && g / PAGE < P.PAGES && g + PAGE == heap.allocations[m].End()
              && P.LooksGuarded(space.Entry(g / PAGE))
    {
      heap.GuardPageOwn(m);
      P.StatusFlags(space.Entry(H.GuardPage(heap.allocations[m]) / PAGE));
    }

    /** No byte that an allocation owns in front of its guard page lies in a guard page, its own or another's. */
    lemma BytesUnguarded(m: nat, x: nat)
      requires Valid() && m < |heap.allocations|
      requires heap.allocations[m].addr <= x < H.GuardPage(heap.allocations[m])
      ensures x / PAGE * PAGE !in heap.guardPages
    {
      var g := x / PAGE * PAGE;
      if g in heap.guardPages {
        var n := heap.GuardPageOwner(g);
        heap.GuardPageOwn(m);
        heap.GuardPageApart(n, m, 0, 0);
      }
    }

    method Step(op: H.Op) returns (ok: bool)
      requires Valid()
      modifies heap, heap.Repr, space.arrays
      ensures Valid() && ok && fresh(heap.Repr - old(heap.Repr)) && old(heap.Repr) <= heap.Repr
    {
      match op {
        case DoMalloc(req) => var _, served := Malloc(req); ok := served;
        case DoFree(p) => var _, freed := Free(p); ok := freed;
      }
    }
  }

  /** Any sequence of requests: neither guard page panic fires, and books and page tables agree after each one. */
  method Run(h: GuardedHeap, ops: seq<H.Op>) returns (ok: bool)
    requires h.Valid()
    modifies h.heap, h.heap.Repr, h.space.arrays
    ensures h.Valid() && ok && fresh(h.heap.Repr - old(h.heap.Repr))
  {
    ok := true;
    for i := 0 to |ops|
      invariant h.Valid() && ok && fresh(h.heap.Repr - old(h.heap.Repr))
    {
      var fine := h.Step(ops[i]);
      ok := ok && fine;
    }
  }
}
