/** The slab cache: equal-sized objects cut from pages and kept on a list threaded through the objects themselves. */
module SlabCache {
  const PAGE: nat := 4096
  const NULL: nat := 0
  /** A free object must at least hold its `next` pointer. */
  const MIN_OBJECT: nat := 4

  /** The `n` objects of `size` bytes from address `at` on. */
  function Cut(at: nat, size: nat, n: nat): (r: seq<nat>)
    ensures |r| == n
    decreases n
  {
    if n == 0 then [] else [at] + Cut(at + size, size, n - 1)
  }

  /** Every object lies wholly in the space of all of them, above those before it. */
  lemma {:induction false} CutFits(at: nat, size: nat, n: nat, end: nat)
    requires size > 0 && at + n * size <= end
    ensures forall i :: 0 <= i < n ==> at <= Cut(at, size, n)[i] && Cut(at, size, n)[i] + size <= end
    ensures forall i, j :: 0 <= i < j < n ==> Cut(at, size, n)[i] + size <= Cut(at, size, n)[j]
    decreases n
  {
    if n > 0 {
      assert (n - 1) * size + size == n * size;
      CutFits(at + size, size, n - 1, end);
      var rest := Cut(at + size, size, n - 1);
      assert forall i :: 0 < i < n ==> Cut(at, size, n)[i] == rest[i - 1];
    }
  }

  lemma {:induction false} CutStep(at: nat, size: nat, n: nat, i: nat)
    requires i < n - 1
    ensures Cut(at, size, n)[i + 1] == Cut(at, size, n)[i] + size
    decreases n
  {
    var rest := Cut(at + size, size, n - 1);
    assert Cut(at, size, n) == [at] + rest;
    if i == 0 {
      assert rest[0] == at + size;
    } else {
      CutStep(at + size, size, n - 1, i - 1);
    }
  }

  /** `list` is what the `next` pointers lead through from `head`. */
  ghost predicate Threaded(next: map<nat, nat>, head: nat, list: seq<nat>)
    decreases |list|
  {
    if list == [] then head == NULL
    else head == list[0] != NULL && head in next && Threaded(next, next[head], list[1..])
  }

  lemma {:induction false} ThreadedStays(next: map<nat, nat>, head: nat, list: seq<nat>, other: map<nat, nat>)
    requires Threaded(next, head, list)
    requires forall x :: x in list && x in next ==> x in other && other[x] == next[x]
    ensures Threaded(other, head, list)
    decreases |list|
  {
    if list != [] {
      ThreadedStays(next, next[head], list[1..], other);
    }
  }

  ghost predicate Distinct(list: seq<nat>) {
    forall i, j :: 0 <= i < j < |list| ==> list[i] != list[j]
  }

  ghost function Elements(list: seq<nat>): set<nat> {
    set x | x in list
  }

  /** All objects of all pages. */
  ghost function Objects(pages: seq<nat>, size: nat, n: nat): set<nat> {
    if pages == [] then {} else Elements(Cut(pages[|pages| - 1], size, n)) + Objects(pages[..|pages| - 1], size, n)
  }

  /** No two objects overlap. */
  ghost predicate Spaced(objects: set<nat>, size: nat) {
    forall x, y :: x in objects && y in objects && x < y ==> x + size <= y
  }

  /** If everything on the list were handed out, one after another, exactly the objects of `all` would be live. */
  ghost predicate Balanced(list: seq<nat>, live: set<nat>, all: set<nat>)
    decreases |list|
  {
    if list == [] then live == all
    else list[0] !in live && Balanced(list[1..], live + {list[0]}, all)
  }

  /** Listed and live objects are different ones, and together exactly the objects there are. */
  lemma {:induction false} BalancedMeans(list: seq<nat>, live: set<nat>, all: set<nat>)
    requires Balanced(list, live, all)
    ensures Distinct(list) && Elements(list) !! live && Elements(list) + live == all
    decreases |list|
  {
    if list != [] {
      BalancedMeans(list[1..], live + {list[0]}, all);
      ElementsCons(list);
    }
  }

  lemma {:induction false} BalancedIf(list: seq<nat>, live: set<nat>)
    requires Distinct(list) && Elements(list) !! live
    ensures Balanced(list, live, Elements(list) + live)
    decreases |list|
  {
    if list == [] {
      assert Elements(list) + live == live;
    } else {
      ElementsCons(list);
      assert Elements(list) + live == Elements(list[1..]) + (live + {list[0]});
      BalancedIf(list[1..], live + {list[0]});
    }
  }

  /** Each page is clear of the objects of those before it. */
  ghost predicate PagesClear(pages: seq<nat>, size: nat, n: nat) {
    pages != [] ==>
      var last := |pages| - 1;
      ClearOf(Objects(pages[..last], size, n), size, pages[last]) && PagesClear(pages[..last], size, n)
  }

  ghost predicate ClearOf(objects: set<nat>, size: nat, page: nat) {
    forall x :: x in objects ==> x + size <= page || page + PAGE <= x
  }

  class Slab {
    const objectSize: nat
    const perPageBlocks: nat
    var partial: nat
    /** The first word of each free object. */
    var next: map<nat, nat>
    ghost var pages: seq<nat>
    ghost var objects: set<nat>
    ghost var list: seq<nat>
    ghost var live: set<nat>

    ghost predicate Valid()
      reads this
    {
      && MIN_OBJECT <= objectSize <= PAGE && perPageBlocks == PAGE / objectSize
      && Threaded(next, partial, list) && PagesClear(pages, objectSize, perPageBlocks)
      && objects == Objects(pages, objectSize, perPageBlocks)
      && Balanced(list, live, objects)
    }

    constructor (size: nat)
      requires size <= PAGE
      ensures Valid() && pages == [] && live == {} && list == []
      ensures objectSize == (if size < 4 then 4 else size) && perPageBlocks == 4096 / objectSize
    {
      objectSize := if size < MIN_OBJECT then MIN_OBJECT else size;
      perPageBlocks := PAGE / (if size < MIN_OBJECT then MIN_OBJECT else size);
      partial, next, pages, objects, list, live := NULL, map[], [], {}, [], {};
    }

    /** A page the supplier may hand out: not NULL, and clear of every object already here. */
    ghost predicate Supplied(page: nat)
      reads this
    {
      page != NULL && ClearOf(objects, objectSize, page)
    }

    /** Takes a new page and threads its objects into a list. */
    method NewPage(page: nat)
      requires Valid() && list == [] && Supplied(page)
      modifies this
      ensures Valid() && live == old(live) && pages == old(pages) + [page]
      ensures list == Cut(page, objectSize, perPageBlocks) && list != [] && partial == page
    {
      PageFresh(pages, objectSize, perPageBlocks, page);
      BalancedIf(Cut(page, objectSize, perPageBlocks), live);
      next := Thread(next, page, objectSize, perPageBlocks);
      partial := page;
      list := Cut(page, objectSize, perPageBlocks);
      assert (pages + [page])[..|pages|] == pages;
      pages, objects := pages + [page], Elements(list) + objects;
    }

    /** Takes the first object off the list. */
    method Pop() returns (obj: nat)
      requires Valid() && list != []
      modifies this
      ensures Valid() && pages == old(pages) && obj != NULL && obj !in old(live) && live == old(live) + {obj}
      ensures obj in objects && obj == old(list)[0] && list == old(list)[1..]
    {
      obj := partial;
      BalancedMeans(list, live, objects);
      partial := next[partial];
      list, live := list[1..], live + {list[0]};
    }

    /** An object nobody holds, from the list or, when that is empty, from a new page; NULL without either. */
    method Allocate(page: nat) returns (obj: nat)
      requires Valid() && (page == NULL || Supplied(page))
      modifies this
      ensures Valid() && (obj == NULL <==> old(list) == [] && page == NULL)
      ensures obj == NULL ==> unchanged(this)
      ensures obj != NULL ==>
                && obj !in old(live) && live == old(live) + {obj} && Within(obj)
                && obj == (if old(list) == [] then page else old(list)[0])
                && (old(list) != [] ==> list == old(list)[1..])
                && pages == if old(list) == [] then old(pages) + [page] else old(pages)
    {
      if partial == NULL {
        if page == NULL {
          return NULL;
        }
        NewPage(page);
      }
      obj := Pop();
      ObjectWithin(pages, objectSize, perPageBlocks, obj);
    }

    /** The object lies wholly in one of the pages. */
    ghost predicate Within(obj: nat)
      reads this
    {
      exists k :: 0 <= k < |pages| && pages[k] <= obj && obj + objectSize <= pages[k] + PAGE
    }

    method Free(obj: nat)
      requires Valid() && (obj == NULL || obj in live)
      modifies this
      ensures Valid() && pages == old(pages)
      ensures if obj == NULL then unchanged(this) else live == old(live) - {obj} && list == [obj] + old(list)
    {
      if obj == NULL {
        return;
      }
      BalancedMeans(list, live, objects);
      assert obj !in Elements(list);
      ThreadedStays(next, partial, list, next[obj := partial]);
      next := next[obj := partial];
      partial := obj;
      assert ([obj] + list)[1..] == list;
      list := [obj] + list;
      live := live - {obj};
      assert live + {obj} == old(live);
    }
  }

  /** Following `next` from `head` through `list` arrives at `to`. */
  ghost predicate Leads(next: map<nat, nat>, head: nat, list: seq<nat>, to: nat)
    decreases |list|
  {
    if list == [] then head == to
    else
      var last := |list| - 1;
      list[last] in next && next[list[last]] == to && Leads(next, head, list[..last], list[last])
  }

  lemma {:induction false} LeadsStays(next: map<nat, nat>, head: nat, list: seq<nat>, to: nat, x: nat, y: nat)
    requires Leads(next, head, list, to) && x !in list
    ensures Leads(next[x := y], head, list, to)
    decreases |list|
  {
    if list != [] {
      LeadsStays(next, head, list[..|list| - 1], list[|list| - 1], x, y);
    }
  }

  lemma {:induction false} LeadsThreaded(next: map<nat, nat>, head: nat, list: seq<nat>, rest: seq<nat>, to: nat)
    requires Leads(next, head, list, to) && Threaded(next, to, rest) && NULL !in list
    ensures Threaded(next, head, list + rest)
    decreases |list|
  {
    if list == [] {
      assert list + rest == rest;
    } else {
      var last := |list| - 1;
      assert ([list[last]] + rest)[1..] == rest;
      LeadsThreaded(next, head, list[..last], [list[last]] + rest, list[last]);
      assert list[..last] + ([list[last]] + rest) == list + rest;
    }
  }

  lemma LeadsOn(next: map<nat, nat>, head: nat, objects: seq<nat>, k: nat, value: nat)
    requires k < |objects| && Distinct(objects) && NULL !in objects && Leads(next, head, objects[..k], objects[k])
    ensures Leads(next[objects[k] := value], head, objects[..k + 1], value)
  {
    LeadsStays(next, head, objects[..k], objects[k], objects[k], value);
    assert objects[..k + 1][..k] == objects[..k];
  }

  /** The loop that threads a page: each object points at the one `size` bytes further, the last at NULL. */
  method Thread(next0: map<nat, nat>, page: nat, size: nat, n: nat) returns (next: map<nat, nat>)
    requires 0 < n && Distinct(Cut(page, size, n)) && NULL !in Cut(page, size, n)
    ensures Threaded(next, page, Cut(page, size, n))
    ensures forall x :: x in next0 && x !in Cut(page, size, n) ==> x in next && next[x] == next0[x]
  {
    ghost var objects := Cut(page, size, n);
    next := next0;
    var tmp, i := page, n - 1;
    ghost var k := 0;
    while i > 0
      invariant 0 <= i <= n - 1 && k == n - 1 - i && tmp == objects[k] && Leads(next, page, objects[..k], tmp)
      invariant forall x :: x in next0 && x !in objects ==> x in next && next[x] == next0[x]
    {
      CutStep(page, size, n, k);
      LeadsOn(next, page, objects, k, tmp + size);
      next := next[tmp := tmp + size];
      tmp := tmp + size;
      i, k := i - 1, k + 1;
    }
    LeadsOn(next, page, objects, k, NULL);
    next := next[tmp := NULL];
    assert objects[..k + 1] == objects;
    LeadsThreaded(next, page, objects, [], NULL);
    assert objects + [] == objects;
  }

  lemma Room(size: nat)
    requires MIN_OBJECT <= size <= PAGE
    ensures 0 < PAGE / size && PAGE / size * size <= PAGE
  {
  }

  lemma ElementsCons(list: seq<nat>)
    requires list != []
    ensures Elements(list) == {list[0]} + Elements(list[1..])
    ensures Distinct(list) <==> Distinct(list[1..]) && list[0] !in Elements(list[1..])
  {
    assert list == [list[0]] + list[1..];
    assert forall i :: 0 <= i < |list| - 1 ==> list[1..][i] == list[i + 1];
  }

  /** No two objects of any pages taken so overlap. */
  lemma {:induction false} ObjectsSpaced(pages: seq<nat>, size: nat, n: nat)
    requires PagesClear(pages, size, n) && MIN_OBJECT <= size <= PAGE && n == PAGE / size
    ensures Spaced(Objects(pages, size, n), size)
    decreases |pages|
  {
    if pages != [] {
      var last := |pages| - 1;
      ObjectsSpaced(pages[..last], size, n);
      Room(size);
      CutFits(pages[last], size, n, pages[last] + PAGE);
    }
  }

  /** A new page brings distinct objects, none of them known before. */
  lemma PageFresh(pages: seq<nat>, size: nat, n: nat, page: nat)
    requires MIN_OBJECT <= size <= PAGE && n == PAGE / size && ClearOf(Objects(pages, size, n), size, page)
    ensures 0 < n && Distinct(Cut(page, size, n)) && (page != NULL ==> NULL !in Cut(page, size, n))
    ensures Elements(Cut(page, size, n)) !! Objects(pages, size, n)
  {
    Room(size);
    CutFits(page, size, n, page + PAGE);
  }

  lemma {:induction false} ObjectWithin(pages: seq<nat>, size: nat, n: nat, obj: nat)
    requires obj in Objects(pages, size, n) && MIN_OBJECT <= size <= PAGE && n == PAGE / size
    ensures exists k :: 0 <= k < |pages| && pages[k] <= obj && obj + size <= pages[k] + PAGE
    decreases |pages|
  {
    var last := |pages| - 1;
    Room(size);
    if obj in Cut(pages[last], size, n) {
      CutFits(pages[last], size, n, pages[last] + PAGE);
    } else {
      ObjectWithin(pages[..last], size, n, obj);
      var k :| 0 <= k < |pages[..last]| && pages[..last][k] <= obj && obj + size <= pages[..last][k] + PAGE;
      assert pages[k] == pages[..last][k];
    }
  }

  /** Why objects may not be larger than a page: there would be none to thread. */
  lemma FitsIff(size: nat)
    requires size > 0
    ensures PAGE / size > 0 <==> size <= PAGE
  {
    if size <= PAGE {
      assert PAGE / size * size + PAGE % size == PAGE;
    }
  }

  lemma {:induction false} ElementsCount(list: seq<nat>)
    requires Distinct(list)
    ensures |Elements(list)| == |list|
    decreases |list|
  {
    if list != [] {
      ElementsCons(list);
      ElementsCount(list[1..]);
    }
  }

  function Total(pages: nat, n: nat): nat {
    if pages == 0 then 0 else n + Total(pages - 1, n)
  }

  lemma PageCount(pages: seq<nat>, size: nat, n: nat, page: nat)
    requires MIN_OBJECT <= size <= PAGE && n == PAGE / size && ClearOf(Objects(pages, size, n), size, page)
    ensures |Elements(Cut(page, size, n)) + Objects(pages, size, n)| == n + |Objects(pages, size, n)|
  {
    PageFresh(pages, size, n, page);
    ElementsCount(Cut(page, size, n));
    UnionCount(Elements(Cut(page, size, n)), Objects(pages, size, n));
  }

  /** Every page contributes exactly its number of objects. */
  lemma {:induction false} ObjectsCount(pages: seq<nat>, size: nat, n: nat)
    requires PagesClear(pages, size, n) && MIN_OBJECT <= size <= PAGE && n == PAGE / size
    ensures |Objects(pages, size, n)| == Total(|pages|, n)
    decreases |pages|
  {
    if pages != [] {
      var last := |pages| - 1;
      ObjectsCount(pages[..last], size, n);
      PageCount(pages[..last], size, n, pages[last]);
    }
  }

  lemma UnionCount(a: set<nat>, b: set<nat>)
    requires a !! b
    ensures |a + b| == |a| + |b|
  {
  }
}
