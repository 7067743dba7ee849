/** The UDI layout language: byte strings that describe a control block, and the walk over them. */
module Layout {
  import opened Wrappers

  newtype Byte = x: int | 0 <= x < 256

  /** A layout is its bytes followed by UDI_DL_END. */
  type Layout = seq<Byte>

  const WORD: nat := 4
  const END: Byte := 0
  const INLINE_DRIVER_TYPED: Byte := 43
  const MOVABLE_UNTYPED: Byte := 44
  const INLINE_TYPED: Byte := 50
  const MOVABLE_TYPED: Byte := 51
  const ARRAY: Byte := 52

  const ERROR_INVALID_ARG: int := -10
  const ERROR_INVALID_FORMAT: int := -14
  const ERROR_MEMORY_NOMEM: int := -20

  function At(lay: Layout, i: nat): Byte {
    if i < |lay| then lay[i] else END
  }

  /** An element's size never comes out as three, so aligning to it is rounding up to 1, 2 or 4. */
  predicate Alignable(size: nat) {
    size < 3 || size % WORD == 0
  }

  /** `q` is the least multiple of the smaller of `size` and a word that is not below `p`. */
  predicate LeastAligned(q: nat, p: nat, size: nat) {
    var unit := if size < 4 then size else 4;
    unit > 0 && p <= q < p + unit && q % unit == 0
  }

  /** What `LeastAligned` says: no smaller number will do. */
  lemma LeastMeans(q: nat, p: nat, size: nat, other: nat)
    requires 0 < size && Alignable(size) && LeastAligned(q, p, size) && p <= other
    requires other % (if size < 4 then size else 4) == 0
    ensures q <= other
  {
  }

  /** Rounds up to the element's size or to a word, whichever is less; an empty element resets to zero. */
  function Align(p: nat, size: nat): (r: nat)
    requires Alignable(size)
    ensures size == 0 ==> r == 0
    ensures size > 0 ==> LeastAligned(r, p, size)
  {
    if size == 0 then 0
    else if size == 1 then p
    else if size == 2 then if p % 2 != 0 then p + 2 - p % 2 else p
    else if p % 4 != 0 then p + 4 - p % 4 else p
  }

  predicate IsInlineElement(e: Byte) {
    e == INLINE_TYPED || e == INLINE_DRIVER_TYPED || e == MOVABLE_UNTYPED || e == MOVABLE_TYPED
  }

  /** The bytes from `i` to the next UDI_DL_END. */
  function DetailBytes(lay: Layout, i: nat): (n: nat)
    ensures At(lay, i + n) == 0 && forall j: nat :: i <= j < i + n ==> At(lay, j) != 0
    decreases |lay| - i
  {
    if At(lay, i) == END then 0 else 1 + DetailBytes(lay, i + 1)
  }

  ghost predicate HasInlineElements(lay: Layout, i: nat) {
    exists j :: i <= j < i + DetailBytes(lay, i) && IsInlineElement(At(lay, j))
  }

  /** The element table: size in bytes and layout bytes to skip. */
  function Descriptor(index: nat): (r: (nat, nat))
    ensures Alignable(r.0)
  {
    if index == 0 || index > 22 || index == 20 then (0, 0)
    else (
      if index == 11 then 0 else if index == 3 || index == 4 then 2 else if index < 3 || index == 7 || index == 9 then 1 else 4,
      if index == 13 then 4 else if index == 18 || index == 19 then 0 else 1)
  }

  lemma Multiples(n: int, count: nat)
    requires n >= 0 ==> n % WORD == 0
    ensures n >= 0 ==> (n * count) % WORD == 0
  {
    if n >= 0 {
      assert n * count == WORD * (n / WORD * count);
    }
  }

  /** The element's size and the layout bytes it takes up; a skip of zero is a malformed element. */
  ghost function ElementSize(lay: Layout, i: nat): (r: (nat, nat))
    requires i < |lay|
    ensures IsInlineElement(lay[i]) ==> r.0 == WORD && r.1 > 0
    ensures Alignable(r.0)
    decreases |lay| + 2 - i, 0
  {
    var e := lay[i] as nat;
    if e >= 200 then Descriptor(e - 200 + 21)
    else if e >= 50 then
      if lay[i] == INLINE_TYPED || lay[i] == MOVABLE_TYPED then
        (Descriptor(e - 50 + 18).0, 2 + DetailBytes(lay, i + 1))
      else if lay[i] == ARRAY then
        var n := LayoutSize(lay, i + 2, false);
        Multiples(n, At(lay, i + 1) as nat);
        if n < 0 then (0, 0) else (n * At(lay, i + 1) as nat, 3 + DetailBytes(lay, i + 2))
      else (0, 0)
    else if e >= 40 then Descriptor(e - 40 + 13)
    else if e >= 30 then Descriptor(e - 30 + 10)
    else if e >= 20 then Descriptor(e - 20 + 9)
    else Descriptor(e)
  }

  /** The bytes of a UDI type, by its layout code: 8-bit and 16-bit types, everything else a word. */
  function TypeBytes(code: Byte): nat {
    if code in {1, 2, 7, 20} then 1 else if code in {3, 4} then 2 else WORD
  }

  /** The table is read at the right place for every code the UDI headers define, arrays aside. */
  lemma KnownElements(lay: Layout, i: nat)
    requires i < |lay| && lay[i] in {1, 2, 3, 4, 5, 6, 7, 8, 20, 30, 32, 40, 41, 42, 43, 44, 50, 51, 200, 201}
    ensures ElementSize(lay, i).0 == TypeBytes(lay[i])
    ensures ElementSize(lay, i).1
            == if lay[i] == 40 then 4 else if lay[i] in {50, 51} then 2 + DetailBytes(lay, i + 1) else 1
  {
  }

  /** An array takes up its count times the size of what it holds, and is malformed if that has none. */
  lemma ArrayElements(lay: Layout, i: nat)
    requires i < |lay| && lay[i] == 52
    ensures var n := LayoutSize(lay, i + 2, false);
            ElementSize(lay, i) == if n < 0 then (0, 0) else (n * At(lay, i + 1) as nat, 3 + DetailBytes(lay, i + 2))
  {
  }

  /** Codes the UDI headers do not define: the table entry they happen to lead to, or none. */
  lemma UndefinedElements(lay: Layout, i: nat)
    requires i < |lay| && lay[i] !in {0, 1, 2, 3, 4, 5, 6, 7, 8, 20, 30, 32, 40, 41, 42, 43, 44, 50, 51, 52, 200, 201}
    ensures ElementSize(lay, i) ==
            if lay[i] == 9 then (1, 1)
            else if lay[i] in {10, 12, 14, 15, 16, 17, 21, 23, 25, 26, 27, 28, 34, 35, 36, 37, 48, 49} then (4, 1)
            else if lay[i] in {11, 22, 31} then (0, 1)
            else if lay[i] in {13, 24, 33} then (4, 4)
            else if lay[i] in {18, 19, 29, 38, 39, 45, 46} then (4, 0)
            else (0, 0)
  {
  }

  ghost function SizeFrom(lay: Layout, i: nat, offset: nat): (r: int)
    ensures r >= 0 ==> r % WORD == 0
    ensures r < 0 ==> r == -14
    decreases |lay| + 2 - i, 1
  {
    if At(lay, i) == END then Align(offset, WORD)
    else
      var (size, skip) := ElementSize(lay, i);
      if size == 0 || skip == 0 then ERROR_INVALID_FORMAT
      else SizeFrom(lay, i + skip, Align(offset, size) + size)
  }

  /** The bytes a structure with the layout at `i` takes up, or a negative error. */
  ghost function LayoutSize(lay: Layout, i: nat, inlineAllowed: bool): (r: int)
    ensures r >= 0 ==> r % WORD == 0
    ensures r < 0 ==> r == -14
    decreases |lay| + 2 - i, 2
  {
    if !inlineAllowed && HasInlineElements(lay, i) then ERROR_INVALID_FORMAT else SizeFrom(lay, i, 0)
  }

  /** A nested layout must hold no pointer to follow, not even in its details. */
  lemma NestedSize(lay: Layout, i: nat)
    ensures LayoutSize(lay, i, true) == SizeFrom(lay, i, 0)
    ensures LayoutSize(lay, i, false) ==
            if exists j :: i <= j < i + DetailBytes(lay, i) && At(lay, j) in {43, 44, 50, 51} then -14 else SizeFrom(lay, i, 0)
  {
  }

  ghost function OptionalSize(lay: Option<Layout>): int {
    if lay.None? then ERROR_INVALID_ARG else LayoutSize(lay.value, 0, false)
  }

  /** A pointer the channel code must follow: where it lies, and what it addresses. */
  datatype Slot =
    | Inline(off: nat, size: int)
    | Movable(off: nat, size: int)
    | Untyped(off: nat)
    | Malformed

  /** The pointers met by a walk over the layout, up to its end or its first malformed element. */
  ghost function Slots(lay: Layout, drv: Option<Layout>, i: nat, offset: nat): seq<Slot>
    decreases |lay| - i
  {
    if At(lay, i) == END then []
    else
      var (size, skip) := ElementSize(lay, i);
      if skip == 0 then [Malformed]
      else
        var off := Align(offset, size);
        var rest := Slots(lay, drv, i + skip, off + size);
        if IsInlineElement(lay[i]) then [SlotAt(lay, drv, i, off)] + rest else rest
  }

  /** The walk from layout byte `i` meets exactly `slots`; a quantifier, so that a proof follows the walk only on demand. */
  ghost predicate Meets(lay: Layout, drv: Option<Layout>, i: nat, offset: nat, slots: seq<Slot>) {
    forall at: nat :: at == i ==> slots == Slots(lay, drv, at, offset)
  }

  ghost function SlotAt(lay: Layout, drv: Option<Layout>, i: nat, off: nat): Slot {
    if At(lay, i) == INLINE_TYPED then Inline(off, LayoutSize(lay, i + 1, false))
    else if At(lay, i) == MOVABLE_TYPED then Movable(off, LayoutSize(lay, i + 1, false))
    else if At(lay, i) == INLINE_DRIVER_TYPED then Inline(off, OptionalSize(drv))
    else Untyped(off)
  }

  /** Word-sized, word-aligned, disjoint and increasing within [lo, hi). */
  ghost predicate Fit(slots: seq<Slot>, lo: nat, hi: int) {
    slots == [] || (
      && !slots[0].Malformed?
      && lo <= slots[0].off && slots[0].off % WORD == 0 && slots[0].off + WORD <= hi
      && Fit(slots[1..], slots[0].off + WORD, hi))
  }

  lemma FitMono(slots: seq<Slot>, lo: nat, low: nat, hi: int)
    requires Fit(slots, lo, hi) && low <= lo
    ensures Fit(slots, low, hi)
  {
  }

  /** A layout that has a size holds every pointer the walkers meet, each in a word of its own. */
  lemma {:induction false} SlotsFit(lay: Layout, drv: Option<Layout>, i: nat, offset: nat)
    requires SizeFrom(lay, i, offset) >= 0
    ensures offset <= SizeFrom(lay, i, offset)
    ensures Fit(Slots(lay, drv, i, offset), offset, SizeFrom(lay, i, offset))
    decreases |lay| - i
  {
    if At(lay, i) != END {
      var (size, skip) := ElementSize(lay, i);
      var off := Align(offset, size);
      SlotsFit(lay, drv, i + skip, off + size);
      var rest := Slots(lay, drv, i + skip, off + size);
      if IsInlineElement(lay[i]) {
        assert ([SlotAt(lay, drv, i, off)] + rest)[1..] == rest;
      } else {
        FitMono(rest, off + size, offset, SizeFrom(lay, i, offset));
      }
    }
  }

  /** An element of a structure: its first layout byte, and where in the structure it lies. */
  datatype Element = Element(at: nat, off: nat)

  /**
   * The layout from byte `i` on describes exactly the elements `es`: each starts at the least aligned offset behind the
   * one before, the first behind `offset`, and the last ends at `end`.
   */
  ghost predicate Placed(lay: Layout, i: nat, offset: nat, es: seq<Element>, end: nat)
    decreases |es|
  {
    if es == [] then At(lay, i) == 0 && end == offset
    else
      && i < |lay| && lay[i] != 0 && es[0].at == i
      && ElementSize(lay, i).0 > 0 && ElementSize(lay, i).1 > 0
      && LeastAligned(es[0].off, offset, ElementSize(lay, i).0)
      && Placed(lay, i + ElementSize(lay, i).1, es[0].off + ElementSize(lay, i).0, es[1..], end)
  }

  /** The size of a structure is the end of its last element, rounded up to a word. */
  lemma {:induction false} SizeOfPlaced(lay: Layout, i: nat, offset: nat, es: seq<Element>, end: nat)
    requires Placed(lay, i, offset, es, end)
    ensures SizeFrom(lay, i, offset) >= 0 && LeastAligned(SizeFrom(lay, i, offset), end, 4)
    decreases |es|
  {
    if es != [] {
      var (size, skip) := ElementSize(lay, i);
      LeastUnique(es[0].off, Align(offset, size), offset, size);
      SizeOfPlaced(lay, i + skip, es[0].off + size, es[1..], end);
    }
  }

  lemma LeastUnique(q: nat, r: nat, p: nat, size: nat)
    requires Alignable(size) && LeastAligned(q, p, size) && LeastAligned(r, p, size)
    ensures q == r
  {
  }

  /** Every layout that has a size describes a structure. */
  lemma {:induction false} PlacedOfSize(lay: Layout, i: nat, offset: nat) returns (es: seq<Element>, end: nat)
    requires SizeFrom(lay, i, offset) >= 0
    ensures Placed(lay, i, offset, es, end)
    decreases |lay| - i
  {
    if At(lay, i) == END {
      es, end := [], offset;
    } else {
      var (size, skip) := ElementSize(lay, i);
      var off := Align(offset, size);
      var rest;
      rest, end := PlacedOfSize(lay, i + skip, off + size);
      es := [Element(i, off)] + rest;
      assert es[1..] == rest;
    }
  }

  /** Elements lie one behind the other. */
  lemma {:induction false} PlacedApart(lay: Layout, i: nat, offset: nat, es: seq<Element>, end: nat, j: nat, k: nat)
    requires Placed(lay, i, offset, es, end) && j <= k < |es|
    ensures es[j].at < |lay| && lay[es[j].at] != 0 && es[k].at < |lay| && lay[es[k].at] != 0
    ensures offset <= es[j].off && es[k].off + ElementSize(lay, es[k].at).0 <= end
    ensures j < k ==> es[j].off + ElementSize(lay, es[j].at).0 <= es[k].off
    decreases |es|
  {
    var (size, skip) := ElementSize(lay, i);
    if k > 0 {
      PlacedApart(lay, i + skip, es[0].off + size, es[1..], end, if j > 0 then j - 1 else k - 1, k - 1);
    } else {
      PlacedEnds(lay, i + skip, es[0].off + size, es[1..], end);
    }
  }

  lemma {:induction false} PlacedEnds(lay: Layout, i: nat, offset: nat, es: seq<Element>, end: nat)
    requires Placed(lay, i, offset, es, end)
    ensures offset <= end
    decreases |es|
  {
    if es != [] {
      var (size, skip) := ElementSize(lay, i);
      PlacedEnds(lay, i + skip, es[0].off + size, es[1..], end);
    }
  }

  /** The elements that are pointers to follow: inline typed, inline driver typed, movable untyped, movable typed. */
  predicate IsFollowed(code: Byte) {
    code in {43, 44, 50, 51}
  }

  /** The pointers the walkers meet are exactly the followed elements of the structure, in order and at their offsets. */
  ghost function Followed(lay: Layout, drv: Option<Layout>, es: seq<Element>): seq<Slot> {
    if es == [] then []
    else if IsFollowed(At(lay, es[0].at)) then [SlotAt(lay, drv, es[0].at, es[0].off)] + Followed(lay, drv, es[1..])
    else Followed(lay, drv, es[1..])
  }

  lemma {:induction false} SlotsAreFollowed(lay: Layout, drv: Option<Layout>, i: nat, offset: nat, es: seq<Element>, end: nat)
    requires Placed(lay, i, offset, es, end)
    ensures Slots(lay, drv, i, offset) == Followed(lay, drv, es)
    decreases |es|
  {
    if es != [] {
      var (size, skip) := ElementSize(lay, i);
      LeastUnique(es[0].off, Align(offset, size), offset, size);
      SlotsAreFollowed(lay, drv, i + skip, es[0].off + size, es[1..], end);
    }
  }

  /** Where a followed element is among the pointers. */
  lemma {:induction false} FollowedAt(lay: Layout, drv: Option<Layout>, es: seq<Element>, k: nat) returns (t: nat)
    requires k < |es| && IsFollowed(At(lay, es[k].at))
    ensures t < |Followed(lay, drv, es)| && Followed(lay, drv, es)[t] == SlotAt(lay, drv, es[k].at, es[k].off)
    decreases |es|
  {
    if k == 0 {
      t := 0;
    } else {
      t := FollowedAt(lay, drv, es[1..], k - 1);
      if IsFollowed(At(lay, es[0].at)) {
        t := t + 1;
      }
    }
  }

  /** Which element a pointer belongs to. */
  lemma {:induction false} FollowedFrom(lay: Layout, drv: Option<Layout>, es: seq<Element>, t: nat) returns (k: nat)
    requires t < |Followed(lay, drv, es)|
    ensures k < |es| && IsFollowed(At(lay, es[k].at)) && Followed(lay, drv, es)[t] == SlotAt(lay, drv, es[k].at, es[k].off)
    decreases |es|
  {
    if IsFollowed(At(lay, es[0].at)) && t == 0 {
      k := 0;
    } else {
      k := FollowedFrom(lay, drv, es[1..], if IsFollowed(At(lay, es[0].at)) then t - 1 else t);
      k := k + 1;
    }
  }

  /** The walk of hasInlineElements. */
  method FindInline(lay: Layout, i: nat) returns (found: bool)
    ensures found == HasInlineElements(lay, i)
  {
    var j := i;
    while At(lay, j) != END
      invariant i <= j && DetailBytes(lay, i) == j - i + DetailBytes(lay, j)
      invariant forall k :: i <= k < j ==> !IsInlineElement(At(lay, k))
      decreases |lay| - j
    {
      if IsInlineElement(At(lay, j)) {
        return true;
      }
      j := j + 1;
    }
    return false;
  }

  method CountDetail(lay: Layout, i: nat) returns (n: nat)
    ensures n == DetailBytes(lay, i)
  {
    n := 0;
    while At(lay, i + n) != END
      invariant DetailBytes(lay, i) == n + DetailBytes(lay, i + n)
      decreases |lay| - i - n
    {
      n := n + 1;
    }
  }

  method GetElementSize(lay: Layout, i: nat) returns (size: nat, skip: nat)
    requires i < |lay|
    ensures (size, skip) == ElementSize(lay, i)
    decreases |lay| + 2 - i, 0
  {
    var e := lay[i] as nat;
    var index := e;
    if e >= 200 {
      index := e - 200 + 21;
    } else if e >= 50 {
      index := e - 50 + 18;
      if lay[i] == INLINE_TYPED || lay[i] == MOVABLE_TYPED {
        var detail := CountDetail(lay, i + 1);
        return Descriptor(index).0, 2 + detail;
      }
      if lay[i] == ARRAY {
        var n := GetSize(lay, i + 2, false);
        if n < 0 {
          return 0, 0;
        }
        var detail := CountDetail(lay, i + 2);
        return n * At(lay, i + 1) as nat, 3 + detail;
      }
      return 0, 0;
    } else if e >= 40 {
      index := e - 40 + 13;
    } else if e >= 30 {
      index := e - 30 + 10;
    } else if e >= 20 {
      index := e - 20 + 9;
    }
    return Descriptor(index).0, Descriptor(index).1;
  }

  method GetSize(lay: Layout, start: nat, inlineAllowed: bool) returns (r: int)
    ensures r == LayoutSize(lay, start, inlineAllowed)
    decreases |lay| + 2 - start, 1
  {
    if !inlineAllowed {
      var found := FindInline(lay, start);
      if found {
        return ERROR_INVALID_FORMAT;
      }
    }
    var i: nat, offset: nat := start, 0;
    while At(lay, i) != END
      invariant start <= i && SizeFrom(lay, i, offset) == SizeFrom(lay, start, 0)
      decreases |lay| - i
    {
      var size, skip := GetElementSize(lay, i);
      if size == 0 || skip == 0 {
        return ERROR_INVALID_FORMAT;
      }
      offset := Align(offset, size) + size;
      i := i + skip;
    }
    return Align(offset, WORD);
  }

  method GetOptionalSize(lay: Option<Layout>) returns (r: int)
    ensures r == OptionalSize(lay)
  {
    if lay.None? {
      return ERROR_INVALID_ARG;
    }
    r := GetSize(lay.value, 0, false);
  }

  /** One step of a walk: the element's aligned offset, the offset behind it, and the layout bytes it takes up. */
  method NextElement(lay: Layout, ghost drv: Option<Layout>, i: nat, offset: nat, ghost todo: seq<Slot>)
    returns (skip: nat, off: nat, after: nat, ghost rest: seq<Slot>)
    requires At(lay, i) != END && Meets(lay, drv, i, offset, todo)
    ensures skip == 0 ==> todo == [Malformed]
    ensures skip > 0 ==> Meets(lay, drv, i + skip, after, rest)
    ensures skip > 0 && !IsInlineElement(lay[i]) ==> todo == rest
    ensures skip > 0 && IsInlineElement(lay[i]) ==> todo != [] && todo[0] == SlotAt(lay, drv, i, off) && todo[1..] == rest
  {
    var size;
    size, skip := GetElementSize(lay, i);
    off := Align(offset, size);
    after := off + size;
    rest := if skip > 0 then Slots(lay, drv, i + skip, after) else [];
    assert todo == Slots(lay, drv, i, offset);
  }

  lemma MeetsNothing(lay: Layout, drv: Option<Layout>, i: nat, offset: nat, todo: seq<Slot>)
    requires Meets(lay, drv, i, offset, todo) && At(lay, i) == END
    ensures todo == []
  {
    assert todo == Slots(lay, drv, i, offset);
  }
}
