/** Channel calls and new control blocks, element by element of the structure that a layout describes. */
module Elements {
  import opened Layout
  import opened Delivery
  import opened Wrappers

  /** The bytes from `lo` to `hi` around `q` in `m2` are those around `p` in `m`. */
  ghost predicate BytesArrive(m: Memory, p: int, m2: Memory, q: int, lo: int, hi: int) {
    && 0 <= p + lo && p + hi <= |m| && 0 <= q + lo && q + hi <= |m2|
    && forall x {:trigger m2[x]} :: q + lo <= x < q + hi ==> m2[x] == m[p + (x - q)]
  }

  /** The size of the object a non-NULL pointer `p` of the element at layout byte `i` addresses, without its header. */
  ghost function PointeeBytes(m: Memory, p: nat, lay: Layout, drv: Option<Layout>, i: nat): int {
    if At(lay, i) == 44 then Load(m, p - 4)
    else if At(lay, i) == 43 then OptionalSize(drv)
    else LayoutSize(lay, i + 1, false)
  }

  /**
   * The element at layout byte `i`, in word or byte `w` of the sender's block and `w2` of the receiver's. A movable
   * object arrives with the eight bytes of its header, an inline one by itself; a NULL stays NULL; an ordinary element
   * arrives byte by byte.
   */
  ghost predicate ElementArrives(m: Memory, w: nat, m2: Memory, w2: nat, lay: Layout, drv: Option<Layout>, i: nat)
    requires i < |lay|
  {
    var p, q := Load(m, w), Load(m2, w2);
    var n := PointeeBytes(m, p, lay, drv, i);
    if lay[i] == 44 || lay[i] == 51 then if p == 0 then q == 0 else n >= 0 && BytesArrive(m, p, m2, q, -8, n)
    else if lay[i] == 43 || lay[i] == 50 then if p == 0 then q == 0 else n >= 0 && BytesArrive(m, p, m2, q, 0, n)
    else BytesArrive(m, w, m2, w2, 0, ElementSize(lay, i).0)
  }

  /** Every element of the structure that the layout describes arrives. */
  ghost predicate AllArrive(m: Memory, gcb: nat, m2: Memory, clone: nat, lay: Layout, drv: Option<Layout>) {
    forall es: seq<Element>, end: nat, k: nat :: Placed(lay, 0, 0, es, end) && k < |es| ==>
      && es[k].at < |lay|
      && ElementArrives(m, gcb + 20 + es[k].off, m2, clone + 20 + es[k].off, lay, drv, es[k].at)
  }

  /** A passed pointer, in terms of the layout. */
  lemma PassedArrives(m: Memory, scb8: nat, m2: Memory, dcb8: nat, lay: Layout, drv: Option<Layout>, e: Element, at: nat, next: nat)
    requires e.at < |lay| && IsFollowed(lay[e.at])
    requires Passed(m, scb8, m2, dcb8, SlotAt(lay, drv, e.at, e.off), at, next)
    ensures ElementArrives(m, scb8 + e.off, m2, dcb8 + e.off, lay, drv, e.at)
  {
    var p, q := Load(m, scb8 + e.off), Load(m2, dcb8 + e.off);
    var s := SlotAt(lay, drv, e.at, e.off);
    if p != 0 {
      var n := PointeeBytes(m, p, lay, drv, e.at);
      assert ObjectSize(m, p, s) == n + Hdr(s);
      var lo := if lay[e.at] == 44 || lay[e.at] == 51 then -8 else 0;
      forall x {:trigger m2[x]} | q + lo <= x < q + n
        ensures m2[x] == m[p + (x - q)]
      {
        assert p - Hdr(s) + (x - at) == p + (x - q);
      }
    }
  }

  /** A structure with its layout, the layout of its driver-typed objects, and its elements. */
  datatype Structure = Structure(lay: Layout, drv: Option<Layout>, es: seq<Element>, end: nat)
  {
    ghost predicate Valid() {
      Placed(lay, 0, 0, es, end)
    }
  }

  /** No pointer lies in an ordinary element. */
  lemma OrdinaryBytes(t: Structure, k: nat, y: int)
    requires t.Valid() && k < |t.es| && t.es[k].at < |t.lay| && !IsFollowed(t.lay[t.es[k].at])
    requires t.es[k].off <= y < t.es[k].off + ElementSize(t.lay, t.es[k].at).0
    ensures !InSlots(Followed(t.lay, t.drv, t.es), y)
  {
    var slots := Followed(t.lay, t.drv, t.es);
    forall i | 0 <= i < |slots|
      ensures slots[i].Malformed? || !(slots[i].off <= y < slots[i].off + WORD)
    {
      var j := FollowedFrom(t.lay, t.drv, t.es, i);
      if j < k {
        PlacedApart(t.lay, 0, 0, t.es, t.end, j, k);
      } else {
        PlacedApart(t.lay, 0, 0, t.es, t.end, k, j);
      }
    }
  }

  lemma FollowedArrives(m: Memory, m2: Memory, x: Parcel, ats: seq<nat>, t: Structure, k: nat)
    requires Delivered(m, x.gcb + CB, m2, x.clone + CB, x.slots, ats) && x.slots == Followed(t.lay, t.drv, t.es)
    requires k < |t.es| && t.es[k].at < |t.lay| && IsFollowed(t.lay[t.es[k].at])
    ensures ElementArrives(m, x.gcb + 20 + t.es[k].off, m2, x.clone + 20 + t.es[k].off, t.lay, t.drv, t.es[k].at)
  {
    var i := FollowedAt(t.lay, t.drv, t.es, k);
    DeliveredAt(m, x.gcb + CB, m2, x.clone + CB, x.slots, ats, i);
    PassedArrives(m, x.gcb + CB, m2, x.clone + CB, t.lay, t.drv, t.es[k], ats[i], ats[i + 1]);
  }

  lemma OrdinaryArrives(m: Memory, m2: Memory, x: Parcel, t: Structure, k: nat)
    requires x.gcb + CB + x.vis <= |m| && x.clone + CB + x.vis <= |m2|
    requires forall i {:trigger m2[i]} :: x.clone + CB <= i < x.clone + CB + x.vis && !InSlots(x.slots, i - x.clone - CB) ==>
               m2[i] == m[x.gcb + (i - x.clone)]
    requires t.Valid() && x.slots == Followed(t.lay, t.drv, t.es) && t.end <= x.vis
    requires k < |t.es| && t.es[k].at < |t.lay| && !IsFollowed(t.lay[t.es[k].at])
    ensures ElementArrives(m, x.gcb + 20 + t.es[k].off, m2, x.clone + 20 + t.es[k].off, t.lay, t.drv, t.es[k].at)
  {
    PlacedApart(t.lay, 0, 0, t.es, t.end, k, k);
    var w, w2, n := x.gcb + 20 + t.es[k].off, x.clone + 20 + t.es[k].off, ElementSize(t.lay, t.es[k].at).0;
    forall i {:trigger m2[i]} | w2 <= i < w2 + n
      ensures m2[i] == m[w + (i - w2)]
    {
      OrdinaryBytes(t, k, i - x.clone - CB);
      assert x.gcb + (i - x.clone) == w + (i - w2);
    }
  }

  /** The call, element by element. */
  lemma ElementsArrive(m: Memory, m2: Memory, x: Parcel, ats: seq<nat>, channel: nat, context: nat, origin: nat,
                       lay: Layout, drv: Option<Layout>)
    requires Arrived(m, m2, x, ats, channel, context, origin)
    requires x.slots == Slots(lay, drv, 0, 0) && x.vis == SizeFrom(lay, 0, 0)
    ensures AllArrive(m, x.gcb, m2, x.clone, lay, drv)
  {
    forall es: seq<Element>, end: nat, k: nat | Placed(lay, 0, 0, es, end) && k < |es|
      ensures es[k].at < |lay| && ElementArrives(m, x.gcb + 20 + es[k].off, m2, x.clone + 20 + es[k].off, lay, drv, es[k].at)
    {
      var t := Structure(lay, drv, es, end);
      PlacedApart(lay, 0, 0, es, end, k, k);
      SlotsAreFollowed(lay, drv, 0, 0, es, end);
      SizeOfPlaced(lay, 0, 0, es, end);
      if IsFollowed(lay[es[k].at]) {
        FollowedArrives(m, m2, x, ats, t, k);
      } else {
        OrdinaryArrives(m, m2, x, t, k);
      }
    }
  }

  /** What makes the sender refuse a block: a nested layout without a size, or a driver-typed one that is not there. */
  ghost predicate BadElement(lay: Layout, drv: Option<Layout>, i: nat) {
    || ((At(lay, i) == 50 || At(lay, i) == 51) && LayoutSize(lay, i + 1, false) < 0)
    || (At(lay, i) == 43 && (drv.None? || LayoutSize(drv.value, 0, false) < 0))
  }

  /** A new block is refused for its own inline objects alone; a driver-typed one that is not there is an argument error. */
  lemma {:induction false} CbNeedRefuses(lay: Layout, drv: Option<Layout>, es: seq<Element>)
    ensures CbNeed(Followed(lay, drv, es)) < 0 <==>
              exists k :: 0 <= k < |es| && BadElement(lay, drv, es[k].at) && At(lay, es[k].at) != 51
    ensures var need := CbNeed(Followed(lay, drv, es));
            need < 0 ==> need == -14 || (drv.None? && need == -10)
  {
    if es != [] {
      CbNeedRefuses(lay, drv, es[1..]);
      var rest := Followed(lay, drv, es[1..]);
      if IsFollowed(At(lay, es[0].at)) {
        var s := SlotAt(lay, drv, es[0].at, es[0].off);
        assert Followed(lay, drv, es) == [s] + rest && ([s] + rest)[1..] == rest;
      }
      assert forall k :: 0 < k < |es| ==> es[k] == es[1..][k - 1];
      if exists k :: 0 <= k < |es[1..]| && BadElement(lay, drv, es[1..][k].at) && At(lay, es[1..][k].at) != 51 {
        var k :| 0 <= k < |es[1..]| && BadElement(lay, drv, es[1..][k].at) && At(lay, es[1..][k].at) != 51;
        assert es[k + 1] == es[1..][k];
      }
    }
  }

  /** The sender refuses a block exactly when it has such an element. */
  lemma {:induction false} MeasureRefuses(m: Memory, cb8: nat, lay: Layout, drv: Option<Layout>, es: seq<Element>)
    ensures Measure(m, cb8, Followed(lay, drv, es)) < 0 <==> exists k :: 0 <= k < |es| && BadElement(lay, drv, es[k].at)
  {
    if es != [] {
      MeasureRefuses(m, cb8, lay, drv, es[1..]);
      var rest := Followed(lay, drv, es[1..]);
      if IsFollowed(At(lay, es[0].at)) {
        var s := SlotAt(lay, drv, es[0].at, es[0].off);
        assert Followed(lay, drv, es) == [s] + rest && ([s] + rest)[1..] == rest;
      }
      assert forall k :: 0 < k < |es| ==> es[k] == es[1..][k - 1];
      if exists k :: 0 <= k < |es[1..]| && BadElement(lay, drv, es[1..][k].at) {
        var k :| 0 <= k < |es[1..]| && BadElement(lay, drv, es[1..][k].at);
        assert BadElement(lay, drv, es[k + 1].at);
      }
    }
  }

  /** The inline sizes of the pointers before the `t`-th. */
  ghost function InlineSum(slots: seq<Slot>, t: nat): int
    requires t <= |slots|
  {
    if t == 0 then 0 else InlineSum(slots, t - 1) + if slots[t - 1].Inline? then slots[t - 1].size else 0
  }

  lemma {:induction false} InlineSumPrefix(slots: seq<Slot>, n: nat, t: nat)
    requires t <= n <= |slots|
    ensures InlineSum(slots[..n], t) == InlineSum(slots, t)
    decreases t
  {
    if t > 0 {
      InlineSumPrefix(slots, n, t - 1);
    }
  }

  lemma {:induction false} PartitionedAt(m: Memory, cb8: nat, slots: seq<Slot>, at: nat, end: int, t: nat)
    requires Partitioned(m, cb8, slots, at, end) && t <= |slots|
    ensures end == at + InlineSum(slots, |slots|)
    ensures t < |slots| && slots[t].Inline? ==> Load(m, cb8 + slots[t].off) == at + InlineSum(slots, t)
    decreases |slots|
  {
    if slots != [] {
      var last := |slots| - 1;
      var before := if slots[last].Inline? then end - slots[last].size else end;
      PartitionedAt(m, cb8, slots[..last], at, before, if t < last then t else last);
      InlineSumPrefix(slots, last, last);
      if t < last {
        InlineSumPrefix(slots, last, t);
      }
    }
  }

  lemma {:induction false} InlineSumCons(s: Slot, rest: seq<Slot>, t: nat)
    requires t <= |rest|
    ensures InlineSum([s] + rest, t + 1) == (if s.Inline? then s.size else 0) + InlineSum(rest, t)
  {
    if t > 0 {
      InlineSumCons(s, rest, t - 1);
    } else {
      assert InlineSum([s] + rest, 0) == 0;
    }
  }

  /** The bytes of inline space that the elements before the `k`-th are given: inline typed and driver typed ones only. */
  ghost function InlineBefore(lay: Layout, drv: Option<Layout>, es: seq<Element>, k: nat): int
    requires k <= |es|
  {
    if k == 0 then 0
    else
      InlineBefore(lay, drv, es[1..], k - 1)
      + if At(lay, es[0].at) == 50 then LayoutSize(lay, es[0].at + 1, false)
        else if At(lay, es[0].at) == 43 then OptionalSize(drv)
        else 0
  }

  /** Where an element is among the pointers, and that the inline space before it is the same either way. */
  lemma {:induction false} InlineSumAt(lay: Layout, drv: Option<Layout>, es: seq<Element>, k: nat) returns (t: nat)
    requires k <= |es|
    ensures t <= |Followed(lay, drv, es)| && InlineSum(Followed(lay, drv, es), t) == InlineBefore(lay, drv, es, k)
    ensures k == |es| ==> t == |Followed(lay, drv, es)|
    ensures k < |es| && IsFollowed(At(lay, es[k].at)) ==>
              t < |Followed(lay, drv, es)| && Followed(lay, drv, es)[t] == SlotAt(lay, drv, es[k].at, es[k].off)
    decreases |es|
  {
    if k == 0 {
      t := 0;
    } else {
      var rest := Followed(lay, drv, es[1..]);
      t := InlineSumAt(lay, drv, es[1..], k - 1);
      if IsFollowed(At(lay, es[0].at)) {
        InlineSumCons(SlotAt(lay, drv, es[0].at, es[0].off), rest, t);
        t := t + 1;
      }
    }
  }

  /**
   * A new control block of `vis` visible bytes at `cb`, element by element: an inline pointer addresses its own piece of
   * the space behind the block, pieces in order and without gap; every other element is left as it was.
   */
  ghost predicate InlineLaid(m: Memory, m2: Memory, cb: nat, lay: Layout, drv: Option<Layout>, vis: nat) {
    forall es: seq<Element>, end: nat, k: nat {:trigger ElementLaid(m, m2, cb, lay, drv, vis, es, k), Placed(lay, 0, 0, es, end)} ::
      Placed(lay, 0, 0, es, end) && k < |es| ==> ElementLaid(m, m2, cb, lay, drv, vis, es, k)
  }

  ghost predicate ElementLaid(m: Memory, m2: Memory, cb: nat, lay: Layout, drv: Option<Layout>, vis: nat, es: seq<Element>, k: nat)
    requires k < |es|
  {
    && es[k].at < |lay|
    && var w := cb + 20 + es[k].off;
       if lay[es[k].at] == 43 || lay[es[k].at] == 50 then Load(m2, w) == cb + 20 + vis + InlineBefore(lay, drv, es, k)
       else BytesArrive(m, w, m2, w, 0, ElementSize(lay, es[k].at).0)
  }

  /** No inline pointer lies in any other element. */
  lemma NotInline(t: Structure, k: nat, y: int)
    requires t.Valid() && k < |t.es| && t.es[k].at < |t.lay| && t.lay[t.es[k].at] != 43 && t.lay[t.es[k].at] != 50
    requires t.es[k].off <= y < t.es[k].off + ElementSize(t.lay, t.es[k].at).0
    ensures !InInline(Followed(t.lay, t.drv, t.es), y)
  {
    var slots := Followed(t.lay, t.drv, t.es);
    forall i | 0 <= i < |slots| && slots[i].Inline?
      ensures !(slots[i].off <= y < slots[i].off + WORD)
    {
      var j := FollowedFrom(t.lay, t.drv, t.es, i);
      if j < k {
        PlacedApart(t.lay, 0, 0, t.es, t.end, j, k);
      } else {
        PlacedApart(t.lay, 0, 0, t.es, t.end, k, j);
      }
    }
  }

  lemma OthersLaid(m: Memory, m2: Memory, cb: nat, slots: seq<Slot>, vis: nat, scratch: nat, t: Structure, k: nat)
    requires Allocated(m, m2, cb, slots, vis, scratch) && t.Valid() && slots == Followed(t.lay, t.drv, t.es) && t.end <= vis
    requires k < |t.es| && t.es[k].at < |t.lay| && t.lay[t.es[k].at] != 43 && t.lay[t.es[k].at] != 50
    ensures BytesArrive(m, cb + 20 + t.es[k].off, m2, cb + 20 + t.es[k].off, 0, ElementSize(t.lay, t.es[k].at).0)
  {
    PlacedApart(t.lay, 0, 0, t.es, t.end, k, k);
    var w, n := cb + 20 + t.es[k].off, ElementSize(t.lay, t.es[k].at).0;
    forall i {:trigger m2[i]} | w <= i < w + n
      ensures m2[i] == m[i]
    {
      NotInline(t, k, i - (cb + CB));
    }
  }

  lemma AllocatedLaid(m: Memory, m2: Memory, cb: nat, lay: Layout, drv: Option<Layout>, vis: nat, scratch: nat)
    requires Allocated(m, m2, cb, Slots(lay, drv, 0, 0), vis, scratch) && vis == SizeFrom(lay, 0, 0)
    ensures InlineLaid(m, m2, cb, lay, drv, vis)
  {
    var slots := Slots(lay, drv, 0, 0);
    forall es: seq<Element>, end: nat, k: nat | Placed(lay, 0, 0, es, end) && k < |es|
      ensures ElementLaid(m, m2, cb, lay, drv, vis, es, k)
    {
      PlacedApart(lay, 0, 0, es, end, k, k);
      SlotsAreFollowed(lay, drv, 0, 0, es, end);
      SizeOfPlaced(lay, 0, 0, es, end);
      if lay[es[k].at] == 43 || lay[es[k].at] == 50 {
        var t := InlineSumAt(lay, drv, es, k);
        PartitionedAt(m2, cb + CB, slots, cb + CB + vis, cb + CB + vis + CbNeed(slots), t);
      } else {
        OthersLaid(m, m2, cb, slots, vis, scratch, Structure(lay, drv, es, end), k);
      }
    }
  }
}
