/** Address-ordered tilings of an arena, shared by the two general purpose allocators.

    Both allocators keep only a list of free extents in real state.  Their
    correctness is stated against a ghost sequence of tiles in which free and live
    extents alternate in address order without holes.  Allocation and release are
    described here once, on tile sequences; Heap and MemoryBog each refine them with
    their own list surgery. */
module Tiling {

  /** An extent [lo, lo + len) of the arena.  A live one records where its header sits. */
  datatype Tile =
    | Free(lo: nat, len: nat)
    | Live(lo: nat, len: nat, hdr: nat)
  {
    function Hi(): nat {
      lo + len
    }

    predicate Holds(a: int) {
      lo <= a < Hi()
    }
  }

  /** A free extent as the allocators' own free lists see it. */
  datatype Block = Block(addr: nat, nBytes: nat)
  {
    function End(): nat {
      addr + nBytes
    }
  }

  /** `ts` lists non-empty tiles that run from `lo` to `hi` without gap or overlap. */
  ghost predicate Chain(ts: seq<Tile>, lo: nat, hi: nat) {
    if ts == [] then lo == hi
    else ts[0].lo == lo && ts[0].len > 0 && Chain(ts[1..], ts[0].Hi(), hi)
  }

  /** No two neighbouring tiles are both free. */
  ghost predicate Coalesced(ts: seq<Tile>) {
    forall i :: 0 < i < |ts| ==> ts[i - 1].Live? || ts[i].Live?
  }

  /** The free tiles, in order, as blocks. */
  ghost function FreeOf(ts: seq<Tile>): seq<Block> {
    if ts == [] then []
    else if ts[0].Live? then FreeOf(ts[1..])
    else [Block(ts[0].lo, ts[0].len)] + FreeOf(ts[1..])
  }

  ghost function LiveCount(ts: seq<Tile>): nat {
    if ts == [] then 0
    else (if ts[0].Live? then 1 else 0) + LiveCount(ts[1..])
  }

  ghost function LiveBytes(ts: seq<Tile>): nat {
    if ts == [] then 0
    else (if ts[0].Live? then ts[0].len else 0) + LiveBytes(ts[1..])
  }

  ghost function BlockBytes(bs: seq<Block>): nat {
    if bs == [] then 0 else bs[0].nBytes + BlockBytes(bs[1..])
  }

  // ----- chains -----

  /** A chain can be cut at any index; the cut falls at the start of the tile there. */
  lemma {:induction false} ChainSplit(ts: seq<Tile>, k: nat, lo: nat, hi: nat)
    requires Chain(ts, lo, hi) && k <= |ts|
    ensures var mid := if k < |ts| then ts[k].lo else hi;
            lo <= mid <= hi && Chain(ts[..k], lo, mid) && Chain(ts[k..], mid, hi)
    decreases |ts|
  {
    if ts == [] {
    } else if k == 0 {
      ChainSplit(ts[1..], 0, ts[0].Hi(), hi);
      assert ts[0..] == ts;
    } else {
      ChainSplit(ts[1..], k - 1, ts[0].Hi(), hi);
      assert ts[..k][1..] == ts[1..][..k - 1];
      assert ts[1..][k - 1..] == ts[k..];
    }
  }

  lemma {:induction false} ChainJoin(a: seq<Tile>, b: seq<Tile>, lo: nat, mid: nat, hi: nat)
    requires Chain(a, lo, mid) && Chain(b, mid, hi)
    ensures Chain(a + b, lo, hi)
    decreases |a|
  {
    if a == [] {
      assert a + b == b;
    } else {
      ChainJoin(a[1..], b, a[0].Hi(), mid, hi);
      assert (a + b)[1..] == a[1..] + b;
    }
  }

  /** Tiles at different indices never overlap, and each lies inside the arena. */
  lemma ChainOrder(ts: seq<Tile>, i: nat, j: nat, lo: nat, hi: nat)
    requires Chain(ts, lo, hi) && i < j < |ts|
    ensures lo <= ts[i].lo < ts[i].Hi() <= ts[j].lo < ts[j].Hi() <= hi
    ensures ts[i].Hi() == ts[j].lo <==> j == i + 1
  {
    ChainSplit(ts, i, lo, hi);
    ChainSplit(ts, j, lo, hi);
    ChainSplit(ts[i + 1..], j - (i + 1), ts[i].Hi(), hi);
    ChainBounds(ts, i, lo, hi);
    ChainBounds(ts, j, lo, hi);
    if j > i + 1 {
      ChainBounds(ts, i + 1, lo, hi);
      ChainSplit(ts[i + 2..], j - (i + 2), ts[i + 1].Hi(), hi);
    }
  }

  lemma ChainBounds(ts: seq<Tile>, k: nat, lo: nat, hi: nat)
    requires Chain(ts, lo, hi) && k < |ts|
    ensures lo <= ts[k].lo < ts[k].Hi() <= hi
    ensures Chain(ts[k + 1..], ts[k].Hi(), hi)
  {
    ChainSplit(ts, k, lo, hi);
    assert ts[k..][1..] == ts[k + 1..];
    ChainSplit(ts[k + 1..], 0, ts[k].Hi(), hi);
  }

  /** The arena is partitioned: every address lies in exactly one tile. */
  lemma {:induction false} ChainCovers(ts: seq<Tile>, lo: nat, hi: nat, a: int) returns (k: nat)
    requires Chain(ts, lo, hi) && lo <= a < hi
    ensures k < |ts| && ts[k].Holds(a)
    ensures forall j :: 0 <= j < |ts| && ts[j].Holds(a) ==> j == k
    decreases |ts|
  {
    if ts[0].Holds(a) {
      k := 0;
    } else {
      var m := ChainCovers(ts[1..], ts[0].Hi(), hi, a);
      k := m + 1;
    }
    forall j | 0 <= j < |ts| && ts[j].Holds(a) ensures j == k {
      if j < k {
        ChainOrder(ts, j, k, lo, hi);
      } else if k < j {
        ChainOrder(ts, k, j, lo, hi);
      }
    }
  }

  /** Bytes are conserved: what is free and what is live add up to the arena. */
  lemma {:induction false} ChainBytes(ts: seq<Tile>, lo: nat, hi: nat)
    requires Chain(ts, lo, hi)
    ensures BlockBytes(FreeOf(ts)) + LiveBytes(ts) == hi - lo
  {
    if ts != [] {
      ChainBytes(ts[1..], ts[0].Hi(), hi);
      assert ts[0].Free? ==> FreeOf(ts)[1..] == FreeOf(ts[1..]);
    }
  }

  /** An arena with nothing live in it, once coalesced, is one free tile. */
  lemma {:induction false} AllFreeIsOneBlock(ts: seq<Tile>, lo: nat, hi: nat)
    requires Chain(ts, lo, hi) && lo < hi && Coalesced(ts) && LiveCount(ts) == 0
    ensures ts == [Free(lo, hi - lo)] && FreeOf(ts) == [Block(lo, hi - lo)]
  {
    assert |ts| == 1;
    assert ts[1..] == [];
  }

  // ----- free lists -----

  lemma {:induction false} FreeOfConcat(a: seq<Tile>, b: seq<Tile>)
    ensures FreeOf(a + b) == FreeOf(a) + FreeOf(b)
    ensures LiveCount(a + b) == LiveCount(a) + LiveCount(b)
    decreases |a|
  {
    if a == [] {
      assert a + b == b;
    } else {
      FreeOfConcat(a[1..], b);
      assert (a + b)[1..] == a[1..] + b;
      assert a[0].Free? ==> FreeOf(a + b) == [Block(a[0].lo, a[0].len)] + FreeOf(a[1..]) + FreeOf(b);
    }
  }

  lemma FreeOfCons(x: Tile, rest: seq<Tile>)
    ensures FreeOf([x] + rest) == if x.Live? then FreeOf(rest) else [Block(x.lo, x.len)] + FreeOf(rest)
    ensures LiveCount([x] + rest) == (if x.Live? then 1 else 0) + LiveCount(rest)
  {
    assert ([x] + rest)[1..] == rest;
  }

  /** Cuts the free list and the live count of a tile sequence around index `t`. */
  lemma FreeOfAround(ts: seq<Tile>, t: nat)
    requires t < |ts|
    ensures ts[t].Free? ==> FreeOf(ts) == FreeOf(ts[..t]) + [Block(ts[t].lo, ts[t].len)] + FreeOf(ts[t + 1..])
    ensures ts[t].Live? ==> FreeOf(ts) == FreeOf(ts[..t]) + FreeOf(ts[t + 1..])
    ensures LiveCount(ts) == LiveCount(ts[..t]) + (if ts[t].Live? then 1 else 0) + LiveCount(ts[t + 1..])
  {
    var before, x, after := ts[..t], ts[t], ts[t + 1..];
    assert ts == before + ([x] + after);
    FreeOfConcat(before, [x] + after);
    FreeOfCons(x, after);
  }

  /** The tile behind the `i`-th free block. */
  lemma TileOfBlock(ts: seq<Tile>, i: nat) returns (t: nat)
    requires i < |FreeOf(ts)|
    ensures t < |ts| && ts[t] == Free(FreeOf(ts)[i].addr, FreeOf(ts)[i].nBytes)
    ensures |FreeOf(ts[..t])| == i
    ensures FreeOf(ts)[..i] == FreeOf(ts[..t]) && FreeOf(ts)[i + 1..] == FreeOf(ts[t + 1..])
  {
    t := FreeTileAt(ts, i);
    FreeOfAround(ts, t);
  }

  lemma {:induction false} FreeTileAt(ts: seq<Tile>, i: nat) returns (t: nat)
    requires i < |FreeOf(ts)|
    ensures t < |ts| && ts[t].Free? && |FreeOf(ts[..t])| == i
    decreases |ts|
  {
    if ts[0].Free? && i == 0 {
      t := 0;
    } else {
      var m := FreeTileAt(ts[1..], if ts[0].Free? then i - 1 else i);
      t := m + 1;
      assert ts[..t][1..] == ts[1..][..m];
    }
  }

  /** Every free block stays inside the extent its chain spans. */
  lemma {:induction false} BlocksWithin(ts: seq<Tile>, lo: nat, hi: nat)
    requires Chain(ts, lo, hi)
    ensures forall b :: b in FreeOf(ts) ==> b.nBytes > 0 && lo <= b.addr && b.End() <= hi
    ensures lo <= hi
    decreases |ts|
  {
    if ts != [] {
      BlocksWithin(ts[1..], ts[0].Hi(), hi);
    }
  }

  /** Address-sorted, and separated by at least one live byte. */
  ghost predicate SortedApart(bs: seq<Block>) {
    forall i, j :: 0 <= i < j < |bs| ==> bs[i].nBytes > 0 && bs[i].End() < bs[j].addr
  }

  lemma {:induction false} BlocksSortedApart(ts: seq<Tile>, lo: nat, hi: nat)
    requires Chain(ts, lo, hi) && Coalesced(ts)
    ensures SortedApart(FreeOf(ts))
    decreases |ts|
  {
    if ts != [] {
      var rest := ts[1..];
      assert Coalesced(rest) by {
        forall i | 0 < i < |rest| ensures rest[i - 1].Live? || rest[i].Live? {
          assert rest[i] == ts[i + 1] && rest[i - 1] == ts[i];
        }
      }
      BlocksSortedApart(rest, ts[0].Hi(), hi);
      if ts[0].Free? {
        if rest != [] {
          assert rest[0].Live?;
          BlocksWithin(rest[1..], rest[0].Hi(), hi);
        }
        assert FreeOf(ts) == [Block(ts[0].lo, ts[0].len)] + FreeOf(rest);
      }
    }
  }

  // ----- the two allocator operations on tiles -----

  /** Replaces the tile at `t` by `mid`. */
  ghost function Splice(ts: seq<Tile>, t: nat, mid: seq<Tile>): seq<Tile>
    requires t < |ts|
  {
    ts[..t] + mid + ts[t + 1..]
  }

  lemma SpliceKeeps(ts: seq<Tile>, t: nat, mid: seq<Tile>, lo: nat, hi: nat)
    requires Chain(ts, lo, hi) && t < |ts| && Chain(mid, ts[t].lo, ts[t].Hi())
    ensures Chain(Splice(ts, t, mid), lo, hi)
    ensures FreeOf(Splice(ts, t, mid)) == FreeOf(ts[..t]) + FreeOf(mid) + FreeOf(ts[t + 1..])
    ensures LiveCount(Splice(ts, t, mid)) == LiveCount(ts[..t]) + LiveCount(mid) + LiveCount(ts[t + 1..])
  {
    ChainSplit(ts, t, lo, hi);
    ChainBounds(ts, t, lo, hi);
    ChainJoin(ts[..t], mid, lo, ts[t].lo, ts[t].Hi());
    ChainJoin(ts[..t] + mid, ts[t + 1..], lo, ts[t].Hi(), hi);
    FreeOfConcat(ts[..t] + mid, ts[t + 1..]);
    FreeOfConcat(ts[..t], mid);
  }

  /** Splicing in a sequence with at most one free tile, flanked by live neighbours or
      by its own live tile on that side, leaves the tiling coalesced. */
  lemma SpliceCoalesced(ts: seq<Tile>, t: nat, mid: seq<Tile>)
    requires Coalesced(ts) && t < |ts| && ts[t].Free? && mid != [] && Coalesced(mid)
    ensures Coalesced(Splice(ts, t, mid))
  {
    var r := Splice(ts, t, mid);
    forall i | 0 < i < |r| ensures r[i - 1].Live? || r[i].Live? {
      if i < t {
        assert r[i] == ts[i] && r[i - 1] == ts[i - 1];
      } else if i == t {
        assert r[i - 1] == ts[t - 1];
        assert ts[t - 1].Live?;
      } else if i < t + |mid| {
        assert r[i] == mid[i - t] && r[i - 1] == mid[i - t - 1];
      } else {
        var k := i - |mid| + 1;
        assert r[i] == ts[k];
        if k == t + 1 {
          assert ts[k - 1].Live? || ts[k].Live?;
        } else {
          assert r[i - 1] == ts[k - 1];
        }
      }
    }
  }

  /** First index of the free extent that swallows the tile at `t` when it is released. */
  ghost function From(ts: seq<Tile>, t: nat): nat
    requires t < |ts|
  {
    if t > 0 && ts[t - 1].Free? then t - 1 else t
  }

  /** One past the last index of that extent. */
  ghost function To(ts: seq<Tile>, t: nat): nat
    requires t < |ts|
  {
    if t + 1 < |ts| && ts[t + 1].Free? then t + 2 else t + 1
  }

  /** Total length of the tiles from `a` up to `b`. */
  ghost function Span(ts: seq<Tile>, a: nat, b: nat): nat
    requires a <= b <= |ts|
    decreases b - a
  {
    if a == b then 0 else ts[a].len + Span(ts, a + 1, b)
  }

  /** Releasing the tile at `t`: it fuses with whichever neighbours are free. */
  ghost function Released(ts: seq<Tile>, t: nat): seq<Tile>
    requires t < |ts|
  {
    var a, b := From(ts, t), To(ts, t);
    ts[..a] + [Free(ts[a].lo, Span(ts, a, b))] + ts[b..]
  }

  /** The fused tile spans everything it swallowed. */
  lemma ReleasedSpan(ts: seq<Tile>, t: nat, lo: nat, hi: nat)
    requires Chain(ts, lo, hi) && t < |ts|
    ensures var a, b := From(ts, t), To(ts, t);
      && ts[a].lo < ts[b - 1].Hi()
      && Released(ts, t) == ts[..a] + [Free(ts[a].lo, ts[b - 1].Hi() - ts[a].lo)] + ts[b..]
  {
    SpanOf(ts, From(ts, t), To(ts, t), lo, hi);
  }

  lemma {:induction false} SpanOf(ts: seq<Tile>, a: nat, b: nat, lo: nat, hi: nat)
    requires Chain(ts, lo, hi) && a < b <= |ts|
    ensures ts[a].lo < ts[b - 1].Hi() && Span(ts, a, b) == ts[b - 1].Hi() - ts[a].lo
    decreases b - a
  {
    ChainBounds(ts, a, lo, hi);
    if a + 1 < b {
      ChainOrder(ts, a, a + 1, lo, hi);
      SpanOf(ts, a + 1, b, lo, hi);
    }
  }

  lemma ReleasedBlocks(ts: seq<Tile>, t: nat, lo: nat, hi: nat)
    requires Chain(ts, lo, hi) && t < |ts|
    ensures var a, b := From(ts, t), To(ts, t);
      && ts[a].lo < ts[b - 1].Hi()
      && FreeOf(Released(ts, t)) == FreeOf(ts[..a]) + [Block(ts[a].lo, ts[b - 1].Hi() - ts[a].lo)] + FreeOf(ts[b..])
      && LiveCount(Released(ts, t)) == LiveCount(ts[..a]) + LiveCount(ts[b..])
  {
    var a, b := From(ts, t), To(ts, t);
    ReleasedSpan(ts, t, lo, hi);
    var r := Released(ts, t);
    FreeOfAround(r, a);
    assert r[..a] == ts[..a] && r[a + 1..] == ts[b..];
  }

  lemma ReleasedChain(ts: seq<Tile>, t: nat, lo: nat, hi: nat)
    requires Chain(ts, lo, hi) && t < |ts|
    ensures Chain(Released(ts, t), lo, hi)
  {
    var a, b := From(ts, t), To(ts, t);
    ReleasedSpan(ts, t, lo, hi);
    var m := Free(ts[a].lo, ts[b - 1].Hi() - ts[a].lo);
    assert [m][1..] == [];
    ChainSplit(ts, a, lo, hi);
    ChainBounds(ts, b - 1, lo, hi);
    ChainJoin(ts[..a], [m], lo, m.lo, m.Hi());
    ChainJoin(ts[..a] + [m], ts[b..], lo, m.Hi(), hi);
  }

  lemma ReleasedKeeps(ts: seq<Tile>, t: nat, lo: nat, hi: nat)
    requires Chain(ts, lo, hi) && Coalesced(ts) && t < |ts| && ts[t].Live?
    ensures Chain(Released(ts, t), lo, hi) && Coalesced(Released(ts, t))
    ensures LiveCount(Released(ts, t)) == LiveCount(ts) - 1
  {
    ReleasedChain(ts, t, lo, hi);
    ReleasedBlocks(ts, t, lo, hi);
    ReleasedCount(ts, t);
    ReleasedCoalesced(ts, t);
  }

  lemma ReleasedCount(ts: seq<Tile>, t: nat)
    requires t < |ts| && ts[t].Live?
    ensures LiveCount(ts) == LiveCount(ts[..From(ts, t)]) + 1 + LiveCount(ts[To(ts, t)..])
  {
    var a, b := From(ts, t), To(ts, t);
    FreeOfAround(ts, t);
    if a < t {
      FreeOfAround(ts[..t], a);
      assert ts[..t][..a] == ts[..a] && ts[..t][a + 1..] == [];
    }
    if t + 1 < b {
      FreeOfAround(ts[t + 1..], 0);
      assert ts[t + 1..][1..] == ts[b..];
    }
  }

  lemma ReleasedCoalesced(ts: seq<Tile>, t: nat)
    requires Coalesced(ts) && t < |ts| && ts[t].Live?
    ensures Coalesced(Released(ts, t))
  {
    var a, b := From(ts, t), To(ts, t);
    var r := Released(ts, t);
    assert 0 < a ==> ts[a - 1].Live?;
    assert b < |ts| ==> ts[b].Live?;
    forall i | 0 < i < |r| ensures r[i - 1].Live? || r[i].Live? {
      if i < a {
        assert r[i] == ts[i] && r[i - 1] == ts[i - 1];
      } else if i == a {
        assert r[i - 1] == ts[a - 1];
      } else if i == a + 1 {
        assert r[i] == ts[b];
      } else {
        assert r[i] == ts[b + i - a - 1] && r[i - 1] == ts[b + i - a - 2];
      }
    }
  }

  /** What a release leaves alone: every live tile but the released one survives. */
  lemma ReleasedLives(ts: seq<Tile>, t: nat, x: Tile, lo: nat, hi: nat)
    requires Chain(ts, lo, hi) && t < |ts| && ts[t].Live? && x.Live?
    ensures x in Released(ts, t) <==> x in ts && x != ts[t]
  {
    var a, b := From(ts, t), To(ts, t);
    var r := Released(ts, t);
    if x in ts && x != ts[t] {
      var k :| 0 <= k < |ts| && ts[k] == x;
      if k < a { assert r[k] == x; } else { assert k >= b; assert r[k - b + a + 1] == x; }
    }
    if x in r {
      var k :| 0 <= k < |r| && r[k] == x;
      var j := if k < a then k else k - a - 1 + b;
      assert k != a && ts[j] == x;
      if j < t { ChainOrder(ts, j, t, lo, hi); } else { ChainOrder(ts, t, j, lo, hi); }
    }
  }

  // ----- the two operations on an arena -----

  /** An arena: a coalesced tiling, its free list, and the number of live tiles. */
  ghost predicate Arena(ts: seq<Tile>, bs: seq<Block>, n: nat, lo: nat, hi: nat) {
    Chain(ts, lo, hi) && Coalesced(ts) && bs == FreeOf(ts) && n == LiveCount(ts)
  }

  /** A fresh arena: one free tile spans it. */
  lemma OneFree(lo: nat, hi: nat)
    requires lo < hi
    ensures Arena([Free(lo, hi - lo)], [Block(lo, hi - lo)], 0, lo, hi)
  {
    assert [Free(lo, hi - lo)][1..] == [];
  }

  /** A block given away whole. */
  lemma WholeLive(x: Tile)
    requires x.Live? && x.len > 0
    ensures Chain([x], x.lo, x.Hi()) && Coalesced([x]) && LiveCount([x]) == 1 && FreeOf([x]) == []
  {
    assert [x][1..] == [];
  }

  /** A block split in two: `x` goes out, `f` stays, in either order. */
  lemma SplitLive(x: Tile, f: Tile)
    requires x.Live? && f.Free? && x.len > 0 && f.len > 0
    ensures x.Hi() == f.lo ==> Chain([x, f], x.lo, f.Hi())
    ensures f.Hi() == x.lo ==> Chain([f, x], f.lo, x.Hi())
    ensures Coalesced([x, f]) && LiveCount([x, f]) == 1 && FreeOf([x, f]) == [Block(f.lo, f.len)]
    ensures Coalesced([f, x]) && LiveCount([f, x]) == 1 && FreeOf([f, x]) == [Block(f.lo, f.len)]
  {
    assert [x, f] == [x] + [f] && [f, x] == [f] + [x];
    assert [x, f][1..] == [f] && [f, x][1..] == [x] && [f][1..] == [] && [x][1..] == [];
    FreeOfConcat([x], [f]);
    FreeOfConcat([f], [x]);
    assert FreeOf([f]) == [Block(f.lo, f.len)] && FreeOf([x]) == [];
  }

  /** Exactly one live tile, `x`, was added. */
  ghost predicate AddsLive(before: seq<Tile>, after: seq<Tile>, x: Tile) {
    x !in before && forall y: Tile :: y.Live? ==> (y in after <==> y in before || y == x)
  }

  /** Exactly one live tile, `x`, was removed. */
  ghost predicate DropsLive(before: seq<Tile>, after: seq<Tile>, x: Tile) {
    x in before && forall y: Tile :: y.Live? ==> (y in after <==> y in before && y != x)
  }

  /** Index of the first block with room for `need` bytes; |bs| when there is none. */
  ghost function FirstFit(bs: seq<Block>, need: nat): (i: nat)
    ensures i <= |bs|
    ensures forall j :: 0 <= j < i ==> bs[j].nBytes < need
    ensures i < |bs| ==> bs[i].nBytes >= need
  {
    if bs == [] || bs[0].nBytes >= need then 0 else 1 + FirstFit(bs[1..], need)
  }

  /** The first-fit scan of a free list. */
  method ScanFit(bs: seq<Block>, need: nat) returns (i: nat)
    ensures i == FirstFit(bs, need)
    ensures i == |bs| <==> forall b :: b in bs ==> b.nBytes < need
  {
    i := 0;
    while i < |bs| && need > bs[i].nBytes
      invariant i <= |bs| && i <= FirstFit(bs, need)
      invariant forall j :: 0 <= j < i ==> bs[j].nBytes < need
    {
      i := i + 1;
    }
  }

  /**
   * A request for `need` bytes took them from the first free block with room: the whole block if it had at most `slack`
   * bytes more than that, and exactly `need` bytes of it otherwise.
   */
  ghost predicate Carved(before: seq<Tile>, after: seq<Tile>, need: nat, slack: nat) {
    var bs := FreeOf(before);
    var i := FirstFit(bs, need);
    && i < |bs|
    && LiveBytes(after) - LiveBytes(before) == if bs[i].nBytes <= need + slack then bs[i].nBytes else need
  }

  /** Nothing is given away but a remainder of at most `slack` bytes, and that only with the last of a block. */
  lemma CarvedBounds(before: seq<Tile>, after: seq<Tile>, need: nat, slack: nat)
    requires Carved(before, after, need, slack)
    ensures need <= LiveBytes(after) - LiveBytes(before) <= need + slack
    ensures LiveBytes(after) - LiveBytes(before) > need ==> FreeOf(before)[FirstFit(FreeOf(before), need)].nBytes <= need + slack
  {
  }

  lemma {:induction false} BlockBytesConcat(a: seq<Block>, b: seq<Block>)
    ensures BlockBytes(a + b) == BlockBytes(a) + BlockBytes(b)
  {
    if a == [] {
      assert a + b == b;
    } else {
      BlockBytesConcat(a[1..], b);
      assert (a + b)[1..] == a[1..] + b;
    }
  }

  lemma BlockBytesSplice(bs: seq<Block>, i: nat, mid: seq<Block>)
    requires i < |bs|
    ensures BlockBytes(bs[..i] + mid + bs[i + 1..]) == BlockBytes(bs) - bs[i].nBytes + BlockBytes(mid)
  {
    BlockBytesConcat(bs[..i] + mid, bs[i + 1..]);
    BlockBytesConcat(bs[..i], mid);
    BlockBytesConcat(bs[..i], bs[i..]);
    assert bs[..i] + bs[i..] == bs && bs[i..][1..] == bs[i + 1..];
  }

  /** What leaves the free list goes into live tiles. */
  lemma CarvedBytes(before: seq<Tile>, after: seq<Tile>, lo: nat, hi: nat, i: nat, mid: seq<Block>)
    requires Chain(before, lo, hi) && Chain(after, lo, hi) && i < |FreeOf(before)| && |mid| <= 1
    requires FreeOf(after) == FreeOf(before)[..i] + mid + FreeOf(before)[i + 1..]
    ensures LiveBytes(after) - LiveBytes(before) == FreeOf(before)[i].nBytes - if mid == [] then 0 else mid[0].nBytes
  {
    ChainBytes(before, lo, hi);
    ChainBytes(after, lo, hi);
    BlockBytesSplice(FreeOf(before), i, mid);
    assert mid != [] ==> mid[1..] == [];
  }

  /** `mid` is what a request for `need` bytes leaves of block `b`. */
  ghost predicate Leaves(b: Block, mid: seq<Block>, need: nat, slack: nat) {
    if b.nBytes <= need + slack then mid == [] else |mid| == 1 && mid[0].nBytes == b.nBytes - need
  }

  lemma CarvedBy(before: seq<Tile>, after: seq<Tile>, lo: nat, hi: nat, i: nat, mid: seq<Block>, need: nat, slack: nat)
    requires Chain(before, lo, hi) && Chain(after, lo, hi) && i == FirstFit(FreeOf(before), need) < |FreeOf(before)|
    requires FreeOf(after) == FreeOf(before)[..i] + mid + FreeOf(before)[i + 1..]
    requires Leaves(FreeOf(before)[i], mid, need, slack)
    ensures Carved(before, after, need, slack)
  {
    CarvedBytes(before, after, lo, hi, i, mid);
  }

  lemma SpliceLive(ts: seq<Tile>, t: nat, mid: seq<Tile>, lo: nat, hi: nat, x: Tile)
    requires Chain(ts, lo, hi) && t < |ts| && ts[t].Free? && x in mid && x.Live?
    requires Chain(mid, ts[t].lo, ts[t].Hi()) && forall y :: y in mid && y.Live? ==> y == x
    ensures AddsLive(ts, Splice(ts, t, mid), x)
  {
    NotYetThere(ts, t, mid, lo, hi, x);
    forall y: Tile | y.Live? ensures y in Splice(ts, t, mid) <==> y in ts || y == x {
      SpliceMember(ts, t, mid, y);
    }
  }

  /** A live tile in place of a free one overlaps no tile that was there. */
  lemma NotYetThere(ts: seq<Tile>, t: nat, mid: seq<Tile>, lo: nat, hi: nat, x: Tile)
    requires Chain(ts, lo, hi) && t < |ts| && ts[t].Free? && x in mid && x.Live? && Chain(mid, ts[t].lo, ts[t].Hi())
    ensures x !in ts
  {
    var m :| 0 <= m < |mid| && mid[m] == x;
    ChainBounds(mid, m, ts[t].lo, ts[t].Hi());
    if x in ts {
      var k :| 0 <= k < |ts| && ts[k] == x;
      if k < t { ChainOrder(ts, k, t, lo, hi); } else { ChainOrder(ts, t, k, lo, hi); }
    }
  }

  lemma SpliceMember(ts: seq<Tile>, t: nat, mid: seq<Tile>, y: Tile)
    requires t < |ts| && y != ts[t]
    ensures y in Splice(ts, t, mid) <==> y in ts || y in mid
  {
    assert ts == ts[..t] + [ts[t]] + ts[t + 1..];
  }

  /** Replacing the `i`-th block's tile by `mid`, which holds one live tile `x`. */
  lemma Carve(ts: seq<Tile>, bs: seq<Block>, n: nat, lo: nat, hi: nat, i: nat, mid: seq<Tile>, x: Tile)
    returns (after: seq<Tile>)
    requires Arena(ts, bs, n, lo, hi) && i < |bs|
    requires Chain(mid, bs[i].addr, bs[i].End()) && Coalesced(mid) && LiveCount(mid) == 1
    requires x in mid && x.Live? && forall y :: y in mid && y.Live? ==> y == x
    ensures Arena(after, bs[..i] + FreeOf(mid) + bs[i + 1..], n + 1, lo, hi)
    ensures AddsLive(ts, after, x) && forall y :: y in after ==> y in ts || y in mid
  {
    var t := TileOfBlock(ts, i);
    after := Splice(ts, t, mid);
    SpliceKeeps(ts, t, mid, lo, hi);
    SpliceCoalesced(ts, t, mid);
    SpliceLive(ts, t, mid, lo, hi, x);
    FreeOfAround(ts, t);
  }

  /** The block list after the extent [lo, lo + len) is freed at position `j`. */
  ghost function Fused(bs: seq<Block>, j: nat, lo: nat, len: nat): seq<Block>
    requires j <= |bs|
  {
    var before := j > 0 && bs[j - 1].End() == lo;
    var behind := j < |bs| && lo + len == bs[j].addr;
    if before && behind then
      bs[..j - 1] + [Block(bs[j - 1].addr, bs[j - 1].nBytes + len + bs[j].nBytes)] + bs[j + 1..]
    else if before then
      bs[..j - 1] + [Block(bs[j - 1].addr, bs[j - 1].nBytes + len)] + bs[j..]
    else if behind then
      bs[..j] + [Block(lo, len + bs[j].nBytes)] + bs[j + 1..]
    else
      bs[..j] + [Block(lo, len)] + bs[j..]
  }

  /** Blocks below `j` end at or before `lo`, those from `j` on start at or after `hi`. */
  ghost predicate Around(bs: seq<Block>, j: nat, lo: nat, hi: nat) {
    && j <= |bs|
    && (forall i :: 0 <= i < j ==> bs[i].nBytes > 0 && bs[i].End() <= lo)
    && (forall i :: j <= i < |bs| ==> bs[i].nBytes > 0 && hi <= bs[i].addr)
  }

  lemma LeftNeighbour(ts: seq<Tile>, t: nat, lo: nat, hi: nat)
    requires Chain(ts, lo, hi) && t < |ts|
    ensures var fs := FreeOf(ts[..t]);
      if t > 0 && ts[t - 1].Free?
      then fs == FreeOf(ts[..t - 1]) + [Block(ts[t - 1].lo, ts[t - 1].len)] && ts[t - 1].Hi() == ts[t].lo
      else forall b :: b in fs ==> b.End() < ts[t].lo
  {
    if t > 0 {
      var left := ts[..t];
      FreeOfAround(left, t - 1);
      assert left[..t - 1] == ts[..t - 1] && left[t..] == [];
      ChainOrder(ts, t - 1, t, lo, hi);
      ChainSplit(ts, t - 1, lo, hi);
      BlocksWithin(ts[..t - 1], lo, ts[t - 1].lo);
    }
  }

  lemma RightNeighbour(ts: seq<Tile>, t: nat, lo: nat, hi: nat)
    requires Chain(ts, lo, hi) && t < |ts|
    ensures var fs := FreeOf(ts[t + 1..]);
      if t + 1 < |ts| && ts[t + 1].Free?
      then fs == [Block(ts[t + 1].lo, ts[t + 1].len)] + FreeOf(ts[t + 2..]) && ts[t].Hi() == ts[t + 1].lo
      else forall b :: b in fs ==> ts[t].Hi() < b.addr
  {
    if t + 1 < |ts| {
      var right := ts[t + 1..];
      assert right[1..] == ts[t + 2..];
      ChainOrder(ts, t, t + 1, lo, hi);
      ChainBounds(ts, t + 1, lo, hi);
      BlocksWithin(ts[t + 2..], ts[t + 1].Hi(), hi);
    }
  }

  lemma AroundJoin(left: seq<Block>, right: seq<Block>, lo: nat, hi: nat)
    requires forall b :: b in left ==> b.nBytes > 0 && b.End() <= lo
    requires forall b :: b in right ==> b.nBytes > 0 && hi <= b.addr
    ensures Around(left + right, |left|, lo, hi)
  {
    var bs := left + right;
    forall i | 0 <= i < |bs| ensures if i < |left| then bs[i] in left else bs[i] in right {
      assert bs[i] == if i < |left| then left[i] else right[i - |left|];
    }
  }

  lemma ReleaseAround(ts: seq<Tile>, t: nat, lo: nat, hi: nat)
    requires Chain(ts, lo, hi) && t < |ts| && ts[t].Live?
    ensures Around(FreeOf(ts), |FreeOf(ts[..t])|, ts[t].lo, ts[t].Hi())
  {
    FreeOfAround(ts, t);
    ChainSplit(ts, t, lo, hi);
    ChainBounds(ts, t, lo, hi);
    BlocksWithin(ts[..t], lo, ts[t].lo);
    BlocksWithin(ts[t + 1..], ts[t].Hi(), hi);
    AroundJoin(FreeOf(ts[..t]), FreeOf(ts[t + 1..]), ts[t].lo, ts[t].Hi());
  }

  /** `Fused` in the middle of a list: `pre` and `post` are what remains on either side once a
      touching neighbour, if any, has gone into `m`. */
  lemma FusedBetween(left: seq<Block>, right: seq<Block>, pre: seq<Block>, m: Block, post: seq<Block>, lo: nat, len: nat)
    requires if left != [] && left[|left| - 1].End() == lo
             then pre == left[..|left| - 1] && m.addr == left[|left| - 1].addr
             else pre == left && m.addr == lo
    requires if right != [] && lo + len == right[0].addr
             then post == right[1..] && m.End() == right[0].End()
             else post == right && m.End() == lo + len
    ensures Fused(left + right, |left|, lo, len) == pre + [m] + post
  {
    var bs, j := left + right, |left|;
    assert bs[..j] == left && bs[j..] == right;
    assert j > 0 ==> bs[j - 1] == left[j - 1] && bs[..j - 1] == left[..j - 1];
    assert right != [] ==> bs[j] == right[0] && bs[j + 1..] == right[1..];
  }

  /** The blocks on the left that a release leaves, and where its own block starts. */
  lemma LeftRemains(ts: seq<Tile>, t: nat, lo: nat, hi: nat)
    requires Chain(ts, lo, hi) && t < |ts|
    ensures var left, a := FreeOf(ts[..t]), From(ts, t);
      if left != [] && left[|left| - 1].End() == ts[t].lo
      then FreeOf(ts[..a]) == left[..|left| - 1] && ts[a].lo == left[|left| - 1].addr
      else FreeOf(ts[..a]) == left && ts[a].lo == ts[t].lo
  {
    var left := FreeOf(ts[..t]);
    LeftNeighbour(ts, t, lo, hi);
    assert left != [] ==> left[|left| - 1] in left;
    if t > 0 && ts[t - 1].Free? {
      assert left[..|left| - 1] == FreeOf(ts[..t - 1]);
    }
  }

  /** The blocks on the right that a release leaves, and where its own block ends. */
  lemma RightRemains(ts: seq<Tile>, t: nat, lo: nat, hi: nat)
    requires Chain(ts, lo, hi) && t < |ts|
    ensures var right, b := FreeOf(ts[t + 1..]), To(ts, t);
      if right != [] && ts[t].Hi() == right[0].addr
      then FreeOf(ts[b..]) == right[1..] && ts[b - 1].Hi() == right[0].End()
      else FreeOf(ts[b..]) == right && ts[b - 1].Hi() == ts[t].Hi()
  {
    var right := FreeOf(ts[t + 1..]);
    RightNeighbour(ts, t, lo, hi);
    assert right != [] ==> right[0] in right;
    if t + 1 < |ts| && ts[t + 1].Free? {
      assert right[1..] == FreeOf(ts[t + 2..]);
    }
  }

  /** On block lists, releasing a tile is `Fused` at the tile's position. */
  lemma ReleaseFuses(ts: seq<Tile>, t: nat, lo: nat, hi: nat)
    requires Chain(ts, lo, hi) && t < |ts| && ts[t].Live?
    ensures |FreeOf(ts[..t])| <= |FreeOf(ts)|
    ensures FreeOf(Released(ts, t)) == Fused(FreeOf(ts), |FreeOf(ts[..t])|, ts[t].lo, ts[t].len)
  {
    var a, b := From(ts, t), To(ts, t);
    var left, right := FreeOf(ts[..t]), FreeOf(ts[t + 1..]);
    SpanOf(ts, a, b, lo, hi);
    var m := Block(ts[a].lo, ts[b - 1].Hi() - ts[a].lo);
    assert FreeOf(ts) == left + right by {
      FreeOfAround(ts, t);
    }
    assert FreeOf(Released(ts, t)) == FreeOf(ts[..a]) + [m] + FreeOf(ts[b..]) by {
      ReleasedBlocks(ts, t, lo, hi);
    }
    assert Fused(left + right, |left|, ts[t].lo, ts[t].len) == FreeOf(ts[..a]) + [m] + FreeOf(ts[b..]) by {
      LeftRemains(ts, t, lo, hi);
      RightRemains(ts, t, lo, hi);
      FusedBetween(left, right, FreeOf(ts[..a]), m, FreeOf(ts[b..]), ts[t].lo, ts[t].len);
    }
  }

  /** Releasing live tile `x` keeps the arena, with the free list fused at `j`. */
  lemma Release(ts: seq<Tile>, bs: seq<Block>, n: nat, lo: nat, hi: nat, x: Tile)
    returns (after: seq<Tile>, j: nat, t: nat)
    requires Arena(ts, bs, n, lo, hi) && x.Live? && x in ts
    ensures n > 0 && Around(bs, j, x.lo, x.Hi()) && SortedApart(bs) && x.len > 0
    ensures Arena(after, Fused(bs, j, x.lo, x.len), n - 1, lo, hi)
    ensures DropsLive(ts, after, x)
    ensures t < |ts| && ts[t] == x && after == Released(ts, t)
  {
    t :| 0 <= t < |ts| && ts[t] == x;
    after, j := Released(ts, t), |FreeOf(ts[..t])|;
    BlocksSortedApart(ts, lo, hi);
    ChainBounds(ts, t, lo, hi);
    ReleaseAround(ts, t, lo, hi);
    ReleaseFuses(ts, t, lo, hi);
    ReleasedKeeps(ts, t, lo, hi);
    FreeOfAround(ts, t);
    forall y: Tile | y.Live? ensures y in after <==> y in ts && y != x {
      ReleasedLives(ts, t, y, lo, hi);
    }
  }

  // ----- several arenas -----

  ghost predicate Distinct<T>(s: seq<T>) {
    forall i, j :: 0 <= i < j < |s| ==> s[i] != s[j]
  }

  ghost predicate Fits(bs: seq<Block>, need: nat) {
    exists b :: b in bs && b.nBytes >= need
  }

  /** First arena with a block of `need` bytes; |tss| when there is none. */
  ghost function FirstChunk(tss: seq<seq<Tile>>, need: nat): (k: nat)
    ensures k <= |tss|
  {
    if tss == [] || Fits(FreeOf(tss[0]), need) then 0 else 1 + FirstChunk(tss[1..], need)
  }

  /** It is the first, and it has room. */
  lemma {:induction false} FirstChunkMeans(tss: seq<seq<Tile>>, need: nat)
    ensures var k := FirstChunk(tss, need);
            && (forall j :: 0 <= j < k ==> forall b :: b in FreeOf(tss[j]) ==> b.nBytes < need)
            && (k < |tss| ==> exists b :: b in FreeOf(tss[k]) && b.nBytes >= need)
  {
    if tss != [] {
      FirstChunkMeans(tss[1..], need);
      assert forall j :: 0 < j < |tss| ==> tss[j] == tss[1..][j - 1];
    }
  }

  /** A scan that has come as far as arena `k` stops there exactly when it has room. */
  lemma {:induction false} FirstChunkAt(tss: seq<seq<Tile>>, need: nat, k: nat)
    requires k < |tss| && k <= FirstChunk(tss, need)
    ensures FirstChunk(tss, need) == k <==> Fits(FreeOf(tss[k]), need)
  {
    if k > 0 {
      FirstChunkAt(tss[1..], need, k - 1);
    }
  }

  /** When no arena has room, a new one with a single block of `n` bytes decides. */
  lemma {:induction false} FreshFits(tss: seq<seq<Tile>>, lo: nat, n: nat, need: nat)
    requires FirstChunk(tss, need) == |tss|
    ensures FirstChunk(tss + [[Tile.Free(lo, n)]], need) == if n >= need then |tss| else |tss| + 1
  {
    var one := [Tile.Free(lo, n)];
    if tss == [] {
      assert one[1..] == [] && FreeOf(one) == [Block(lo, n)] && Block(lo, n) in FreeOf(one);
      assert (tss + [one])[1..] == [];
    } else {
      FreshFits(tss[1..], lo, n, need);
      assert (tss + [one])[1..] == tss[1..] + [one];
    }
  }

  // ----- history independence -----

  /** The two tilings have the same live tiles. */
  ghost predicate SameLive(a: seq<Tile>, b: seq<Tile>) {
    forall x: Tile :: x.Live? ==> (x in a <==> x in b)
  }

  /** In a chain, a tile that starts where the chain starts is its first one. */
  lemma FirstTile(ts: seq<Tile>, x: Tile, lo: nat, hi: nat)
    requires Chain(ts, lo, hi) && x in ts
    ensures ts != [] && ts[0].lo == lo <= x.lo && (x.lo == lo ==> x == ts[0])
    ensures x != ts[0] ==> x in ts[1..] && ts[0].Hi() <= x.lo
  {
    var k :| 0 <= k < |ts| && ts[k] == x;
    ChainBounds(ts, k, lo, hi);
    if k > 0 {
      ChainOrder(ts, 0, k, lo, hi);
      assert ts[1..][k - 1] == x;
    }
  }

  /** Dropping a common first tile. */
  lemma SameLiveTail(a: seq<Tile>, b: seq<Tile>, lo: nat, hi: nat)
    requires Chain(a, lo, hi) && Chain(b, lo, hi) && SameLive(a, b) && a != [] && b != [] && a[0] == b[0]
    ensures Chain(a[1..], a[0].Hi(), hi) && Chain(b[1..], a[0].Hi(), hi) && SameLive(a[1..], b[1..])
  {
    forall x: Tile | x.Live? ensures x in a[1..] <==> x in b[1..] {
      if x in a[1..] { FirstTile(a[1..], x, a[0].Hi(), hi); FirstTile(b, x, lo, hi); }
      if x in b[1..] { FirstTile(b[1..], x, a[0].Hi(), hi); FirstTile(a, x, lo, hi); }
    }
  }

  lemma CoalescedTail(ts: seq<Tile>)
    requires Coalesced(ts) && ts != []
    ensures Coalesced(ts[1..])
  {
    var rest := ts[1..];
    forall i | 0 < i < |rest| ensures rest[i - 1].Live? || rest[i].Live? {
      assert rest[i] == ts[i + 1] && rest[i - 1] == ts[i];
    }
  }

  /** A leading free tile reaches no further than in the other tiling. */
  lemma LeadingFree(a: seq<Tile>, b: seq<Tile>, lo: nat, hi: nat)
    requires Chain(a, lo, hi) && Chain(b, lo, hi) && Coalesced(a) && SameLive(a, b)
    requires a != [] && b != [] && a[0].Free? && b[0].Free?
    ensures b[0].Hi() <= a[0].Hi()
  {
    if |a| > 1 {
      assert a[1].Live? && a[1] in a;
      FirstTile(b, a[1], lo, hi);
      ChainOrder(a, 0, 1, lo, hi);
    } else {
      assert a[1..] == [];
      ChainBounds(b, 0, lo, hi);
    }
  }

  /** The free list is a function of the live tiles: two coalesced tilings of one arena with
      the same live tiles are equal, whatever sequence of requests led to each. */
  lemma {:induction false} TilingUnique(a: seq<Tile>, b: seq<Tile>, lo: nat, hi: nat)
    requires Chain(a, lo, hi) && Chain(b, lo, hi) && Coalesced(a) && Coalesced(b) && SameLive(a, b)
    ensures a == b
    decreases |a|
  {
    if a == [] || b == [] {
      if b != [] { ChainBounds(b, 0, lo, hi); }
      if a != [] { ChainBounds(a, 0, lo, hi); }
    } else {
      if a[0].Live? {
        FirstTile(b, a[0], lo, hi);
      } else if b[0].Live? {
        FirstTile(a, b[0], lo, hi);
      } else {
        LeadingFree(a, b, lo, hi);
        LeadingFree(b, a, lo, hi);
      }
      assert a[0] == b[0];
      SameLiveTail(a, b, lo, hi);
      CoalescedTail(a);
      CoalescedTail(b);
      TilingUnique(a[1..], b[1..], a[0].Hi(), hi);
    }
  }
}
