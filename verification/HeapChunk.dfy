/** One chunk of the kernel heap: its address-ordered block list, first-fit
    allocation with splitting, and release with coalescing. */
module HeapChunk {
  import opened Tiling
  import opened Wrappers

  // Sizes on the 32-bit target (heap.h).
  const WORD: nat := 4
  const PAGE: nat := 4096
  const BLOCK_HDR: nat := 40
  const ALLOC_HDR: nat := 76

  /** An allocation header.  It lives at `addr`; the bytes it owns start `gapSize` earlier. */
  datatype Allocation = Allocation(parent: Chunk, addr: nat, gapSize: nat, nBytes: nat)
  {
    function End(): nat {
      addr + nBytes
    }

    /** The extent of the arena this allocation owns. */
    ghost function Tile(): Tile
      requires gapSize <= addr
    {
      Live(addr - gapSize, gapSize + nBytes, addr)
    }
  }

  /** Padding placed before the header so that the whole extent is a number of pages. */
  function Gap(guarded: bool, sz: nat): (g: nat)
    ensures guarded ==> 1 <= g <= PAGE && (g + sz) % PAGE == 0
    ensures !guarded ==> g == 0
  {
    if guarded then PAGE - sz % PAGE else 0
  }

  function Need(guarded: bool, sz: nat): nat {
    Gap(guarded, sz) + sz
  }

  /** A guarded extent is the next page multiple above its size, never the size itself. */
  lemma NeedMeans(guarded: bool, sz: nat)
    ensures guarded ==> Need(guarded, sz) % 4096 == 0 && sz < Need(guarded, sz) <= sz + 4096
    ensures !guarded ==> Need(guarded, sz) == sz
  {
  }

  lemma PagesAdd(x: nat, y: nat)
    requires x % PAGE == 0 && y % PAGE == 0
    ensures (x + y) % PAGE == 0 && (x - y) % PAGE == 0
  {
  }

  /** Whether `k` is where an item at address `a` belongs in a sorted block list. */
  ghost predicate InsertionPoint(bs: seq<Block>, a: nat, k: nat) {
    && k <= |bs|
    && (forall j :: 0 <= j < k ==> bs[j].addr < a)
    && (k < |bs| ==> a <= bs[k].addr)
  }

  /** List<T>::sortedInsert: walks to the first item that is not below the new one. */
  method SortedInsert(bs: seq<Block>, item: Block) returns (r: seq<Block>)
    ensures |r| == |bs| + 1 && item in r
    ensures forall k: nat :: InsertionPoint(bs, item.addr, k) ==> r == bs[..k] + [item] + bs[k..]
  {
    var i := 0;
    while i < |bs| && !(item.addr <= bs[i].addr)
      invariant i <= |bs| && forall j :: 0 <= j < i ==> bs[j].addr < item.addr
    {
      i := i + 1;
    }
    r := bs[..i] + [item] + bs[i..];
    assert r[i] == item;
    forall k: nat | InsertionPoint(bs, item.addr, k) ensures r == bs[..k] + [item] + bs[k..] {
      assert k == i;
    }
  }

  /** Whether `k` is the first position in `bs` that holds address `a`. */
  ghost predicate FirstAt(bs: seq<Block>, a: nat, k: nat) {
    k < |bs| && bs[k].addr == a && forall j :: 0 <= j < k ==> bs[j].addr != a
  }

  /** List<T>::remove: unlinks the first item at the given address, if there is one. */
  method RemoveAt(bs: seq<Block>, addr: nat) returns (r: seq<Block>)
    ensures forall k: nat :: FirstAt(bs, addr, k) ==> r == bs[..k] + bs[k + 1..]
    ensures r == bs || exists k: nat :: FirstAt(bs, addr, k)
  {
    var i := 0;
    while i < |bs| && bs[i].addr != addr
      invariant i <= |bs| && forall j :: 0 <= j < i ==> bs[j].addr != addr
    {
      i := i + 1;
    }
    if i == |bs| {
      r := bs;
    } else {
      r := bs[..i] + bs[i + 1..];
      assert FirstAt(bs, addr, i);
    }
  }

  /** Where block `i` of a sorted list is found, and where something relinked between its
      neighbours goes once it is out. */
  lemma RelinkPoint(bs: seq<Block>, i: nat, a: nat)
    requires SortedApart(bs) && i < |bs|
    requires i > 0 ==> bs[i - 1].addr < a
    requires i + 1 < |bs| ==> a <= bs[i + 1].addr
    ensures FirstAt(bs, bs[i].addr, i)
    ensures var out := bs[..i] + bs[i + 1..];
      && InsertionPoint(out, a, i) && out[..i] == bs[..i] && out[i..] == bs[i + 1..]
  {
    var out := bs[..i] + bs[i + 1..];
    forall j | 0 <= j < i ensures bs[j].addr < a && bs[j].addr < bs[i].addr {
      assert j < i - 1 ==> bs[j].End() < bs[i - 1].addr;
    }
  }

  lemma UpdateBefore(bs: seq<Block>, i: nat, x: Block)
    requires 0 < i < |bs|
    ensures (bs[..i] + bs[i + 1..])[i - 1 := x] == bs[..i - 1] + [x] + bs[i + 1..]
  {
  }

  /** Takes block `i` out of a sorted list. */
  method Unlink(bs: seq<Block>, i: nat) returns (r: seq<Block>)
    requires SortedApart(bs) && i < |bs|
    ensures r == bs[..i] + bs[i + 1..]
  {
    RelinkPoint(bs, i, bs[i].addr);
    r := RemoveAt(bs, bs[i].addr);
  }

  /** Takes block `i` out of a sorted list and inserts one that lies between its neighbours. */
  method Relink(bs: seq<Block>, i: nat, b: Block) returns (r: seq<Block>)
    requires SortedApart(bs) && i < |bs|
    requires i > 0 ==> bs[i - 1].addr < b.addr
    requires b.addr < bs[i].End()
    ensures r == bs[..i] + [b] + bs[i + 1..]
  {
    var removed := Unlink(bs, i);
    RelinkPoint(bs, i, b.addr);
    r := SortedInsert(removed, b);
  }

  /** Sizes and, in guard-paged mode, page alignment of one tile. */
  ghost predicate TileOk(x: Tile, guarded: bool) {
    && (x.Free? ==> x.len >= BLOCK_HDR)
    && (x.Live? ==> x.lo <= x.hdr && x.hdr + ALLOC_HDR + (if guarded then PAGE else 0) <= x.Hi())
    && (guarded ==> x.lo % PAGE == 0 && x.len % PAGE == 0)
  }

  /** The arena's first byte: just past the chunk header, rounded up in guard-paged mode. */
  function FirstBlock(base: nat, chunkHdr: nat, guarded: bool): (a: nat)
    ensures base + chunkHdr <= a
    ensures guarded ==> a % PAGE == 0 && a < base + chunkHdr + PAGE
    ensures !guarded ==> a == base + chunkHdr
  {
    var b := base + chunkHdr;
    if guarded && b % PAGE != 0 then (b + PAGE) - (b + PAGE) % PAGE else b
  }

  lemma FreshTile(base: nat, chunkHdr: nat, chunkSize: nat, guarded: bool)
    requires FirstBlock(base, chunkHdr, guarded) + BLOCK_HDR <= base + chunkSize
    requires guarded ==> base % PAGE == 0 && chunkSize % PAGE == 0
    ensures var first := FirstBlock(base, chunkHdr, guarded); TileOk(Free(first, base + chunkSize - first), guarded)
  {
    if guarded {
      PagesAdd(base, chunkSize);
      PagesAdd(base + chunkSize, FirstBlock(base, chunkHdr, guarded));
    }
  }

  /** The invariant of a chunk, on its fields. */
  ghost predicate Inv(ts: seq<Tile>, bs: seq<Block>, n: nat, lo: nat, hi: nat, guarded: bool) {
    Arena(ts, bs, n, lo, hi) && forall x :: x in ts ==> TileOk(x, guarded)
  }

  // ----- carving an allocation out of a block -----

  lemma CarveWhole(ts: seq<Tile>, bs: seq<Block>, n: nat, lo: nat, hi: nat, guarded: bool, i: nat, hdr: nat)
    returns (after: seq<Tile>)
    requires Inv(ts, bs, n, lo, hi, guarded) && i < |bs|
    requires bs[i].addr <= hdr && hdr + ALLOC_HDR + (if guarded then PAGE else 0) <= bs[i].End()
    ensures Inv(after, bs[..i] + [] + bs[i + 1..], n + 1, lo, hi, guarded)
    ensures AddsLive(ts, after, Live(bs[i].addr, bs[i].nBytes, hdr))
  {
    BlockOk(ts, bs, n, lo, hi, guarded, i);
    var x := Live(bs[i].addr, bs[i].nBytes, hdr);
    WholeLive(x);
    after := Carve(ts, bs, n, lo, hi, i, [x], x);
  }

  lemma CarveSplit(ts: seq<Tile>, bs: seq<Block>, n: nat, lo: nat, hi: nat, guarded: bool, i: nat,
                   need: nat, hdr: nat)
    returns (after: seq<Tile>)
    requires Inv(ts, bs, n, lo, hi, guarded) && i < |bs|
    requires need + BLOCK_HDR <= bs[i].nBytes && (guarded ==> need % PAGE == 0)
    requires bs[i].addr <= hdr && hdr + ALLOC_HDR + (if guarded then PAGE else 0) <= bs[i].addr + need
    ensures Inv(after, bs[..i] + [Block(bs[i].addr + need, bs[i].nBytes - need)] + bs[i + 1..], n + 1, lo, hi, guarded)
    ensures AddsLive(ts, after, Live(bs[i].addr, need, hdr))
  {
    BlockOk(ts, bs, n, lo, hi, guarded, i);
    var rest := Free(bs[i].addr + need, bs[i].nBytes - need);
    var x := Live(bs[i].addr, need, hdr);
    SplitLive(x, rest);
    if guarded {
      PagesAdd(bs[i].addr, need);
      PagesAdd(bs[i].nBytes, need);
    }
    assert TileOk(x, guarded) && TileOk(rest, guarded);
    after := Carve(ts, bs, n, lo, hi, i, [x, rest], x);
  }

  lemma BlockOk(ts: seq<Tile>, bs: seq<Block>, n: nat, lo: nat, hi: nat, guarded: bool, i: nat)
    requires Inv(ts, bs, n, lo, hi, guarded) && i < |bs|
    ensures bs[i].nBytes >= BLOCK_HDR && (guarded ==> bs[i].addr % PAGE == 0 && bs[i].nBytes % PAGE == 0)
  {
    var t := TileOfBlock(ts, i);
    assert TileOk(ts[t], guarded);
  }

  // ----- releasing an allocation -----

  /** The list surgery of prependAndCoalesce, for the extent [start, start + len) before block `i`. */
  method Prepended(bs: seq<Block>, i: nat, start: nat, len: nat) returns (r: seq<Block>)
    requires SortedApart(bs) && i < |bs| && len > 0 && start + len == bs[i].addr
    requires i > 0 ==> bs[i - 1].nBytes > 0 && bs[i - 1].End() <= start
    ensures r == Fused(bs, i, start, len)
  {
    var b := Block(start, len + bs[i].nBytes);
    if i == 0 || bs[i - 1].End() != start {
      r := Relink(bs, i, b);
    } else {
      var prev := bs[i - 1];
      var grown := Block(prev.addr, prev.nBytes + b.nBytes);
      r := Unlink(bs, i);
      UpdateBefore(bs, i, grown);
      r := r[i - 1 := grown];
    }
  }

  lemma {:induction false} SpanOk(ts: seq<Tile>, a: nat, b: nat, guarded: bool)
    requires a < b <= |ts| && forall x :: x in ts ==> TileOk(x, guarded)
    ensures Span(ts, a, b) >= BLOCK_HDR && (guarded ==> Span(ts, a, b) % PAGE == 0)
    decreases b - a
  {
    assert TileOk(ts[a], guarded);
    if a + 1 < b {
      SpanOk(ts, a + 1, b, guarded);
      if guarded {
        PagesAdd(ts[a].len, Span(ts, a + 1, b));
      }
    } else {
      assert Span(ts, b, b) == 0;
    }
  }

  lemma ReleasedTilesOk(ts: seq<Tile>, t: nat, guarded: bool)
    requires t < |ts| && forall x :: x in ts ==> TileOk(x, guarded)
    ensures forall x :: x in Released(ts, t) ==> TileOk(x, guarded)
  {
    var a, b := From(ts, t), To(ts, t);
    var r := Released(ts, t);
    SpanOk(ts, a, b, guarded);
    assert TileOk(ts[a], guarded);
    forall x | x in r ensures TileOk(x, guarded) {
      assert x in ts[..a] || x == Free(ts[a].lo, Span(ts, a, b)) || x in ts[b..];
    }
  }

  /** Releasing live tile `x` keeps the invariant, with the block list fused at `j`. */
  lemma ReleaseInv(ts: seq<Tile>, bs: seq<Block>, n: nat, lo: nat, hi: nat, guarded: bool, x: Tile)
    returns (after: seq<Tile>, j: nat)
    requires Inv(ts, bs, n, lo, hi, guarded) && x.Live? && x in ts
    ensures n > 0 && Around(bs, j, x.lo, x.Hi()) && SortedApart(bs) && x.len > 0
    ensures Inv(after, Fused(bs, j, x.lo, x.len), n - 1, lo, hi, guarded)
    ensures DropsLive(ts, after, x)
  {
    var t;
    after, j, t := Release(ts, bs, n, lo, hi, x);
    ReleasedTilesOk(ts, t, guarded);
  }

  /** What taking `sz` bytes out of block `i` of `bs` hands out and leaves behind. */
  ghost predicate Taken(c: Chunk, bs: seq<Block>, i: nat, sz: nat, a: Allocation, after: seq<Block>)
    requires i < |bs| && bs[i].nBytes >= Need(c.guarded, sz)
  {
    var b, need := bs[i], Need(c.guarded, sz);
    var whole := b.nBytes - BLOCK_HDR <= need;
    var gap := if whole then b.nBytes - sz else Gap(c.guarded, sz);
    && a == Allocation(c, b.addr + gap, gap, sz)
    && after == bs[..i] + (if whole then [] else [Block(b.addr + need, b.nBytes - need)]) + bs[i + 1..]
  }

  /** Taking `sz` bytes out of block `i` keeps the invariant and adds exactly the tile handed out. */
  lemma CarveTaken(c: Chunk, ts: seq<Tile>, bs: seq<Block>, n: nat, i: nat, sz: nat, a: Allocation, left: seq<Block>)
    returns (after: seq<Tile>)
    requires Inv(ts, bs, n, c.lo, c.hi, c.guarded) && i < |bs| && bs[i].nBytes >= Need(c.guarded, sz)
    requires sz >= ALLOC_HDR + (if c.guarded then PAGE else 0) && Taken(c, bs, i, sz, a, left)
    ensures Inv(after, left, n + 1, c.lo, c.hi, c.guarded) && AddsLive(ts, after, a.Tile())
  {
    if bs[i].nBytes - BLOCK_HDR <= Need(c.guarded, sz) {
      after := CarveWhole(ts, bs, n, c.lo, c.hi, c.guarded, i, a.addr);
    } else {
      after := CarveSplit(ts, bs, n, c.lo, c.hi, c.guarded, i, Need(c.guarded, sz), a.addr);
    }
  }

  lemma TakenShape(c: Chunk, bs: seq<Block>, i: nat, sz: nat, a: Allocation, left: seq<Block>) returns (mid: seq<Block>)
    requires i < |bs| && bs[i].nBytes >= Need(c.guarded, sz) && Taken(c, bs, i, sz, a, left)
    ensures left == bs[..i] + mid + bs[i + 1..] && Leaves(bs[i], mid, Need(c.guarded, sz), BLOCK_HDR)
    ensures a.nBytes == sz && a.addr - a.gapSize == bs[i].addr
  {
    var need := Need(c.guarded, sz);
    mid := if bs[i].nBytes - BLOCK_HDR <= need then [] else [Block(bs[i].addr + need, bs[i].nBytes - need)];
  }

  /** What is taken, without looking at how: the low end of the first block with room, whole if the rest is too small. */
  lemma TakenCarves(c: Chunk, ts: seq<Tile>, i: nat, sz: nat, a: Allocation, after: seq<Tile>)
    requires Chain(ts, c.lo, c.hi) && Chain(after, c.lo, c.hi) && i == FirstFit(FreeOf(ts), Need(c.guarded, sz)) < |FreeOf(ts)|
    requires Taken(c, FreeOf(ts), i, sz, a, FreeOf(after))
    ensures Carved(ts, after, Need(c.guarded, sz), BLOCK_HDR)
    ensures AtLowEnd(ts, c.guarded, sz, a)
  {
    var mid := TakenShape(c, FreeOf(ts), i, sz, a, FreeOf(after));
    CarvedBy(ts, after, c.lo, c.hi, i, mid, Need(c.guarded, sz), BLOCK_HDR);
  }

  /** `a` owns the low end of the first free block with room, `sz` bytes from its header on. */
  ghost predicate AtLowEnd(before: seq<Tile>, guarded: bool, sz: nat, a: Allocation) {
    var bs := FreeOf(before);
    var i := FirstFit(bs, Need(guarded, sz));
    i < |bs| && a.nBytes == sz && a.addr - a.gapSize == bs[i].addr
  }

  /** The new block behind a split is page aligned in guard mode. */
  lemma DestAligned(ts: seq<Tile>, bs: seq<Block>, n: nat, lo: nat, hi: nat, guarded: bool, i: nat, sz: nat)
    requires Inv(ts, bs, n, lo, hi, guarded) && i < |bs|
    ensures guarded ==> (bs[i].addr + Need(guarded, sz)) % PAGE == 0
  {
    BlockOk(ts, bs, n, lo, hi, guarded, i);
    if guarded {
      PagesAdd(bs[i].addr, Need(guarded, sz));
    }
  }

  class Chunk {
    const base: nat
    const lo: nat
    const hi: nat
    const guarded: bool

    var blocks: seq<Block>
    var nAllocations: nat
    ghost var tiles: seq<Tile>

    ghost predicate Valid()
      reads this
    {
      base <= lo < hi && Inv(tiles, blocks, nAllocations, lo, hi, guarded)
    }

    /** Heap::getNewChunk: a chunk is born with one block spanning its arena. */
    constructor (base: nat, chunkHdr: nat, chunkSize: nat, guarded: bool)
      requires FirstBlock(base, chunkHdr, guarded) + BLOCK_HDR <= base + chunkSize
      requires guarded ==> base % PAGE == 0 && chunkSize % PAGE == 0
      ensures Valid() && this.base == base && this.guarded == guarded
      ensures lo == FirstBlock(base, chunkHdr, guarded) && hi == base + chunkSize
      ensures tiles == [Tile.Free(lo, hi - lo)] && nAllocations == 0
      ensures blocks == [Block(lo, hi - lo)]
    {
      this.base := base;
      this.guarded := guarded;
      var first := FirstBlock(base, chunkHdr, guarded);
      FreshTile(base, chunkHdr, chunkSize, guarded);
      lo := first;
      hi := base + chunkSize;
      blocks := [Block(first, base + chunkSize - first)];
      nAllocations := 0;
      tiles := [Tile.Free(first, base + chunkSize - first)];
      new;
      OneFree(lo, hi);
    }

    /** Chunk::malloc: first fit.  The request takes the low end of the block it came from;
        a remainder no larger than a block header is given away as extra gap. */
    method Malloc(sz: nat) returns (ret: Option<Allocation>)
      requires Valid()
      requires sz >= ALLOC_HDR + (if guarded then PAGE else 0)
      modifies this
      ensures Valid()
      ensures ret.None? <==> forall b :: b in old(blocks) ==> b.nBytes < Need(guarded, sz)
      ensures ret.None? ==> blocks == old(blocks) && nAllocations == old(nAllocations) && tiles == old(tiles)
      ensures ret.Some? ==>
        var i := FirstFit(old(blocks), Need(guarded, sz));
        && i < |old(blocks)| && Taken(this, old(blocks), i, sz, ret.value, blocks)
        && nAllocations == old(nAllocations) + 1
        && AddsLive(old(tiles), tiles, ret.value.Tile())
      ensures ret.Some? ==>
        Carved(old(tiles), tiles, Need(guarded, sz), 40) && AtLowEnd(old(tiles), guarded, sz, ret.value)
    {
      var need := Need(guarded, sz);
      var i := ScanFit(blocks, need);
      if i == |blocks| {
        return None;
      }
      assert blocks[i] in blocks;
      var a := Take(i, sz);
      TakenCarves(this, old(tiles), i, sz, a, tiles);
      return Some(a);
    }

    method Take(i: nat, sz: nat) returns (a: Allocation)
      requires Valid() && i < |blocks|
      requires sz >= ALLOC_HDR + (if guarded then PAGE else 0)
      requires Need(guarded, sz) <= blocks[i].nBytes
      modifies this
      ensures Valid() && Taken(this, old(blocks), i, sz, a, blocks)
      ensures nAllocations == old(nAllocations) + 1 && AddsLive(old(tiles), tiles, a.Tile())
    {
      ghost var bs := blocks;
      BlocksSortedApart(tiles, lo, hi);
      DestAligned(tiles, blocks, nAllocations, lo, hi, guarded, i, sz);
      a, blocks := TakeBlock(blocks, i, sz);
      tiles := CarveTaken(this, tiles, bs, nAllocations, i, sz, a, blocks);
      nAllocations := nAllocations + 1;
    }

    /** The list surgery of Chunk::malloc. */
    method TakeBlock(bs: seq<Block>, i: nat, sz: nat) returns (a: Allocation, r: seq<Block>)
      requires SortedApart(bs) && i < |bs| && 0 < Need(guarded, sz) <= bs[i].nBytes
      // The "new block destination is not page aligned" panic cannot fire.
      requires guarded ==> (bs[i].addr + Need(guarded, sz)) % PAGE == 0
      ensures Taken(this, bs, i, sz, a, r)
    {
      var b, gap, need := bs[i], Gap(guarded, sz), Need(guarded, sz);
      if b.nBytes - BLOCK_HDR <= need {
        gap := gap + (b.nBytes - need);
        a := Allocation(this, b.addr + gap, gap, sz);
        r := bs[..i] + [] + bs[i + 1..];
      } else {
        a := Allocation(this, b.addr + gap, gap, sz);
        r := Relink(bs, i, Block(b.addr + need, b.nBytes - need));
      }
    }

    /** Chunk::appendAndCoalesce: grow the block before the allocation, then swallow the next
        block if the grown one now reaches it. */
    method AppendAndCoalesce(i: nat, alloc: Allocation)
      requires i < |blocks| && alloc.gapSize <= alloc.addr
      requires blocks[i].End() == alloc.addr - alloc.gapSize
      modifies this`blocks
      ensures blocks == Fused(old(blocks), i + 1, alloc.addr - alloc.gapSize, alloc.gapSize + alloc.nBytes)
    {
      var b := Block(blocks[i].addr, blocks[i].nBytes + alloc.gapSize + alloc.nBytes);
      if i + 1 == |blocks| || b.End() != blocks[i + 1].addr {
        blocks := blocks[i := b];
        assert blocks == old(blocks)[..i] + [b] + old(blocks)[i + 1..];
      } else {
        b := Block(b.addr, b.nBytes + blocks[i + 1].nBytes);
        blocks := blocks[i := b];
        blocks := blocks[..i + 1] + blocks[i + 2..];
        assert blocks == old(blocks)[..i] + [b] + old(blocks)[i + 2..];
      }
    }

    /** Chunk::prependAndCoalesce: a new block absorbs the allocation and the block after it;
        if it starts where the previous block ends, that one absorbs it in turn. */
    method PrependAndCoalesce(i: nat, alloc: Allocation)
      requires i < |blocks| && alloc.gapSize <= alloc.addr && SortedApart(blocks)
      requires alloc.End() == blocks[i].addr
      requires i > 0 ==> blocks[i - 1].End() <= alloc.addr - alloc.gapSize && blocks[i - 1].nBytes > 0
      requires alloc.nBytes > 0
      modifies this`blocks
      ensures blocks == Fused(old(blocks), i, alloc.addr - alloc.gapSize, alloc.gapSize + alloc.nBytes)
    {
      blocks := Prepended(blocks, i, alloc.addr - alloc.gapSize, alloc.gapSize + alloc.nBytes);
    }

    /** Chunk::free: walk the block list to the allocation's place and fuse it with whichever
        neighbours are free. */
    method Free(alloc: Allocation)
      requires Valid()
      requires alloc.gapSize <= alloc.addr && alloc.Tile() in tiles
      modifies this
      ensures Valid()
      ensures nAllocations == old(nAllocations) - 1
      ensures DropsLive(old(tiles), tiles, alloc.Tile())
    {
      ghost var x := alloc.Tile();
      ghost var after, j := ReleaseInv(tiles, blocks, nAllocations, lo, hi, guarded, x);
      assert alloc.nBytes > 0 by {
        assert TileOk(x, guarded);
      }
      FreeAt(alloc, j);
      assert blocks == Fused(old(blocks), j, x.lo, x.len);
      nAllocations := nAllocations - 1;
      tiles := after;
    }

    /** The list walk of Chunk::free. */
    method FreeAt(alloc: Allocation, ghost j: nat)
      requires alloc.gapSize <= alloc.addr && alloc.nBytes > 0 && SortedApart(blocks)
      requires Around(blocks, j, alloc.addr - alloc.gapSize, alloc.End())
      modifies this`blocks
      ensures blocks == Fused(old(blocks), j, alloc.addr - alloc.gapSize, alloc.gapSize + alloc.nBytes)
    {
      var start, end := alloc.addr - alloc.gapSize, alloc.End();
      var i := 0;
      while i < |blocks|
        invariant i <= j && blocks == old(blocks)
        invariant i > 0 ==> blocks[i - 1].End() != start
      {
        var curr := blocks[i];
        if end == curr.addr {
          PrependAndCoalesce(i, alloc);
          return;
        } else if curr.End() == start {
          AppendAndCoalesce(i, alloc);
          return;
        }
        if (i == 0 || alloc.addr > blocks[i - 1].End() - 1) && alloc.addr < curr.addr {
          break;
        }
        i := i + 1;
      }
      assert InsertionPoint(blocks, start, j);
      blocks := SortedInsert(blocks, Block(start, alloc.gapSize + alloc.nBytes));
    }
  }

  /** Freeing what was just allocated undoes the allocation, down to the block list. */
  method MallocThenFree(c: Chunk, sz: nat)
    requires c.Valid() && sz >= ALLOC_HDR + (if c.guarded then PAGE else 0)
    modifies c
    ensures c.Valid() && c.blocks == old(c.blocks) && c.nAllocations == old(c.nAllocations)
  {
    ghost var before := c.tiles;
    var r := c.Malloc(sz);
    if r.Some? {
      c.Free(r.value);
      TilingUnique(before, c.tiles, c.lo, c.hi);
    }
  }
}
