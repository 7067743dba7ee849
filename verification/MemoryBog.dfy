/** The bog allocator: a second general purpose allocator that carves requests from the
    tail of a free object and keeps no list of what is live. */
module MemoryBog {
  import opened Tiling
  import opened Wrappers

  // Sizes on the 32-bit target (memoryBog.h).
  const WORD: nat := 4
  const FREE_HDR: nat := 12
  const ALLOC_HDR: nat := 60
  const BOG_HDR: nat := 12

  /** MEMORYBOG_SIZE_ROUNDUP: always at least one byte more than asked for. */
  function RoundUp(n: nat): (r: nat)
    ensures r % WORD == 0 && n < r <= n + WORD
  {
    (n + WORD) - (n + WORD) % WORD
  }

  /** A live tile's header sits at its start; free tiles can hold a free-object header. */
  ghost predicate TileOk(x: Tile) {
    && (x.Free? ==> x.len >= FREE_HDR)
    && (x.Live? ==> x.hdr == x.lo && x.len >= ALLOC_HDR)
  }

  ghost predicate Inv(ts: seq<Tile>, objects: seq<Block>, n: nat, lo: nat, hi: nat) {
    Arena(ts, objects, n, lo, hi) && forall x :: x in ts ==> TileOk(x)
  }

  /** What handing out `need` bytes of object `i` leaves behind. */
  ghost predicate Taken(objects: seq<Block>, i: nat, need: nat, got: Block, after: seq<Block>)
    requires i < |objects| && objects[i].nBytes >= need
  {
    var b := objects[i];
    if b.nBytes - need <= FREE_HDR
    then got == b && after == objects[..i] + [] + objects[i + 1..]
    else got == Block(b.End() - need, need)
         && after == objects[..i] + [Block(b.addr, b.nBytes - need)] + objects[i + 1..]
  }

  lemma CarveTail(ts: seq<Tile>, bs: seq<Block>, n: nat, lo: nat, hi: nat, i: nat, need: nat, got: Block, after: seq<Block>)
    returns (ts': seq<Tile>)
    requires Inv(ts, bs, n, lo, hi) && i < |bs| && ALLOC_HDR <= need <= bs[i].nBytes && Taken(bs, i, need, got, after)
    ensures Inv(ts', after, n + 1, lo, hi) && AddsLive(ts, ts', Live(got.addr, got.nBytes, got.addr))
  {
    var b, x := bs[i], Live(got.addr, got.nBytes, got.addr);
    if b.nBytes - need <= FREE_HDR {
      WholeLive(x);
      ts' := Carve(ts, bs, n, lo, hi, i, [x], x);
    } else {
      var rest := Free(b.addr, b.nBytes - need);
      SplitLive(x, rest);
      ts' := Carve(ts, bs, n, lo, hi, i, [rest, x], x);
    }
  }

  lemma TakenShape(bs: seq<Block>, i: nat, need: nat, got: Block, left: seq<Block>) returns (mid: seq<Block>)
    requires i < |bs| && bs[i].nBytes >= need && Taken(bs, i, need, got, left)
    ensures left == bs[..i] + mid + bs[i + 1..] && Leaves(bs[i], mid, need, FREE_HDR) && got.End() == bs[i].End()
  {
    mid := if bs[i].nBytes - need <= FREE_HDR then [] else [Block(bs[i].addr, bs[i].nBytes - need)];
  }

  /** What is taken, without looking at how: the tail of the first object with room, whole if the rest is too small. */
  lemma TakenCarves(ts: seq<Tile>, lo: nat, hi: nat, i: nat, need: nat, got: Block, after: seq<Tile>)
    requires Chain(ts, lo, hi) && Chain(after, lo, hi) && i == FirstFit(FreeOf(ts), need) < |FreeOf(ts)|
    requires Taken(FreeOf(ts), i, need, got, FreeOf(after))
    ensures Carved(ts, after, need, FREE_HDR) && AtTail(ts, need, got)
  {
    var mid := TakenShape(FreeOf(ts), i, need, got, FreeOf(after));
    CarvedBy(ts, after, lo, hi, i, mid, need, FREE_HDR);
  }

  /** `got` is the tail of the first free object with room. */
  ghost predicate AtTail(before: seq<Tile>, need: nat, got: Block) {
    var bs := FreeOf(before);
    var i := FirstFit(bs, need);
    i < |bs| && got.End() == bs[i].End()
  }

  lemma {:induction false} SpanOk(ts: seq<Tile>, a: nat, b: nat)
    requires a < b <= |ts| && forall x :: x in ts ==> TileOk(x)
    ensures Span(ts, a, b) >= FREE_HDR
  {
    assert TileOk(ts[a]);
  }

  lemma ReleaseInv(ts: seq<Tile>, bs: seq<Block>, n: nat, lo: nat, hi: nat, x: Tile)
    returns (after: seq<Tile>, j: nat)
    requires Inv(ts, bs, n, lo, hi) && x.Live? && x in ts
    ensures n > 0 && Around(bs, j, x.lo, x.Hi()) && SortedApart(bs) && x.len > 0
    ensures Inv(after, Fused(bs, j, x.lo, x.len), n - 1, lo, hi) && DropsLive(ts, after, x)
  {
    var t;
    after, j, t := Release(ts, bs, n, lo, hi, x);
    var a, b := From(ts, t), To(ts, t);
    SpanOk(ts, a, b);
    forall y | y in after ensures TileOk(y) {
      assert y in ts[..a] || y == Free(ts[a].lo, Span(ts, a, b)) || y in ts[b..];
    }
  }

  class BogBlock {
    const base: nat
    const lo: nat
    const hi: nat

    var objects: seq<Block>
    var refCount: nat
    ghost var tiles: seq<Tile>

    ghost predicate Valid()
      reads this
    {
      base <= lo < hi && Inv(tiles, objects, refCount, lo, hi)
    }

    /** MemoryBog::getNewBlock: one free object of `blockSize` bytes behind the block header. */
    constructor (base: nat, blockSize: nat)
      requires blockSize >= FREE_HDR
      ensures Valid() && this.base == base && lo == base + BOG_HDR && hi == lo + blockSize
      ensures refCount == 0 && tiles == [Tile.Free(lo, blockSize)] && objects == [Block(lo, blockSize)]
    {
      this.base := base;
      lo := base + BOG_HDR;
      hi := base + BOG_HDR + blockSize;
      objects := [Block(base + BOG_HDR, blockSize)];
      refCount := 0;
      tiles := [Tile.Free(base + BOG_HDR, blockSize)];
      new;
      OneFree(lo, hi);
    }

    /** The inner loop of MemoryBog::allocate: first fit, from the tail of the object. */
    method Allocate(need: nat) returns (ret: Option<Block>)
      requires Valid() && need >= ALLOC_HDR
      modifies this
      ensures Valid()
      ensures ret.None? <==> !Fits(old(objects), need)
      ensures ret.None? ==> objects == old(objects) && refCount == old(refCount) && tiles == old(tiles)
      ensures ret.Some? ==>
        && FirstFit(old(objects), need) < |old(objects)|
        && Taken(old(objects), FirstFit(old(objects), need), need, ret.value, objects)
        && refCount == old(refCount) + 1
        && AddsLive(old(tiles), tiles, Live(ret.value.addr, ret.value.nBytes, ret.value.addr))
        && Carved(old(tiles), tiles, need, 12) && AtTail(old(tiles), need, ret.value)
    {
      var i := ScanFit(objects, need);
      if i == |objects| {
        return None;
      }
      assert objects[i] in objects;
      var got := Take(i, need);
      TakenCarves(old(tiles), lo, hi, i, need, got, tiles);
      return Some(got);
    }

    method Take(i: nat, need: nat) returns (got: Block)
      requires Valid() && i < |objects| && ALLOC_HDR <= need <= objects[i].nBytes
      modifies this
      ensures Valid() && Taken(old(objects), i, need, got, objects) && refCount == old(refCount) + 1
      ensures AddsLive(old(tiles), tiles, Live(got.addr, got.nBytes, got.addr))
    {
      var b := objects[i];
      var after;
      if b.nBytes - need <= FREE_HDR {
        got, after := b, objects[..i] + [] + objects[i + 1..];
      } else {
        var rest := Block(b.addr, b.nBytes - need);
        got, after := Block(rest.End(), need), objects[..i] + [rest] + objects[i + 1..];
      }
      tiles := CarveTail(tiles, objects, refCount, lo, hi, i, need, got, after);
      objects := after;
      refCount := refCount + 1;
    }

    /** MemoryBog::free within the parent block. */
    method Free(mem: Block)
      requires Valid() && Live(mem.addr, mem.nBytes, mem.addr) in tiles
      modifies this
      ensures Valid() && refCount == old(refCount) - 1
      ensures DropsLive(old(tiles), tiles, Live(mem.addr, mem.nBytes, mem.addr))
    {
      ghost var after, j := ReleaseInv(tiles, objects, refCount, lo, hi, Live(mem.addr, mem.nBytes, mem.addr));
      objects := Freed(objects, mem, j);
      refCount := refCount - 1;
      tiles := after;
    }
  }

  /** The list walk of MemoryBog::free: insert before the first object above the memory (or at
      the end), merging forward first and backward second. */
  method Freed(objects: seq<Block>, mem: Block, ghost j: nat) returns (r: seq<Block>)
    requires mem.nBytes > 0 && Around(objects, j, mem.addr, mem.End())
    ensures r == Fused(objects, j, mem.addr, mem.nBytes)
  {
    var i := 0;
    while i < |objects| && !(mem.addr < objects[i].addr)
      invariant i <= j
    {
      i := i + 1;
    }
    assert i == j;
    var node := mem;
    var rest := objects[i..];
    if i < |objects| && mem.End() == objects[i].addr {
      node := Block(mem.addr, mem.nBytes + objects[i].nBytes);
      rest := objects[i + 1..];
    }
    if i > 0 && objects[i - 1].End() == mem.addr {
      r := objects[..i - 1] + [Block(objects[i - 1].addr, objects[i - 1].nBytes + node.nBytes)] + rest;
    } else {
      r := objects[..i] + [node] + rest;
    }
  }

  /** An allocation header in memory: its size and the block it came from. */
  datatype Header = Header(parent: BogBlock, nBytes: nat)

  /** The headers in memory are exactly those of the blocks' live tiles. */
  ghost predicate Ledger(bs: seq<BogBlock>, tss: seq<seq<Tile>>, headers: map<nat, Header>) {
    && |tss| == |bs|
    && (forall k, x: Tile :: 0 <= k < |bs| && x.Live? ==> (x in tss[k] <==> HeaderOf(headers, bs[k], x)))
    && (forall a :: a in headers ==> headers[a].parent in bs)
  }

  ghost predicate HeaderOf(headers: map<nat, Header>, b: BogBlock, x: Tile) {
    x.Live? && x.hdr == x.lo && x.lo in headers && headers[x.lo] == Header(b, x.len)
  }

  lemma LedgerAdds(bs: seq<BogBlock>, tss: seq<seq<Tile>>, headers: map<nat, Header>, k: nat, ts: seq<Tile>, got: Block)
    requires Ledger(bs, tss, headers) && Distinct(bs) && k < |bs| && got.addr !in headers
    requires AddsLive(tss[k], ts, Live(got.addr, got.nBytes, got.addr))
    ensures Ledger(bs, tss[k := ts], headers[got.addr := Header(bs[k], got.nBytes)])
  {
    var headers' := headers[got.addr := Header(bs[k], got.nBytes)];
    forall i, x: Tile | 0 <= i < |bs| && x.Live?
      ensures x in tss[k := ts][i] <==> HeaderOf(headers', bs[i], x)
    {
      assert x in tss[i] <==> HeaderOf(headers, bs[i], x);
      assert HeaderOf(headers', bs[i], x) <==>
             HeaderOf(headers, bs[i], x) || (i == k && x == Live(got.addr, got.nBytes, got.addr));
    }
  }

  lemma LedgerDrops(bs: seq<BogBlock>, tss: seq<seq<Tile>>, headers: map<nat, Header>, k: nat, ts: seq<Tile>, a: nat)
    requires Ledger(bs, tss, headers) && Distinct(bs) && k < |bs| && a in headers && headers[a].parent == bs[k]
    requires DropsLive(tss[k], ts, Live(a, headers[a].nBytes, a))
    ensures Ledger(bs, tss[k := ts], headers - {a})
  {
    forall i, x: Tile | 0 <= i < |bs| && x.Live?
      ensures x in tss[k := ts][i] <==> HeaderOf(headers - {a}, bs[i], x)
    {
      assert x in tss[i] <==> HeaderOf(headers, bs[i], x);
    }
  }

  lemma LedgerGrows(bs: seq<BogBlock>, tss: seq<seq<Tile>>, headers: map<nat, Header>, b: BogBlock, x: Tile)
    requires Ledger(bs, tss, headers) && b !in bs && x.Free?
    ensures Ledger([b] + bs, [[x]] + tss, headers)
  {
    forall i, y: Tile | 0 <= i < |[b] + bs| && y.Live?
      ensures y in ([[x]] + tss)[i] <==> HeaderOf(headers, ([b] + bs)[i], y)
    {
      if i > 0 {
        assert y in tss[i - 1] <==> HeaderOf(headers, bs[i - 1], y);
      }
    }
  }

  /** Blocks of `size` bytes at these addresses, headers included, lie apart. */
  ghost predicate Spaced(bases: seq<nat>, size: nat) {
    forall i, j :: 0 <= i < j < |bases| ==>
      bases[i] + BOG_HDR + size <= bases[j] || bases[j] + BOG_HDR + size <= bases[i]
  }

  class MemoryBog {
    const blockSize: nat

    var blocks: seq<BogBlock>
    var headers: map<nat, Header>
    /** Addresses the memory stream will hand out for new blocks; none left means NULL. */
    var supply: seq<nat>

    ghost var tss: seq<seq<Tile>>
    ghost var Repr: set<BogBlock>

    ghost predicate BlockOk(b: BogBlock)
      reads b
    {
      b.Valid() && b.lo == b.base + BOG_HDR && b.hi == b.lo + blockSize
    }

    ghost predicate BlocksOk(bs: seq<BogBlock>, sup: seq<nat>)
      reads bs
    {
      && blockSize >= FREE_HDR
      && Spaced(Bases(bs) + sup, blockSize)
      && forall k :: 0 <= k < |bs| ==> BlockOk(bs[k])
    }

    ghost predicate Mirrors(bs: seq<BogBlock>, tss: seq<seq<Tile>>)
      reads bs
    {
      |tss| == |bs| && forall k :: 0 <= k < |bs| ==> bs[k].tiles == tss[k]
    }

    ghost predicate Valid()
      reads this, Repr
    {
      && (forall b :: b in blocks ==> b in Repr)
      && BlocksOk(blocks, supply)
      && Mirrors(blocks, tss)
      && Ledger(blocks, tss, headers)
    }

    constructor (blockSize: nat, supply: seq<nat>)
      requires blockSize >= FREE_HDR
      requires Spaced(supply, blockSize)
      ensures Valid() && blocks == [] && headers == map[]
    {
      this.blockSize := blockSize;
      this.supply := supply;
      blocks, headers, tss, Repr := [], map[], [], {};
      new;
      NoBases(supply, blockSize);
    }

    lemma BlocksDistinct(bs: seq<BogBlock>, sup: seq<nat>)
      requires BlocksOk(bs, sup)
      ensures Distinct(bs)
    {
      var bases := Bases(bs) + sup;
      forall i, j | 0 <= i < j < |bs| ensures bs[i] != bs[j] {
        assert bases[i] == bs[i].base && bases[j] == bs[j].base;
      }
    }

    /** No live header, in any block, starts inside a free object of block `k`. */
    lemma FreeHoldsNoHeader(k: nat, i: nat, a: nat)
      requires Valid() && k < |blocks| && i < |blocks[k].objects|
      requires blocks[k].objects[i].addr <= a < blocks[k].objects[i].End()
      ensures a !in headers
    {
      if a in headers {
        LiveApartFromObjects(a, k, i);
      }
    }

    method AllocateIn(k: nat, need: nat) returns (ret: Option<Block>)
      requires Valid() && Distinct(blocks) && k < |blocks| && need >= ALLOC_HDR && k <= FirstChunk(tss, need)
      modifies blocks[k]
      ensures BlocksOk(blocks, supply)
      ensures ret.None? <==> k < FirstChunk(tss, need)
      ensures ret.None? ==> Mirrors(blocks, tss)
      ensures ret.Some? ==> TookFrom(tss[k], blocks[k].tiles, need, ret.value) && ret.value.addr !in headers
                            && Mirrors(blocks, tss[k := blocks[k].tiles])
    {
      FirstChunkAt(tss, need, k);
      NoHeaderYet(k, need);
      ret := blocks[k].Allocate(need);
    }

    /** One step of the scan: block `k` serves the request, or the scan goes on. */
    method TryBlock(k: nat, need: nat) returns (ret: Option<Block>)
      requires Valid() && Distinct(blocks) && k < |blocks| && need >= ALLOC_HDR && k <= FirstChunk(tss, need)
      modifies blocks[k], this`headers, this`tss
      ensures Valid()
      ensures ret.None? ==> k < FirstChunk(old(tss), need) && headers == old(headers) && tss == old(tss)
      ensures ret.Some? ==> k == FirstChunk(old(tss), need)
                            && Obtained(old(headers), headers, old(tss), tss, blocks, need, ret.value)
    {
      ret := AllocateIn(k, need);
      if ret.Some? {
        Book(k, ret.value);
      }
    }

    /** The scan over the blocks in MemoryBog::allocate. */
    method TryBlocks(need: nat) returns (k: nat, ret: Option<Block>)
      requires Valid() && need >= ALLOC_HDR
      modifies Repr, this`headers, this`tss
      ensures Valid()
      ensures k == FirstChunk(old(tss), need) && (ret.None? <==> k == |old(tss)|)
      ensures ret.None? ==> headers == old(headers) && tss == old(tss)
      ensures ret.Some? ==> Obtained(old(headers), headers, old(tss), tss, blocks, need, ret.value)
    {
      BlocksDistinct(blocks, supply);
      k := 0;
      while k < |blocks|
        invariant k <= |blocks| && Valid() && headers == old(headers) && tss == old(tss)
        invariant k <= FirstChunk(tss, need)
      {
        ret := TryBlock(k, need);
        if ret.Some? {
          return;
        }
        k := k + 1;
      }
      ret := None;
    }

    /** Writing the allocation header. */
    method Book(k: nat, got: Block)
      requires BlocksOk(blocks, supply) && Ledger(blocks, tss, headers) && |tss| == |blocks| && k < |blocks|
      requires (forall b :: b in blocks ==> b in Repr) && got.addr !in headers
      requires AddsLive(tss[k], blocks[k].tiles, Live(got.addr, got.nBytes, got.addr))
      requires Mirrors(blocks, tss[k := blocks[k].tiles])
      modifies this`headers, this`tss
      ensures Valid() && tss == old(tss)[k := blocks[k].tiles]
      ensures headers == old(headers)[got.addr := Header(blocks[k], got.nBytes)]
    {
      BlocksDistinct(blocks, supply);
      LedgerAdds(blocks, tss, headers, k, blocks[k].tiles, got);
      headers := headers[got.addr := Header(blocks[k], got.nBytes)];
      tss := tss[k := blocks[k].tiles];
    }

    /** MemoryBog::getNewBlock and its insertion at the head of the block list. */
    method AddBlock() returns (ok: bool)
      requires Valid()
      modifies this
      ensures Valid() && headers == old(headers) && fresh(Repr - old(Repr)) && old(Repr) <= Repr
      ensures ok == (old(supply) != [])
      ensures !ok ==> tss == old(tss) && supply == []
      ensures ok ==> blocks != [] && tss == [[Tile.Free(blocks[0].lo, blockSize)]] + old(tss) && supply == old(supply)[1..]
    {
      if supply == [] {
        return false;
      }
      var b := new BogBlock(supply[0], blockSize);
      Link(b);
      ok := true;
    }

    /** Insertion of a new block at the head of the block list. */
    method Link(b: BogBlock)
      requires Valid() && supply != [] && b !in Repr && BlockOk(b) && b.base == supply[0]
      requires |b.tiles| == 1 && b.tiles[0].Free?
      modifies this
      ensures Valid() && headers == old(headers) && Repr == old(Repr) + {b}
      ensures blocks == [b] + old(blocks) && tss == [b.tiles] + old(tss) && supply == old(supply)[1..]
    {
      assert b.tiles == [b.tiles[0]];
      LedgerGrows(blocks, tss, headers, b, b.tiles[0]);
      BasesRotate(blocks, b);
      blocks := [b] + blocks;
      supply := supply[1..];
      tss, Repr := [b.tiles] + tss, Repr + {b};
    }

    lemma BasesRotate(bs: seq<BogBlock>, b: BogBlock)
      requires supply != [] && b.base == supply[0] && Spaced(Bases(bs) + supply, blockSize)
      ensures Spaced(Bases([b] + bs) + supply[1..], blockSize)
    {
      var before, after := Bases(bs) + supply, Bases([b] + bs) + supply[1..];
      forall i | 0 <= i < |after| ensures after[i] == before[Moved(i, |bs|)] {}
    }

    /** MemoryBog::allocate. */
    method Allocate(nBytes: nat, noExpand: bool) returns (p: nat)
      requires Valid()
      modifies this, Repr
      ensures Valid() && fresh(Repr - old(Repr))
      ensures var need := RoundUp(nBytes) + ALLOC_HDR;
        p == 0 <==> (nBytes == 0
                     || (FirstChunk(old(tss), need) == |old(tss)|
                         && ((noExpand && old(tss) != []) || old(supply) == [] || blockSize < need)))
      ensures p == 0 ==> headers == old(headers) && Grew(old(tss), tss)
      // The bytes handed out are the caller's alone: a new header guards a range of at least the rounded size.
      ensures p != 0 ==>
        && p >= ALLOC_HDR && p - ALLOC_HDR !in old(headers) && p - ALLOC_HDR in headers
        && headers[p - ALLOC_HDR].nBytes >= RoundUp(nBytes) + ALLOC_HDR
        && headers == old(headers)[p - ALLOC_HDR := headers[p - ALLOC_HDR]]
        && ServedFrom(old(tss), tss, blocks, RoundUp(nBytes) + ALLOC_HDR, p - ALLOC_HDR, headers[p - ALLOC_HDR])
    {
      if nBytes == 0 {
        return 0;
      }
      var ret := Obtain(RoundUp(nBytes) + ALLOC_HDR, noExpand);
      return if ret.None? then 0 else ret.value.addr + ALLOC_HDR;
    }

    /** MemoryBog::allocate once the size, header included, is known. */
    method Obtain(need: nat, noExpand: bool) returns (ret: Option<Block>)
      requires Valid() && need >= ALLOC_HDR
      modifies this, Repr
      ensures Valid() && fresh(Repr - old(Repr)) && old(Repr) <= Repr
      ensures ret.None? <==> FirstChunk(old(tss), need) == |old(tss)|
                             && ((noExpand && old(tss) != []) || old(supply) == [] || blockSize < need)
      ensures ret.None? ==> headers == old(headers) && Grew(old(tss), tss)
      ensures ret.Some? ==> Obtained(old(headers), headers, old(tss), tss, blocks, need, ret.value)
    {
      if blocks == [] {
        ret := ObtainFirst(need, noExpand);
      } else {
        ret := ObtainPrimed(need, noExpand);
      }
    }

    /** MemoryBog::allocate on an empty bog: it gets its first block first. */
    method ObtainFirst(need: nat, noExpand: bool) returns (ret: Option<Block>)
      requires Valid() && need >= ALLOC_HDR && blocks == []
      modifies this, Repr
      ensures Valid() && fresh(Repr - old(Repr)) && old(Repr) <= Repr
      ensures ret.None? <==> old(supply) == [] || blockSize < need
      ensures ret.None? ==> headers == old(headers)
      ensures ret.Some? ==> Obtained(old(headers), headers, [], tss, blocks, need, ret.value)
    {
      var ok := AddBlock();
      if !ok {
        return None;
      }
      ghost var one := tss;
      OneBlock(blocks[0].lo, blockSize, need, []);
      assert one == [[Tile.Free(blocks[0].lo, blockSize)]] + [];
      ret := ObtainPrimed(need, noExpand);
      if ret.Some? {
        FirstServed(old(headers), headers, one, tss, blocks, need, ret.value);
      }
    }

    /** What the only block of a bog served was served from a new block. */
    lemma FirstServed(before: map<nat, Header>, after: map<nat, Header>, one: seq<seq<Tile>>, tss1: seq<seq<Tile>>,
                      bs: seq<BogBlock>, need: nat, got: Block)
      requires Obtained(before, after, one, tss1, bs, need, got) && FirstChunk(one, need) == 0 && |one| == 1
      requires bs != [] && one[0] == [Tile.Free(bs[0].lo, blockSize)]
      ensures Obtained(before, after, [], tss1, bs, need, got)
    {
    }

    /** MemoryBog::allocate on a bog that has a block. */
    method ObtainPrimed(need: nat, noExpand: bool) returns (ret: Option<Block>)
      requires Valid() && need >= ALLOC_HDR
      modifies this, Repr
      ensures Valid() && fresh(Repr - old(Repr)) && old(Repr) <= Repr
      ensures ret.None? <==> FirstChunk(old(tss), need) == |old(tss)| && (noExpand || old(supply) == [] || blockSize < need)
      ensures ret.None? ==> headers == old(headers) && Grew(old(tss), tss)
      ensures ret.Some? ==> Obtained(old(headers), headers, old(tss), tss, blocks, need, ret.value)
      ensures FirstChunk(old(tss), need) < |old(tss)| ==> blocks == old(blocks)
    {
      var k;
      k, ret := TryBlocks(need);
      if ret.None? {
        ret := ExpandUnless(need, noExpand);
      }
    }

    /** What MemoryBog::allocate does when no block has room. */
    method ExpandUnless(need: nat, noExpand: bool) returns (ret: Option<Block>)
      requires Valid() && need >= ALLOC_HDR && FirstChunk(tss, need) == |tss|
      modifies this, Repr
      ensures Valid() && fresh(Repr - old(Repr)) && old(Repr) <= Repr
      ensures ret.None? <==> noExpand || old(supply) == [] || blockSize < need
      ensures ret.None? ==> headers == old(headers) && Grew(old(tss), tss)
      ensures ret.Some? ==> Obtained(old(headers), headers, old(tss), tss, blocks, need, ret.value)
    {
      if noExpand {
        GrewNot(tss);
        return None;
      }
      ret := Expand(need);
    }

    /** The expansion at the end of MemoryBog::allocate: only the new block is tried. */
    method Expand(need: nat) returns (ret: Option<Block>)
      requires Valid() && need >= ALLOC_HDR && FirstChunk(tss, need) == |tss|
      modifies this, Repr
      ensures Valid() && fresh(Repr - old(Repr)) && old(Repr) <= Repr
      ensures ret.None? <==> old(supply) == [] || blockSize < need
      ensures ret.None? ==> headers == old(headers) && Grew(old(tss), tss)
      ensures ret.Some? ==> Obtained(old(headers), headers, old(tss), tss, blocks, need, ret.value)
    {
      var ok := AddBlock();
      if !ok {
        return None;
      }
      OneBlock(blocks[0].lo, blockSize, need, old(tss));
      if blockSize < need {
        return None;
      }
      var k;
      k, ret := TryBlocks(need);
    }

    /** One new header, for at least `need` bytes, and where it came from. */
    ghost predicate Obtained(before: map<nat, Header>, after: map<nat, Header>, tss0: seq<seq<Tile>>, tss1: seq<seq<Tile>>,
                             bs: seq<BogBlock>, need: nat, got: Block) {
      && got.addr !in before && got.nBytes >= need && got.addr in after && after[got.addr].nBytes == got.nBytes
      && after == before[got.addr := after[got.addr]]
      && ServedFrom(tss0, tss1, bs, need, got.addr, after[got.addr])
    }

    /** The header at `a` was carved, first fit, from the first block with room or, failing that,
        from a new one at the head of the list; every other block's tiling is as it was. */
    ghost predicate ServedFrom(before: seq<seq<Tile>>, after: seq<seq<Tile>>, bs: seq<BogBlock>, need: nat, a: nat, h: Header) {
      var k, got := FirstChunk(before, need), Block(a, h.nBytes);
      if k < |before|
      then |after| == |before| == |bs| && h.parent == bs[k]
           && after == before[k := after[k]] && TookFrom(before[k], after[k], need, got)
      else |after| == |before| + 1 == |bs| && h.parent == bs[0]
           && after[1..] == before && TookFrom([Tile.Free(bs[0].lo, blockSize)], after[0], need, got)
    }

    /** The ranges of two live headers never overlap, across all blocks. */
    lemma LiveDisjoint(a: nat, b: nat)
      requires Valid() && a in headers && b in headers && a != b
      ensures a + headers[a].nBytes <= b || b + headers[b].nBytes <= a
    {
      var j := Home(a);
      var k := Home(b);
      var s :| 0 <= s < |tss[j]| && tss[j][s] == Live(a, headers[a].nBytes, a);
      var t :| 0 <= t < |tss[k]| && tss[k][t] == Live(b, headers[b].nBytes, b);
      TilesApart(j, s, k, t);
    }

    /** A live range never meets a free object of any block. */
    lemma LiveApartFromObjects(a: nat, k: nat, i: nat)
      requires Valid() && a in headers && k < |blocks| && i < |blocks[k].objects|
      ensures var b := blocks[k].objects[i]; a < a + headers[a].nBytes <= b.addr || b.End() <= a
    {
      assert BlockOk(blocks[k]);
      var j := Home(a);
      var t :| 0 <= t < |tss[j]| && tss[j][t] == Live(a, headers[a].nBytes, a);
      var s := TileOfBlock(tss[k], i);
      TilesApart(j, t, k, s);
    }

    /** Different tiles, of one block or of two, lie apart. */
    lemma TilesApart(j: nat, s: nat, k: nat, t: nat)
      requires Valid() && j < |blocks| && k < |blocks| && s < |tss[j]| && t < |tss[k]| && tss[j][s] != tss[k][t]
      ensures tss[j][s].lo < tss[j][s].Hi() <= tss[k][t].lo || tss[k][t].Hi() <= tss[j][s].lo
    {
      assert BlockOk(blocks[j]) && BlockOk(blocks[k]);
      if j == k {
        if s < t { ChainOrder(tss[j], s, t, blocks[j].lo, blocks[j].hi); }
        else { ChainOrder(tss[j], t, s, blocks[j].lo, blocks[j].hi); }
      } else {
        ChainBounds(tss[j], s, blocks[j].lo, blocks[j].hi);
        ChainBounds(tss[k], t, blocks[k].lo, blocks[k].hi);
        var bases := Bases(blocks) + supply;
        assert bases[j] == blocks[j].base && bases[k] == blocks[k].base;
      }
    }

    /** MemoryBog::free.  Memory without a valid header is left alone. */
    method Free(p: nat) returns (freed: bool)
      requires Valid() && p >= ALLOC_HDR
      modifies this, Repr
      ensures Valid() && Repr == old(Repr) && blocks == old(blocks) && supply == old(supply)
      ensures freed == (p - ALLOC_HDR in old(headers))
      ensures headers == old(headers) - {p - ALLOC_HDR}
      ensures !freed ==> tss == old(tss)
      ensures freed ==> exists k ::
        && 0 <= k < |old(tss)| == |tss| && tss == old(tss)[k := tss[k]]
        && DropsLive(old(tss)[k], tss[k], Live(p - ALLOC_HDR, old(headers)[p - ALLOC_HDR].nBytes, p - ALLOC_HDR))
    {
      var a := p - ALLOC_HDR;
      if a !in headers {
        assert headers - {a} == headers;
        return false;
      }
      ghost var k := Home(a);
      FreeListed(a, k);
      return true;
    }

    /** The block a header belongs to, and its tile there. */
    lemma Home(a: nat) returns (k: nat)
      requires Valid() && a in headers
      ensures k < |blocks| && |tss| == |blocks| && blocks[k] == headers[a].parent
      ensures Live(a, headers[a].nBytes, a) in tss[k]
    {
      k :| 0 <= k < |blocks| && blocks[k] == headers[a].parent;
      assert HeaderOf(headers, blocks[k], Live(a, headers[a].nBytes, a));
    }

    method FreeListed(a: nat, ghost k: nat)
      requires Valid() && a in headers && k < |blocks| && |tss| == |blocks| && blocks[k] == headers[a].parent
      requires Live(a, headers[a].nBytes, a) in tss[k]
      modifies this`headers, this`tss, blocks[k]
      ensures Valid() && headers == old(headers) - {a}
      ensures |tss| == |old(tss)| && tss == old(tss)[k := tss[k]]
      ensures DropsLive(old(tss)[k], tss[k], Live(a, old(headers)[a].nBytes, a))
    {
      BlocksDistinct(blocks, supply);
      var h := headers[a];
      FreeInBlock(a, h, k);
      LedgerDrops(blocks, tss, headers, k, blocks[k].tiles, a);
      headers := headers - {a};
      tss := tss[k := blocks[k].tiles];
    }

    method FreeInBlock(a: nat, h: Header, ghost k: nat)
      requires BlocksOk(blocks, supply) && Mirrors(blocks, tss) && Distinct(blocks) && k < |blocks|
      requires h.parent == blocks[k] && Live(a, h.nBytes, a) in tss[k]
      modifies h.parent
      ensures BlocksOk(blocks, supply) && Mirrors(blocks, tss[k := blocks[k].tiles])
      ensures DropsLive(tss[k], blocks[k].tiles, Live(a, h.nBytes, a))
    {
      h.parent.Free(Block(a, h.nBytes));
    }

    /** A block nothing refers to is again one free object of `blockSize` bytes. */
    lemma UnreferencedBlockIsWhole(k: nat)
      requires Valid() && k < |blocks| && blocks[k].refCount == 0
      ensures blocks[k].objects == [Block(blocks[k].lo, blockSize)]
    {
      assert BlockOk(blocks[k]);
      AllFreeIsOneBlock(blocks[k].tiles, blocks[k].lo, blocks[k].hi);
    }

    /** Free objects are sorted and never touch, and with the live ranges fill the block. */
    lemma BlockTiled(k: nat)
      requires Valid() && k < |blocks|
      ensures SortedApart(blocks[k].objects) && blocks[k].refCount == LiveCount(tss[k])
      ensures BlockBytes(blocks[k].objects) + LiveBytes(tss[k]) == blockSize
    {
      assert BlockOk(blocks[k]);
      BlocksSortedApart(blocks[k].tiles, blocks[k].lo, blocks[k].hi);
      ChainBytes(blocks[k].tiles, blocks[k].lo, blocks[k].hi);
    }

    lemma NoHeaderYet(k: nat, need: nat)
      requires Valid() && k < |blocks|
      ensures forall ts: seq<Tile>, got: Block :: TookFrom(tss[k], ts, need, got) ==> got.addr !in headers
    {
      forall ts: seq<Tile>, got: Block | TookFrom(tss[k], ts, need, got) ensures got.addr !in headers {
        assert BlockOk(blocks[k]);
        var i := FirstFit(FreeOf(tss[k]), need);
        assert 0 < blocks[k].objects[i].nBytes by { BlocksWithin(tss[k], blocks[k].lo, blocks[k].hi); }
        FreeHoldsNoHeader(k, i, got.addr);
      }
    }
  }

  /** New blocks may have been put in front; the old ones are as they were. */
  ghost predicate Grew(before: seq<seq<Tile>>, after: seq<seq<Tile>>) {
    |before| <= |after| && after[|after| - |before|..] == before
  }

  lemma GrewNot(tss: seq<seq<Tile>>)
    ensures Grew(tss, tss)
  {
    assert tss[0..] == tss;
  }

  function Moved(i: nat, n: nat): nat {
    if i == 0 then n else if i <= n then i - 1 else i
  }

  lemma OneBlock(lo: nat, n: nat, need: nat, rest: seq<seq<Tile>>)
    ensures FirstChunk([[Tile.Free(lo, n)]] + rest, need) == if n >= need then 0 else 1 + FirstChunk(rest, need)
  {
    var one := [Tile.Free(lo, n)];
    assert one[1..] == [] && FreeOf(one) == [Block(lo, n)] && Block(lo, n) in FreeOf(one);
    assert ([one] + rest)[1..] == rest;
  }

  ghost function Bases(bs: seq<BogBlock>): seq<nat> {
    seq(|bs|, i requires 0 <= i < |bs| => bs[i].base)
  }

  lemma NoBases(sup: seq<nat>, size: nat)
    requires Spaced(sup, size)
    ensures Spaced(Bases([]) + sup, size)
  {
    assert Bases([]) + sup == sup;
  }

  /** An arena tiled by `before` handed out `got` for a request of `need` bytes, first fit. */
  ghost predicate TookFrom(before: seq<Tile>, after: seq<Tile>, need: nat, got: Block) {
    var i := FirstFit(FreeOf(before), need);
    && 0 < need && i < |FreeOf(before)|
    && Taken(FreeOf(before), i, need, got, FreeOf(after))
    && AddsLive(before, after, Live(got.addr, got.nBytes, got.addr))
    && Carved(before, after, need, FREE_HDR) && AtTail(before, need, got)
  }

  /** Freeing what was just allocated undoes the allocation, down to the object list. */
  method AllocateThenFree(b: BogBlock, need: nat)
    requires b.Valid() && need >= ALLOC_HDR
    modifies b
    ensures b.Valid() && b.objects == old(b.objects) && b.refCount == old(b.refCount)
  {
    ghost var before := b.tiles;
    var r := b.Allocate(need);
    if r.Some? {
      b.Free(r.value);
      TilingUnique(before, b.tiles, b.lo, b.hi);
    }
  }
}
