/** The kernel heap: a list of chunks, the list of live allocations, and the guard pages
    that are currently protected. */
module Heap {
  import opened Tiling
  import opened HeapChunk
  import opened Wrappers

  // ----- bookkeeping over the chunk list -----

  /** The allocation header a live tile of chunk `c` stands for. */
  ghost function AllocOf(c: Chunk, x: Tile): Allocation
    requires x.Live? && x.lo <= x.hdr <= x.Hi()
  {
    Allocation(c, x.hdr, x.hdr - x.lo, x.Hi() - x.hdr)
  }

  /** Tile `x` of chunk `c` is on the allocation list. */
  ghost predicate Listed(c: Chunk, x: Tile, live: seq<Allocation>) {
    x.Live? && x.lo <= x.hdr <= x.Hi() && AllocOf(c, x) in live
  }

  /** The allocation list names exactly the live tiles of the chunks. */
  ghost predicate Ledger(cs: seq<Chunk>, tss: seq<seq<Tile>>, live: seq<Allocation>) {
    && |tss| == |cs|
    && (forall k, x: Tile :: 0 <= k < |cs| && x.Live? ==> (x in tss[k] <==> Listed(cs[k], x, live)))
    && (forall a :: a in live ==> a.parent in cs && a.gapSize <= a.addr)
  }

  ghost function Sum(s: seq<nat>): nat {
    if s == [] then 0 else s[0] + Sum(s[1..])
  }

  lemma {:induction false} SumUpdate(s: seq<nat>, k: nat, v: nat)
    requires k < |s|
    ensures Sum(s[k := v]) == Sum(s) - s[k] + v
  {
    if k == 0 {
      assert s[0 := v][1..] == s[1..];
    } else {
      SumUpdate(s[1..], k - 1, v);
      assert s[k := v][1..] == s[1..][k - 1 := v];
    }
  }

  lemma {:induction false} SumAppend(s: seq<nat>, v: nat)
    ensures Sum(s + [v]) == Sum(s) + v
  {
    if s == [] {
      assert (s + [v])[1..] == [];
    } else {
      SumAppend(s[1..], v);
      assert (s + [v])[1..] == s[1..] + [v];
    }
  }

  /** Bytes of all chunks that are not free. */
  ghost function TotalLive(tss: seq<seq<Tile>>): nat {
    if tss == [] then 0 else TotalLive(tss[..|tss| - 1]) + LiveBytes(tss[|tss| - 1])
  }

  lemma {:induction false} TotalLiveUpdate(tss: seq<seq<Tile>>, k: nat, ts: seq<Tile>)
    requires k < |tss|
    ensures TotalLive(tss[k := ts]) == TotalLive(tss) - LiveBytes(tss[k]) + LiveBytes(ts)
  {
    var last := |tss| - 1;
    if k == last {
      assert tss[k := ts][..last] == tss[..last];
    } else {
      assert tss[k := ts][..last] == tss[..last][k := ts];
      TotalLiveUpdate(tss[..last], k, ts);
    }
  }

  lemma LedgerAdds(cs: seq<Chunk>, tss: seq<seq<Tile>>, live: seq<Allocation>, k: nat, ts: seq<Tile>, a: Allocation)
    requires Ledger(cs, tss, live) && Distinct(cs) && k < |cs|
    requires a.parent == cs[k] && a.gapSize <= a.addr && AddsLive(tss[k], ts, a.Tile())
    ensures a !in live && Ledger(cs, tss[k := ts], live + [a])
  {
    assert a == AllocOf(cs[k], a.Tile());
    assert !Listed(cs[k], a.Tile(), live);
    forall i, x: Tile | 0 <= i < |cs| && x.Live?
      ensures x in tss[k := ts][i] <==> Listed(cs[i], x, live + [a])
    {
      assert x in tss[i] <==> Listed(cs[i], x, live);
      assert Listed(cs[i], x, live + [a]) <==> Listed(cs[i], x, live) || (i == k && x == a.Tile());
    }
  }

  lemma LedgerDrops(cs: seq<Chunk>, tss: seq<seq<Tile>>, live: seq<Allocation>, k: nat, ts: seq<Tile>, m: nat)
    requires Ledger(cs, tss, live) && Distinct(cs) && Distinct(live) && k < |cs| && m < |live|
    requires live[m].parent == cs[k] && live[m].gapSize <= live[m].addr && DropsLive(tss[k], ts, live[m].Tile())
    ensures Ledger(cs, tss[k := ts], live[..m] + live[m + 1..]) && Distinct(live[..m] + live[m + 1..])
  {
    var a, rest := live[m], live[..m] + live[m + 1..];
    assert a == AllocOf(cs[k], a.Tile());
    forall b | b in live ensures b in rest <==> b != a {
      var i :| 0 <= i < |live| && live[i] == b;
      if i != m { assert rest[if i < m then i else i - 1] == b; }
    }
    forall i, x: Tile | 0 <= i < |cs| && x.Live?
      ensures x in tss[k := ts][i] <==> Listed(cs[i], x, rest)
    {
      assert x in tss[i] <==> Listed(cs[i], x, live);
      assert Listed(cs[i], x, rest) <==> Listed(cs[i], x, live) && !(i == k && x == a.Tile());
    }
  }

  /** Adding a chunk with nothing live in it. */
  lemma LedgerGrows(cs: seq<Chunk>, tss: seq<seq<Tile>>, live: seq<Allocation>, c: Chunk, x: Tile)
    requires Ledger(cs, tss, live) && c !in cs && x.Free?
    ensures Ledger(cs + [c], tss + [[x]], live)
  {
    forall i, y: Tile | 0 <= i < |cs + [c]| && y.Live?
      ensures y in (tss + [[x]])[i] <==> Listed((cs + [c])[i], y, live)
    {
      if i < |cs| {
        assert y in tss[i] <==> Listed(cs[i], y, live);
      }
    }
  }

  // ----- request sizes -----

  /** Heap::malloc's size for a request: header and guard page added, rounded up to a word. */
  function SizeFor(req: nat, guarded: bool): (sz: nat)
    ensures sz % WORD == 0
    ensures ALLOC_HDR + req + (if guarded then PAGE else 0) <= sz
    ensures sz < ALLOC_HDR + req + (if guarded then PAGE else 0) + WORD
  {
    var sz := req + ALLOC_HDR + (if guarded then PAGE else 0);
    if sz % WORD != 0 then (sz + WORD) - (sz + WORD) % WORD else sz
  }

  function GuardPage(a: Allocation): int {
    a.End() - PAGE
  }

  datatype MallocResult = Ptr(p: nat) | Null | Panicked
  datatype FreeResult = Freed | FreePanicked
  datatype Verdict = Ok | BeyondChunk | OutOfOrder | Duplicate | Overlapping

  /** What checkBlocks accepts: sorted, apart from one another, inside the chunk. */
  ghost predicate BlocksPass(bs: seq<Block>, chunkEnd: nat) {
    && (forall i :: 0 <= i < |bs| ==> bs[i].End() <= chunkEnd)
    && (forall i :: 0 < i < |bs| ==> bs[i - 1].addr < bs[i].addr && bs[i - 1].End() < bs[i].addr)
  }

  /** The per-chunk loop of Heap::checkBlocks. */
  method CheckChunkBlocks(bs: seq<Block>, chunkEnd: nat) returns (e: Verdict)
    ensures e.Ok? <==> BlocksPass(bs, chunkEnd)
  {
    var i := 0;
    while i < |bs|
      invariant i <= |bs| && BlocksPass(bs[..i], chunkEnd)
    {
      var curr := bs[i];
      if curr.End() > chunkEnd {
        return BeyondChunk;
      }
      if i > 0 {
        var prev := bs[i - 1];
        if curr.addr < prev.addr {
          return OutOfOrder;
        }
        if curr.addr == prev.addr {
          return Duplicate;
        }
        if prev.End() >= curr.addr {
          return Overlapping;
        }
      }
      i := i + 1;
    }
    assert bs[..i] == bs;
    return Ok;
  }

  class Heap {
    const chunkSize: nat
    const chunkHdr: nat
    const guarded: bool

    var chunks: seq<Chunk>
    var allocations: seq<Allocation>
    var guardPages: set<int>
    /** Addresses the memory stream will hand out for new chunks; none left means NULL. */
    var supply: seq<nat>

    /** The chunks' tilings and counters, side by side. */
    ghost var tss: seq<seq<Tile>>
    ghost var counts: seq<nat>
    ghost var Repr: set<Chunk>
    /** The chunk addresses the heap was given, used and unused. */
    ghost const regions: seq<nat>

    /** Bytes of the one block a new chunk is born with. */
    function FreshBytes(): int {
      chunkSize - FirstBlock(0, chunkHdr, guarded)
    }

    /** The configuration: a fresh chunk holds at least a block header, and guard-paged heaps
        are made of whole pages. */
    ghost predicate Configured() {
      FreshBytes() >= BLOCK_HDR && (guarded ==> chunkSize % PAGE == 0)
    }

    /** Chunk addresses, in use and still to come, are page aligned and `chunkSize` apart. */
    ghost predicate BasesOk(bases: seq<nat>) {
      && (forall i :: 0 <= i < |bases| ==> bases[i] % PAGE == 0)
      && (forall i, j :: 0 <= i < j < |bases| ==>
            bases[i] + chunkSize <= bases[j] || bases[j] + chunkSize <= bases[i])
    }

    ghost predicate ChunkOk(c: Chunk)
      reads c
    {
      && c.Valid() && c.guarded == guarded
      && c.lo == FirstBlock(c.base, chunkHdr, guarded) && c.hi == c.base + chunkSize
    }

    ghost predicate ChunksOk(cs: seq<Chunk>, sup: seq<nat>)
      reads cs
    {
      Configured() && BasesOk(regions) && Bases(cs) + sup == regions && EachOk(cs)
    }

    ghost predicate EachOk(cs: seq<Chunk>)
      reads cs
    {
      forall k :: 0 <= k < |cs| ==> ChunkOk(cs[k])
    }

    ghost predicate Mirrors(cs: seq<Chunk>, tss: seq<seq<Tile>>, counts: seq<nat>)
      reads cs
    {
      && |tss| == |counts| == |cs|
      && forall k :: 0 <= k < |cs| ==> cs[k].tiles == tss[k] && cs[k].nAllocations == counts[k]
    }

    /** The books agree: the list names exactly the live tiles, each once; the chunks' counters
        add up to its length; the guard pages are those of the listed allocations. */
    ghost predicate Books(cs: seq<Chunk>, tss: seq<seq<Tile>>, counts: seq<nat>, live: seq<Allocation>, guards: set<int>) {
      && Ledger(cs, tss, live)
      && Distinct(live)
      && Sum(counts) == |live|
      && guards == GuardsOf(live, guarded)
    }

    ghost predicate Valid()
      reads this, Repr
    {
      && (forall c :: c in chunks ==> c in Repr)
      && ChunksOk(chunks, supply)
      && Mirrors(chunks, tss, counts)
      && Books(chunks, tss, counts, allocations, guardPages)
    }

    constructor (chunkSize: nat, chunkHdr: nat, guarded: bool, supply: seq<nat>)
      requires FirstBlock(0, chunkHdr, guarded) + BLOCK_HDR <= chunkSize
      requires guarded ==> chunkSize % PAGE == 0
      requires forall i :: 0 <= i < |supply| ==> supply[i] % PAGE == 0
      requires forall i, j :: 0 <= i < j < |supply| ==>
        supply[i] + chunkSize <= supply[j] || supply[j] + chunkSize <= supply[i]
      ensures Valid() && chunks == [] && allocations == [] && guardPages == {} && this.supply == supply && regions == supply
      ensures this.chunkSize == chunkSize && this.chunkHdr == chunkHdr && this.guarded == guarded
    {
      this.chunkSize := chunkSize;
      this.chunkHdr := chunkHdr;
      this.guarded := guarded;
      this.supply := supply;
      regions := supply;
      chunks := [];
      allocations := [];
      guardPages := {};
      tss, counts, Repr := [], [], {};
      new;
      assert Bases(chunks) == [] && Bases(chunks) + supply == supply;
      assert Books(chunks, tss, counts, allocations, guardPages);
    }

    lemma ChunksDistinct(cs: seq<Chunk>, sup: seq<nat>)
      requires ChunksOk(cs, sup)
      ensures Distinct(cs)
    {
      var bs := Bases(cs) + sup;
      forall i, j | 0 <= i < j < |cs| ensures cs[i] != cs[j] {
        assert bs[i] == cs[i].base && bs[j] == cs[j].base;
      }
    }

    /** Chunk `k` handed out `a`, and every other chunk is as `tss` and `counts` say. */
    ghost predicate Took(cs: seq<Chunk>, tss: seq<seq<Tile>>, counts: seq<nat>, k: nat, sz: nat, a: Allocation)
      requires |tss| == |counts| == |cs|
      reads cs
    {
      && k < |cs| && TookFrom(cs[k], tss[k], cs[k].tiles, sz, a)
      && Mirrors(cs, tss[k := cs[k].tiles], counts[k := counts[k] + 1])
    }

    /** One pass of Heap::malloc over the chunk list. */
    method TryChunks(sz: nat) returns (k: nat, ret: Option<Allocation>)
      requires EachOk(chunks) && Mirrors(chunks, tss, counts) && Distinct(chunks)
      requires sz >= ALLOC_HDR + (if guarded then PAGE else 0)
      modifies chunks
      ensures EachOk(chunks)
      ensures k == FirstChunk(tss, Need(guarded, sz)) && (ret.None? <==> k == |tss|)
      ensures ret.None? ==> Mirrors(chunks, tss, counts)
      ensures ret.Some? ==> Took(chunks, tss, counts, k, sz, ret.value)
    {
      k := 0;
      while k < |chunks|
        invariant k <= |chunks| && EachOk(chunks) && Mirrors(chunks, tss, counts)
        invariant k <= FirstChunk(tss, Need(guarded, sz))
      {
        ret := TryChunk(k, sz);
        if ret.Some? {
          return;
        }
        k := k + 1;
      }
      ret := None;
    }

    method TryChunk(k: nat, sz: nat) returns (ret: Option<Allocation>)
      requires EachOk(chunks) && Mirrors(chunks, tss, counts) && Distinct(chunks) && k < |chunks|
      requires sz >= ALLOC_HDR + (if guarded then PAGE else 0) && k <= FirstChunk(tss, Need(guarded, sz))
      modifies chunks[k]
      ensures EachOk(chunks)
      ensures if ret.None? then k < FirstChunk(tss, Need(guarded, sz)) else k == FirstChunk(tss, Need(guarded, sz))
      ensures ret.None? ==> Mirrors(chunks, tss, counts)
      ensures ret.Some? ==> Took(chunks, tss, counts, k, sz, ret.value)
    {
      FirstChunkAt(tss, Need(guarded, sz), k);
      assert ChunkOk(chunks[k]) && chunks[k].blocks == FreeOf(tss[k]);
      ret := chunks[k].Malloc(sz);
      OtherChunks(k);
      if ret.Some? {
        TookMirrors(chunks, tss, counts, k);
      }
    }

    /** A change of chunk `k` alone leaves every other chunk as it was. */
    twostate lemma OtherChunks(k: nat)
      requires unchanged(this) && k < |chunks| && Distinct(chunks)
      requires forall c :: c in chunks && c != chunks[k] ==> unchanged(c)
      requires old(EachOk(chunks) && Mirrors(chunks, tss, counts)) && ChunkOk(chunks[k])
      ensures EachOk(chunks) && MirrorsBut(chunks, tss, counts, k)
    {
      forall i | 0 <= i < |chunks| && i != k
        ensures ChunkOk(chunks[i]) && chunks[i].tiles == tss[i] && chunks[i].nAllocations == counts[i]
      {
        assert chunks[i] in chunks && chunks[i] != chunks[k];
        assert old(ChunkOk(chunks[i]));
      }
    }

    ghost predicate MirrorsBut(cs: seq<Chunk>, tss: seq<seq<Tile>>, counts: seq<nat>, k: nat)
      reads cs
    {
      && |tss| == |counts| == |cs|
      && forall i :: 0 <= i < |cs| && i != k ==> cs[i].tiles == tss[i] && cs[i].nAllocations == counts[i]
    }

    lemma TookMirrors(cs: seq<Chunk>, tss: seq<seq<Tile>>, counts: seq<nat>, k: nat)
      requires MirrorsBut(cs, tss, counts, k) && k < |cs| && cs[k].nAllocations == counts[k] + 1
      ensures Mirrors(cs, tss[k := cs[k].tiles], counts[k := counts[k] + 1])
    {
    }

    /** Heap::getNewChunk and its insertion at the tail of the chunk list. */
    method AddChunk() returns (ok: bool)
      requires Valid()
      modifies this
      ensures Valid() && allocations == old(allocations) && guardPages == old(guardPages)
      ensures ok == (old(supply) != []) && fresh(Repr - old(Repr)) && old(Repr) <= Repr
      ensures !ok ==> chunks == old(chunks) && supply == [] && tss == old(tss)
      ensures ok ==>
        && |chunks| == |old(chunks)| + 1 && old(chunks) <= chunks && supply == old(supply)[1..]
        && FreshBytes() >= BLOCK_HDR
        && tss == old(tss) + [[Tile.Free(chunks[|old(chunks)|].lo, FreshBytes())]]
    {
      if supply == [] {
        return false;
      }
      var base := supply[0];
      assert base % PAGE == 0 by {
        assert (Bases(chunks) + supply)[|chunks|] == base;
      }
      FirstBlockShift(base, chunkHdr, guarded);
      var c := new Chunk(base, chunkHdr, chunkSize, guarded);
      Link(c);
      ok := true;
    }

    /** Insertion of a new chunk at the tail of the chunk list. */
    method Link(c: Chunk)
      requires Valid() && supply != [] && c !in Repr && ChunkOk(c) && c.base == supply[0]
      requires FreshBytes() >= 0 && c.nAllocations == 0 && c.tiles == [Tile.Free(c.lo, FreshBytes())]
      modifies this
      ensures Valid() && allocations == old(allocations) && guardPages == old(guardPages)
      ensures Repr == old(Repr) + {c} && chunks == old(chunks) + [c] && supply == old(supply)[1..]
      ensures tss == old(tss) + [c.tiles]
    {
      Grown(c);
      chunks := chunks + [c];
      supply := supply[1..];
      tss, counts, Repr := tss + [c.tiles], counts + [0], Repr + {c};
    }

    lemma Grown(c: Chunk)
      requires Valid() && supply != [] && c !in Repr && ChunkOk(c) && c.base == supply[0]
      requires c.nAllocations == 0 && |c.tiles| == 1 && c.tiles[0].Free?
      ensures Bases(chunks + [c]) + supply[1..] == regions
      ensures Books(chunks + [c], tss + [c.tiles], counts + [0], allocations, guardPages)
    {
      LedgerGrows(chunks, tss, allocations, c, c.tiles[0]);
      assert c.tiles == [c.tiles[0]];
      SumAppend(counts, 0);
      assert Bases(chunks + [c]) + supply[1..] == Bases(chunks) + supply;
    }

    /** Entering a new allocation into the books. */
    lemma Booked(cs: seq<Chunk>, tss: seq<seq<Tile>>, counts: seq<nat>, live: seq<Allocation>, guards: set<int>,
                 k: nat, ts: seq<Tile>, a: Allocation)
      requires Books(cs, tss, counts, live, guards) && Distinct(cs) && k < |cs| && |counts| == |cs|
      requires a.parent == cs[k] && a.gapSize <= a.addr && AddsLive(tss[k], ts, a.Tile())
      ensures Books(cs, tss[k := ts], counts[k := counts[k] + 1], live + [a],
                    guards + (if guarded then {GuardPage(a)} else {}))
    {
      LedgerAdds(cs, tss, live, k, ts, a);
      SumUpdate(counts, k, counts[k] + 1);
    }

    /** One pass of Heap::malloc: the allocation, its guard page and its list entry. */
    method MallocPass(sz: nat) returns (k: nat, ret: Option<Allocation>)
      requires Valid() && sz >= ALLOC_HDR + (if guarded then PAGE else 0)
      modifies Repr, this`allocations, this`guardPages, this`tss, this`counts
      ensures Valid()
      ensures k == FirstChunk(old(tss), Need(guarded, sz)) && (ret.None? <==> k == |old(tss)|)
      ensures ret.None? ==> allocations == old(allocations) && guardPages == old(guardPages) && tss == old(tss)
      ensures ret.Some? ==>
        && |tss| == |old(tss)| && tss == old(tss)[k := tss[k]]
        && TookFrom(chunks[k], old(tss)[k], tss[k], sz, ret.value)
        && allocations == old(allocations) + [ret.value]
        && guardPages == old(guardPages) + (if guarded then {GuardPage(ret.value)} else {})
    {
      ChunksDistinct(chunks, supply);
      k, ret := TryChunks(sz);
      if ret.Some? {
        Book(k, ret.value);
      }
    }

    /** Heap::malloc after Chunk::malloc succeeded: protect the guard page, list the allocation. */
    method Book(k: nat, a: Allocation)
      requires ChunksOk(chunks, supply) && Books(chunks, tss, counts, allocations, guardPages)
      requires |tss| == |counts| == |chunks| && k < |chunks| && (forall c :: c in chunks ==> c in Repr) && Distinct(chunks)
      requires a.parent == chunks[k] && a.gapSize <= a.addr && AddsLive(tss[k], chunks[k].tiles, a.Tile())
      requires Mirrors(chunks, tss[k := chunks[k].tiles], counts[k := counts[k] + 1])
      modifies this`allocations, this`guardPages, this`tss, this`counts
      ensures Valid() && allocations == old(allocations) + [a]
      ensures guardPages == old(guardPages) + (if guarded then {GuardPage(a)} else {})
      ensures tss == old(tss)[k := chunks[k].tiles]
    {
      Booked(chunks, tss, counts, allocations, guardPages, k, chunks[k].tiles, a);
      tss, counts := tss[k := chunks[k].tiles], counts[k := counts[k] + 1];
      guardPages := guardPages + (if guarded then {GuardPage(a)} else {});
      allocations := allocations + [a];
    }

    /** What Heap::malloc does when the first pass found nothing: get a chunk, try again, and
        on a second failure get yet another one. */
    method Retry(sz: nat) returns (ret: Option<Allocation>)
      requires Valid() && sz >= ALLOC_HDR + (if guarded then PAGE else 0)
      requires FirstChunk(tss, Need(guarded, sz)) == |tss|
      modifies this, Repr
      ensures Valid() && old(chunks) <= chunks
      ensures fresh(Repr - old(Repr)) && old(Repr) <= Repr
      ensures ret.None? <==> old(supply) == [] || FreshBytes() < Need(guarded, sz)
      ensures ret.None? ==>
        && allocations == old(allocations) && guardPages == old(guardPages)
        && old(tss) <= tss && |tss| == |old(tss)| + (if |old(supply)| < 2 then |old(supply)| else 2)
      ensures ret.Some? ==>
        && allocations == old(allocations) + [ret.value]
        && guardPages == old(guardPages) + (if guarded then {GuardPage(ret.value)} else {})
        && |tss| == |old(tss)| + 1 && old(tss) <= tss && FreshBytes() >= 0
        && TookFrom(chunks[|old(tss)|], [Tile.Free(chunks[|old(tss)|].lo, FreshBytes())], tss[|old(tss)|], sz, ret.value)
    {
      var ok;
      ok, ret := TryNewChunk(sz);
      if ok && ret.None? {
        ok := AddChunk();
      }
    }

    /** A new chunk, and a request from it. */
    method TryNewChunk(sz: nat) returns (ok: bool, ret: Option<Allocation>)
      requires Valid() && sz >= ALLOC_HDR + (if guarded then PAGE else 0)
      requires FirstChunk(tss, Need(guarded, sz)) == |tss|
      modifies this, Repr
      ensures ok == (old(supply) != [])
      ensures Valid() && old(chunks) <= chunks && supply == if ok then old(supply)[1..] else []
      ensures fresh(Repr - old(Repr)) && old(Repr) <= Repr
      ensures (ret.None? <==> !ok || FreshBytes() < Need(guarded, sz))
      ensures ret.None? ==> allocations == old(allocations) && guardPages == old(guardPages)
      ensures old(tss) <= tss && |tss| == |old(tss)| + (if ok then 1 else 0)
      ensures ret.Some? ==>
        && allocations == old(allocations) + [ret.value]
        && guardPages == old(guardPages) + (if guarded then {GuardPage(ret.value)} else {})
        && FreshBytes() >= 0
        && TookFrom(chunks[|old(tss)|], [Tile.Free(chunks[|old(tss)|].lo, FreshBytes())], tss[|old(tss)|], sz, ret.value)
    {
      ok := AddChunk();
      if !ok {
        return false, None;
      }
      ret := SecondPass(sz, old(tss));
    }

    /** The second pass: only the chunk just added can have room. */
    method SecondPass(sz: nat, ghost before: seq<seq<Tile>>) returns (ret: Option<Allocation>)
      requires Valid() && sz >= ALLOC_HDR + (if guarded then PAGE else 0)
      requires FirstChunk(before, Need(guarded, sz)) == |before| && |before| < |chunks| && FreshBytes() >= 0
      requires tss == before + [[Tile.Free(chunks[|before|].lo, FreshBytes())]]
      modifies Repr, this`allocations, this`guardPages, this`tss, this`counts
      ensures Valid() && before <= tss && |tss| == |before| + 1
      ensures ret.None? <==> FreshBytes() < Need(guarded, sz)
      ensures ret.None? ==> allocations == old(allocations) && guardPages == old(guardPages)
      ensures ret.Some? ==>
        && allocations == old(allocations) + [ret.value]
        && guardPages == old(guardPages) + (if guarded then {GuardPage(ret.value)} else {})
        && TookFrom(chunks[|before|], [Tile.Free(chunks[|before|].lo, FreshBytes())], tss[|before|], sz, ret.value)
    {
      FreshFits(before, chunks[|before|].lo, FreshBytes(), Need(guarded, sz));
      var k;
      k, ret := MallocPass(sz);
    }

    /** Heap::malloc. */
    method Malloc(req: nat) returns (r: MallocResult)
      requires Valid()
      modifies this, Repr
      ensures Valid() && old(chunks) <= chunks
      ensures fresh(Repr - old(Repr)) && old(Repr) <= Repr
      ensures r.Panicked? <==> req == 0
      ensures r.Panicked? ==> allocations == old(allocations) && guardPages == old(guardPages) && tss == old(tss)
      // NULL exactly when no chunk has room and a new one is not to be had or would be too small.
      ensures r.Null? <==> (req > 0
                            && FirstChunk(old(tss), Need(guarded, SizeFor(req, guarded))) == |old(tss)|
                            && (old(supply) == [] || FreshBytes() < Need(guarded, SizeFor(req, guarded))))
      // A failed request still keeps the chunks it tried.
      ensures r.Null? ==>
        && allocations == old(allocations) && guardPages == old(guardPages)
        && old(tss) <= tss && |tss| == |old(tss)| + (if |old(supply)| < 2 then |old(supply)| else 2)
      ensures r.Ptr? ==>
        && |allocations| == |old(allocations)| + 1 && old(allocations) <= allocations
        && Served(old(tss), tss, chunks, req, r.p, allocations[|old(allocations)|])
        && Need(guarded, SizeFor(req, guarded)) <= TotalLive(tss) - TotalLive(old(tss)) <= Need(guarded, SizeFor(req, guarded)) + 40
        && guardPages == old(guardPages) + (if guarded then {GuardPage(allocations[|old(allocations)|])} else {})
    {
      if req == 0 {
        return Panicked;
      }
      var ret := MallocSized(SizeFor(req, guarded));
      if ret.Some? {
        ServedTakes(old(tss), tss, chunks, SizeFor(req, guarded), ret.value);
      }
      return if ret.None? then Null else Ptr(ret.value.addr + ALLOC_HDR);
    }

    /** Heap::malloc once the size, header and guard page included, is known. */
    method MallocSized(sz: nat) returns (ret: Option<Allocation>)
      requires Valid() && sz >= ALLOC_HDR + (if guarded then PAGE else 0)
      modifies this, Repr
      ensures Valid() && old(chunks) <= chunks
      ensures fresh(Repr - old(Repr)) && old(Repr) <= Repr
      ensures ret.None? <==> FirstChunk(old(tss), Need(guarded, sz)) == |old(tss)|
                             && (old(supply) == [] || FreshBytes() < Need(guarded, sz))
      ensures ret.None? ==>
        && allocations == old(allocations) && guardPages == old(guardPages)
        && old(tss) <= tss && |tss| == |old(tss)| + (if |old(supply)| < 2 then |old(supply)| else 2)
      ensures ret.Some? ==>
        && allocations == old(allocations) + [ret.value]
        && guardPages == old(guardPages) + (if guarded then {GuardPage(ret.value)} else {})
        && ServedFrom(old(tss), tss, chunks, sz, ret.value)
    {
      var k;
      k, ret := MallocPass(sz);
      if ret.None? {
        ret := Retry(sz);
      }
    }

    /** Extents of different live allocations never overlap. */
    lemma LiveDisjoint(m: nat, n: nat)
      requires Valid() && m < |allocations| && n < |allocations| && m != n
      ensures var a, b := allocations[m], allocations[n];
        a.gapSize <= a.addr && b.gapSize <= b.addr
        && (a.End() <= b.addr - b.gapSize || b.End() <= a.addr - a.gapSize)
    {
      var a, b := allocations[m], allocations[n];
      var i, s := Home(m);
      var j, t := Home(n);
      ChainBounds(tss[i], s, chunks[i].lo, chunks[i].hi);
      ChainBounds(tss[j], t, chunks[j].lo, chunks[j].hi);
      if i == j {
        assert s != t;
        if s < t { ChainOrder(tss[i], s, t, chunks[i].lo, chunks[i].hi); }
        else { ChainOrder(tss[i], t, s, chunks[i].lo, chunks[i].hi); }
      } else {
        var bs := Bases(chunks) + supply;
        assert bs[i] == chunks[i].base && bs[j] == chunks[j].base;
      }
    }

    /** Where a listed allocation lives: its chunk and its tile there. */
    lemma Home(m: nat) returns (k: nat, t: nat)
      requires Valid() && m < |allocations|
      ensures k < |chunks| && chunks[k] == allocations[m].parent && |tss| == |chunks|
      ensures t < |tss[k]| && allocations[m].gapSize <= allocations[m].addr && tss[k][t] == allocations[m].Tile()
      ensures ChunkOk(chunks[k]) && chunks[k].tiles == tss[k] && TileOk(tss[k][t], guarded)
    {
      var a := allocations[m];
      assert a in allocations;
      k :| 0 <= k < |chunks| && chunks[k] == a.parent;
      assert AllocOf(chunks[k], a.Tile()) == a;
      assert Listed(chunks[k], a.Tile(), allocations);
      assert a.Tile() in tss[k];
      t :| 0 <= t < |tss[k]| && tss[k][t] == a.Tile();
      assert ChunkOk(chunks[k]);
    }

    /** A live allocation's extent never meets a free block. */
    lemma LiveApartFromBlocks(m: nat, k: nat, i: nat)
      requires Valid() && m < |allocations| && k < |chunks| && i < |chunks[k].blocks|
      ensures var a, b := allocations[m], chunks[k].blocks[i];
        a.gapSize <= a.addr && (a.End() <= b.addr || b.End() <= a.addr - a.gapSize)
    {
      var j, t := Home(m);
      assert ChunkOk(chunks[k]) && chunks[k].tiles == tss[k];
      var s := TileOfBlock(tss[k], i);
      ChainBounds(tss[j], t, chunks[j].lo, chunks[j].hi);
      ChainBounds(tss[k], s, chunks[k].lo, chunks[k].hi);
      if j == k {
        if s < t { ChainOrder(tss[k], s, t, chunks[k].lo, chunks[k].hi); }
        else { ChainOrder(tss[k], t, s, chunks[k].lo, chunks[k].hi); }
      } else {
        var bs := Bases(chunks) + supply;
        assert bs[j] == chunks[j].base && bs[k] == chunks[k].base;
      }
    }

    /** The guard page is page aligned, is the last page of its allocation's extent, lies past
        the header and every byte of the request, and is protected; the extent itself is whole
        pages, so neither alignment panic of Heap::free can fire for a live pointer. */
    lemma GuardPageOwn(m: nat)
      requires Valid() && guarded && m < |allocations|
      ensures var a := allocations[m];
        && GuardPage(a) % PAGE == 0 && a.addr + ALLOC_HDR <= GuardPage(a) && GuardPage(a) + PAGE == a.End()
        && GuardPage(a) in guardPages
        && (forall req: nat :: a.nBytes == SizeFor(req, guarded) ==> a.addr + ALLOC_HDR + req <= GuardPage(a))
        && a.gapSize <= a.addr && (a.addr - a.gapSize) % PAGE == 0 && a.End() % PAGE == 0
    {
      var k, t := Home(m);
      assert allocations[m] in allocations;
      GuardPageOf(allocations[m]);
    }

    /** A guard page lies in one of the regions the heap was given. */
    lemma GuardPageInRegion(m: nat) returns (k: nat)
      requires Valid() && guarded && m < |allocations|
      ensures k < |regions| && regions[k] <= GuardPage(allocations[m]) < regions[k] + chunkSize
    {
      var t;
      k, t := Home(m);
      GuardPageOwn(m);
      ChainBounds(tss[k], t, chunks[k].lo, chunks[k].hi);
      assert regions[k] == (Bases(chunks) + supply)[k] == chunks[k].base;
    }

    /** A guard page meets no other live allocation, and no free block. */
    lemma GuardPageApart(m: nat, n: nat, k: nat, i: nat)
      requires Valid() && guarded && m < |allocations|
      ensures n < |allocations| && n != m ==>
        var b := allocations[n];
        b.gapSize <= b.addr && (GuardPage(allocations[m]) + PAGE <= b.addr - b.gapSize || b.End() <= GuardPage(allocations[m]))
      ensures k < |chunks| && i < |chunks[k].blocks| ==>
        var b := chunks[k].blocks[i];
        GuardPage(allocations[m]) + PAGE <= b.addr || b.End() <= GuardPage(allocations[m])
    {
      GuardPageOwn(m);
      if n < |allocations| && n != m {
        LiveDisjoint(m, n);
      }
      if k < |chunks| && i < |chunks[k].blocks| {
        LiveApartFromBlocks(m, k, i);
      }
    }

    /** Live allocations have different headers. */
    lemma SameHeader(m: nat, n: nat)
      requires Valid() && m < |allocations| && n < |allocations| && allocations[m].addr == allocations[n].addr
      ensures m == n
    {
      if m != n {
        LiveDisjoint(m, n);
        var j, s := Home(m);
        var k, t := Home(n);
      }
    }

    /** Every protected page belongs to exactly one live allocation. */
    lemma GuardPageOwner(g: int) returns (m: nat)
      requires Valid() && g in guardPages
      ensures guarded && m < |allocations| && g == GuardPage(allocations[m])
      ensures forall n :: 0 <= n < |allocations| && g == GuardPage(allocations[n]) ==> n == m
    {
      var a :| a in allocations && GuardPage(a) == g;
      m :| 0 <= m < |allocations| && allocations[m] == a;
      forall n | 0 <= n < |allocations| && g == GuardPage(allocations[n]) ensures n == m {
        if n != m {
          GuardPageOwn(n);
          GuardPageOwn(m);
          LiveDisjoint(n, m);
        }
      }
    }

    /** Taking an allocation off the list takes exactly its own guard page out. */
    lemma GuardsWithout(m: nat)
      requires Valid() && m < |allocations|
      ensures GuardsOf(allocations[..m] + allocations[m + 1..], guarded)
              == guardPages - (if guarded then {GuardPage(allocations[m])} else {})
    {
      var a, rest := allocations[m], allocations[..m] + allocations[m + 1..];
      if guarded {
        assert GuardPage(a) in guardPages by { GuardPageOwn(m); }
        var m' := GuardPageOwner(GuardPage(a));
        forall g ensures g in GuardsOf(rest, true) <==> g in guardPages && g != GuardPage(a) {
          if g in guardPages && g != GuardPage(a) {
            var n := GuardPageOwner(g);
            assert rest[if n < m then n else n - 1] == allocations[n];
          }
          if g in GuardsOf(rest, true) {
            var b :| b in rest && GuardPage(b) == g;
            var i :| 0 <= i < |rest| && rest[i] == b;
            assert allocations[if i < m then i else i + 1] == b;
          }
        }
      }
    }

    /** Striking an allocation off the books. */
    lemma Unbooked(cs: seq<Chunk>, tss: seq<seq<Tile>>, counts: seq<nat>, live: seq<Allocation>, guards: set<int>,
                   k: nat, ts: seq<Tile>, m: nat, guards': set<int>)
      requires Books(cs, tss, counts, live, guards) && Distinct(cs) && k < |cs| && |counts| == |cs|
      requires m < |live| && counts[k] > 0 && live[m].parent == cs[k] && live[m].gapSize <= live[m].addr
      requires DropsLive(tss[k], ts, live[m].Tile()) && guards' == GuardsOf(live[..m] + live[m + 1..], guarded)
      ensures Books(cs, tss[k := ts], counts[k := counts[k] - 1], live[..m] + live[m + 1..], guards')
    {
      LedgerDrops(cs, tss, live, k, ts, m);
      SumUpdate(counts, k, counts[k] - 1);
    }

    /** Heap::free.  A pointer that is not on the allocation list is a panic. */
    method Free(p: nat) returns (r: FreeResult)
      requires Valid()
      modifies this, Repr
      ensures Valid() && chunks == old(chunks) && supply == old(supply) && Repr == old(Repr)
      ensures r.Freed? <==> exists a :: a in old(allocations) && a.addr + ALLOC_HDR == p
      ensures !r.Freed? ==> allocations == old(allocations) && guardPages == old(guardPages) && tss == old(tss)
      ensures r.Freed? ==> exists m, k ::
        && 0 <= m < |old(allocations)| && old(allocations)[m].addr + ALLOC_HDR == p
        && allocations == old(allocations)[..m] + old(allocations)[m + 1..]
        && guardPages == old(guardPages) - (if guarded then {GuardPage(old(allocations)[m])} else {})
        && 0 <= k < |old(tss)| == |tss| && tss == old(tss)[k := tss[k]]
        && old(allocations)[m].gapSize <= old(allocations)[m].addr
        && DropsLive(old(tss)[k], tss[k], old(allocations)[m].Tile())
    {
      var m := FindListed(p);
      if m == |allocations| {
        return FreePanicked;
      }
      ghost var k, t := Home(m);
      FreeListed(m, k);
      return Freed;
    }

    /** The first allocation whose pointer is `p`, or the length of the list. */
    method FindListed(p: nat) returns (m: nat)
      ensures m <= |allocations| && forall i :: 0 <= i < m ==> allocations[i].addr + ALLOC_HDR != p
      ensures m < |allocations| ==> allocations[m].addr + ALLOC_HDR == p
    {
      m := 0;
      while m < |allocations| && allocations[m].addr + ALLOC_HDR != p
        invariant m <= |allocations| && forall i :: 0 <= i < m ==> allocations[i].addr + ALLOC_HDR != p
      {
        m := m + 1;
      }
    }

    method FreeListed(m: nat, ghost k: nat)
      requires Valid() && m < |allocations| && k < |chunks| && chunks[k] == allocations[m].parent
      modifies this`allocations, this`guardPages, this`tss, this`counts, chunks[k]
      ensures Valid()
      ensures allocations == old(allocations)[..m] + old(allocations)[m + 1..]
      ensures guardPages == old(guardPages) - (if guarded then {GuardPage(old(allocations)[m])} else {})
      ensures |old(tss)| == |tss| == |chunks| && tss == old(tss)[k := tss[k]]
      ensures old(allocations)[m].gapSize <= old(allocations)[m].addr
      ensures DropsLive(old(tss)[k], tss[k], old(allocations)[m].Tile())
    {
      var a := allocations[m];
      ghost var live, guards := allocations, guardPages;
      ReadyToFree(m, k);
      GuardsWithout(m);
      allocations := allocations[..m] + allocations[m + 1..];
      guardPages := guardPages - (if guarded then {GuardPage(a)} else {});
      FreeInChunk(a, k);
      Settle(live, guards, m, k);
    }

    /** The books once allocation `m` of `live` has gone from its chunk, the list and the guard pages. */
    ghost method Settle(live: seq<Allocation>, guards: set<int>, m: nat, k: nat)
      requires ChunksOk(chunks, supply) && Books(chunks, tss, counts, live, guards) && Distinct(chunks)
      requires |tss| == |counts| == |chunks| && k < |chunks| && (forall c :: c in chunks ==> c in Repr)
      requires m < |live| && counts[k] > 0 && live[m].parent == chunks[k] && live[m].gapSize <= live[m].addr
      requires allocations == live[..m] + live[m + 1..] && guardPages == GuardsOf(allocations, guarded)
      requires DropsLive(tss[k], chunks[k].tiles, live[m].Tile())
      requires Mirrors(chunks, tss[k := chunks[k].tiles], counts[k := counts[k] - 1])
      modifies this`tss, this`counts
      ensures Valid() && tss == old(tss)[k := chunks[k].tiles]
    {
      Unbooked(chunks, tss, counts, live, guards, k, chunks[k].tiles, m, guardPages);
      tss, counts := tss[k := chunks[k].tiles], counts[k := counts[k] - 1];
    }

    method FreeInChunk(a: Allocation, ghost k: nat)
      requires ChunksOk(chunks, supply) && Mirrors(chunks, tss, counts) && Distinct(chunks) && k < |chunks|
      requires a.parent == chunks[k] && a.gapSize <= a.addr && a.Tile() in chunks[k].tiles && counts[k] > 0
      modifies a.parent
      ensures ChunksOk(chunks, supply)
      ensures Mirrors(chunks, tss[k := chunks[k].tiles], counts[k := counts[k] - 1])
      ensures DropsLive(tss[k], chunks[k].tiles, a.Tile())
    {
      a.parent.Free(a);
    }

    lemma ReadyToFree(m: nat, k: nat)
      requires Valid() && m < |allocations| && k < |chunks| && chunks[k] == allocations[m].parent
      ensures Distinct(chunks) && |counts| == |tss| == |chunks| && counts[k] > 0
      ensures allocations[m].gapSize <= allocations[m].addr && allocations[m].Tile() in chunks[k].tiles
    {
      var j, t := Home(m);
      ChunksDistinct(chunks, supply);
      assert j == k;
      assert ChunkOk(chunks[k]);
      assert counts[k] > 0 by { FreeOfAround(tss[k], t); }
    }

    // ----- the heap's own validators -----

    /** Heap::checkBlocks. */
    method CheckBlocks() returns (e: Verdict)
      ensures e.Ok? <==> forall k :: 0 <= k < |chunks| ==> BlocksPass(chunks[k].blocks, chunks[k].base + chunkSize)
      ensures Valid() ==> e.Ok?
    {
      var k := 0;
      while k < |chunks|
        invariant k <= |chunks|
        invariant forall i :: 0 <= i < k ==> BlocksPass(chunks[i].blocks, chunks[i].base + chunkSize)
      {
        e := CheckChunkBlocks(chunks[k].blocks, chunks[k].base + chunkSize);
        if !e.Ok? {
          if Valid() {
            ValidPasses(k);
          }
          return;
        }
        k := k + 1;
      }
      e := Ok;
    }

    lemma ValidPasses(k: nat)
      requires Valid() && k < |chunks|
      ensures BlocksPass(chunks[k].blocks, chunks[k].base + chunkSize)
    {
      assert ChunkOk(chunks[k]);
      BlocksWithin(chunks[k].tiles, chunks[k].lo, chunks[k].hi);
      BlocksSortedApart(chunks[k].tiles, chunks[k].lo, chunks[k].hi);
    }

    /** Heap::allocIsWithinHeap: the first chunk whose range holds the header address. */
    method FindChunk(addr: nat) returns (k: nat)
      ensures k <= |chunks|
      ensures k < |chunks| ==> InChunk(addr, k)
      ensures forall i :: 0 <= i < k ==> !InChunk(addr, i)
    {
      k := 0;
      while k < |chunks| && (addr < chunks[k].base || addr >= chunks[k].base + chunkSize)
        invariant k <= |chunks|
        invariant forall i :: 0 <= i < k ==> !InChunk(addr, i)
      {
        k := k + 1;
      }
    }

    /** Heap::checkAllocations: every listed allocation's parent is the chunk its address falls
        in, and the list is as long as the chunks' counters say. */
    method CheckAllocations() returns (ok: bool)
      ensures ok <==> Sum(CountsOf(chunks)) == |allocations| && ParentsPass(allocations)
      ensures Valid() ==> ok
    {
      var total := CountAll();
      var m := 0;
      while m < |allocations|
        invariant m <= |allocations| && ParentsPass(allocations[..m])
      {
        var a := allocations[m];
        var detected := FindChunk(a.addr);
        if detected == |chunks| || a.parent != chunks[detected] {
          if Valid() { WithinOwnChunk(m, detected); }
          assert a in allocations && !ParentPasses(a);
          return false;
        }
        assert ParentPasses(a);
        assert allocations[..m + 1] == allocations[..m] + [a];
        m := m + 1;
      }
      assert allocations[..m] == allocations;
      if Valid() { assert CountsOf(chunks) == counts; }
      ok := m == total;
    }

    /** The chunks' counters, added up. */
    method CountAll() returns (total: nat)
      ensures total == Sum(CountsOf(chunks))
    {
      total := 0;
      var k := 0;
      ghost var ns := CountsOf(chunks);
      while k < |chunks|
        invariant k <= |chunks| && total == Sum(ns[..k])
      {
        assert ns[..k + 1] == ns[..k] + [ns[k]];
        SumAppend(ns[..k], ns[k]);
        total := total + chunks[k].nAllocations;
        k := k + 1;
      }
      assert ns[..k] == ns;
    }

    ghost predicate InChunk(addr: nat, k: nat)
      requires k < |chunks|
      reads this
    {
      chunks[k].base <= addr < chunks[k].base + chunkSize
    }

    /** The parent of `a` is the first chunk whose range holds its header. */
    ghost predicate ParentPasses(a: Allocation)
      reads this
    {
      exists k :: 0 <= k < |chunks| && chunks[k] == a.parent && InChunk(a.addr, k)
                  && forall i :: 0 <= i < k ==> !InChunk(a.addr, i)
    }

    ghost predicate ParentsPass(live: seq<Allocation>)
      reads this
    {
      forall a :: a in live ==> ParentPasses(a)
    }

    lemma WithinOwnChunk(m: nat, k: nat)
      requires Valid() && m < |allocations| && k <= |chunks|
      requires k < |chunks| ==> InChunk(allocations[m].addr, k)
      requires forall i :: 0 <= i < k ==> !InChunk(allocations[m].addr, i)
      ensures k < |chunks| && chunks[k] == allocations[m].parent
    {
      var j, t := Home(m);
      ChainBounds(tss[j], t, chunks[j].lo, chunks[j].hi);
      assert InChunk(allocations[m].addr, j);
      var bs := Bases(chunks) + supply;
      assert bs[j] == chunks[j].base && (k < |chunks| ==> bs[k] == chunks[k].base);
    }

    /** A chunk with no allocations left is again one block spanning its arena. */
    lemma EmptyChunkIsWhole(k: nat)
      requires Valid() && k < |chunks| && chunks[k].nAllocations == 0
      ensures chunks[k].blocks == [Block(chunks[k].lo, chunks[k].hi - chunks[k].lo)]
    {
      assert ChunkOk(chunks[k]);
      AllFreeIsOneBlock(chunks[k].tiles, chunks[k].lo, chunks[k].hi);
    }

    /** Bytes are conserved in every chunk. */
    lemma ArenaConserved(k: nat)
      requires Valid() && k < |chunks|
      ensures |tss| == |chunks| && BlockBytes(chunks[k].blocks) + LiveBytes(tss[k]) == chunks[k].hi - chunks[k].lo
    {
      assert ChunkOk(chunks[k]);
      ChainBytes(chunks[k].tiles, chunks[k].lo, chunks[k].hi);
    }

    /** A served request makes the heap's live bytes grow by what it needs, and hardly more. */
    lemma ServedTakes(before: seq<seq<Tile>>, after: seq<seq<Tile>>, cs: seq<Chunk>, sz: nat, a: Allocation)
      requires ServedFrom(before, after, cs, sz, a) && forall c :: c in cs ==> c.guarded == guarded
      ensures Need(guarded, sz) <= TotalLive(after) - TotalLive(before) <= Need(guarded, sz) + BLOCK_HDR
    {
      var k := FirstChunk(before, Need(guarded, sz));
      assert cs[k] in cs;
      if k < |before| {
        TotalLiveUpdate(before, k, after[k]);
        CarvedBounds(before[k], after[k], Need(guarded, sz), BLOCK_HDR);
      } else {
        assert after[..k] == before;
        FirstTake(cs[k].lo, FreshBytes(), after[k], Need(guarded, sz));
      }
    }

    /** The same of a chunk that was all free. */
    lemma FirstTake(lo: nat, len: nat, after: seq<Tile>, need: nat)
      requires Carved([Tile.Free(lo, len)], after, need, BLOCK_HDR)
      ensures need <= LiveBytes(after) <= need + BLOCK_HDR
    {
      var one := [Tile.Free(lo, len)];
      assert one[1..] == [];
      CarvedBounds(one, after, need, BLOCK_HDR);
    }

    /** Request `req` was served at `p` by `a`, in front of the guard page. */
    ghost predicate Served(before: seq<seq<Tile>>, after: seq<seq<Tile>>, cs: seq<Chunk>, req: nat, p: nat, a: Allocation) {
      && p == a.addr + ALLOC_HDR && a.nBytes == SizeFor(req, guarded)
      && p + req <= (if guarded then GuardPage(a) else a.End())
      && ServedFrom(before, after, cs, SizeFor(req, guarded), a)
    }

    /** `a` came from the first chunk with room for `sz` bytes or, failing that, from the front of
        a new one; every other chunk's tiling is as it was. */
    ghost predicate ServedFrom(before: seq<seq<Tile>>, after: seq<seq<Tile>>, cs: seq<Chunk>, sz: nat, a: Allocation) {
      var k := FirstChunk(before, Need(guarded, sz));
      && k < |after| && k < |cs|
      && if k < |before|
         then |after| == |before| && after == before[k := after[k]] && TookFrom(cs[k], before[k], after[k], sz, a)
         else |after| == k + 1 && before <= after && FreshBytes() >= 0
              && TookFrom(cs[k], [Tile.Free(cs[k].lo, FreshBytes())], after[k], sz, a)
    }
  }

  /** Where the guard page of a well-formed allocation lies. */
  lemma GuardPageOf(a: Allocation)
    requires a.gapSize <= a.addr && TileOk(a.Tile(), true)
    ensures GuardPage(a) % PAGE == 0 && a.addr + ALLOC_HDR <= GuardPage(a) && GuardPage(a) + PAGE == a.End()
    ensures (a.addr - a.gapSize) % PAGE == 0 && a.End() % PAGE == 0
    ensures forall req: nat :: a.nBytes == SizeFor(req, true) ==> a.addr + ALLOC_HDR + req <= GuardPage(a)
  {
    PagesAdd(a.Tile().lo, a.Tile().len);
  }

  lemma FirstBlockShift(base: nat, chunkHdr: nat, guarded: bool)
    requires base % PAGE == 0
    ensures FirstBlock(base, chunkHdr, guarded) == base + FirstBlock(0, chunkHdr, guarded)
  {
  }

  /** Chunk `c`, tiled by `before`, handed out `a` for a request of `sz` bytes, first fit. */
  ghost predicate TookFrom(c: Chunk, before: seq<Tile>, after: seq<Tile>, sz: nat, a: Allocation) {
    var i := FirstFit(FreeOf(before), Need(c.guarded, sz));
    && i < |FreeOf(before)|
    && a.parent == c && a.gapSize <= a.addr
    && Taken(c, FreeOf(before), i, sz, a, FreeOf(after))
    && AddsLive(before, after, a.Tile())
    && Carved(before, after, Need(c.guarded, sz), BLOCK_HDR) && AtLowEnd(before, c.guarded, sz, a)
  }

  ghost function Bases(cs: seq<Chunk>): seq<nat> {
    seq(|cs|, i requires 0 <= i < |cs| => cs[i].base)
  }

  ghost function CountsOf(cs: seq<Chunk>): seq<nat>
    reads cs
  {
    seq(|cs|, i requires 0 <= i < |cs| reads cs => cs[i].nAllocations)
  }

  ghost function GuardsOf(live: seq<Allocation>, guarded: bool): set<int> {
    if guarded then set a | a in live :: GuardPage(a) else {}
  }

  datatype Op = DoMalloc(req: nat) | DoFree(p: nat)

  method Step(h: Heap, op: Op)
    requires h.Valid()
    modifies h, h.Repr
    ensures h.Valid() && fresh(h.Repr - old(h.Repr)) && old(h.Repr) <= h.Repr
  {
    match op {
      case DoMalloc(req) => var _ := h.Malloc(req);
      case DoFree(p) => var _ := h.Free(p);
    }
  }

  method Audit(h: Heap) returns (passed: bool)
    requires h.Valid()
    ensures passed
  {
    var blocks := h.CheckBlocks();
    var allocs := h.CheckAllocations();
    passed := blocks.Ok? && allocs;
  }

  /** Any sequence of requests, from any reachable heap: both validators pass after each one. */
  method Run(h: Heap, ops: seq<Op>) returns (passed: bool)
    requires h.Valid()
    modifies h, h.Repr
    ensures h.Valid() && fresh(h.Repr - old(h.Repr)) && passed
  {
    passed := true;
    for i := 0 to |ops|
      invariant h.Valid() && fresh(h.Repr - old(h.Repr)) && passed
    {
      Step(h, ops[i]);
      var ok := Audit(h);
      passed := passed && ok;
    }
  }
}
