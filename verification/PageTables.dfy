/** The two-level page tables of 32-bit paging (section 4.3 of the Intel SDM, volume 3A) and
    the range walkers over them.  Every walker is specified by its effect on the flat map from
    page number to page-table entry. */
module PageTables {

  const NENTRIES: nat := 1024
  const PAGES: nat := 0x10_0000
  const FRAMES: nat := 0x10_0000

  type Frame = f: nat | f < FRAMES

  /** A 32-bit word split at bit 12, where every operation of the walkers splits it: a page
      frame number above, twelve flag bits below. */
  datatype Word = Word(hi: Frame, lo: bv12)

  const ZERO: Word := Word(0, 0)

  // Architectural entry bits.
  const L_PRESENT: bv12 := 0x001
  const L_WRITE: bv12 := 0x002
  const L_USER: bv12 := 0x004
  const L_WRITE_THROUGH: bv12 := 0x008
  const L_CACHE_DISABLED: bv12 := 0x010
  const L_GLOBAL: bv12 := 0x100

  // Kernel page attributes.
  const A_WRITE: bv16 := 0x0002
  const A_SUPERVISOR: bv16 := 0x0004
  const A_PRESENT: bv16 := 0x0010
  const A_GLOBAL: bv16 := 0x0080
  const A_CACHE_DISABLED: bv16 := 0x0100
  const A_WRITE_THROUGH: bv16 := 0x0200

  /** walkerPageRanger::encodeFlags. */
  function EncodeFlags(flags: bv16): bv12 {
    (if flags & A_WRITE != 0 then L_WRITE else 0)
    | (if flags & A_SUPERVISOR == 0 then L_USER else 0)
    | (if flags & A_PRESENT != 0 then L_PRESENT else 0)
    | (if flags & A_GLOBAL != 0 then L_GLOBAL else 0)
    | (if flags & A_WRITE_THROUGH != 0 then L_WRITE_THROUGH else 0)
    | (if flags & A_CACHE_DISABLED != 0 then L_CACHE_DISABLED else 0)
  }

  /** walkerPageRanger::decodeFlags. */
  function DecodeFlags(bits: bv12): bv16 {
    (if bits & L_WRITE != 0 then A_WRITE else 0)
    | (if bits & L_USER == 0 then A_SUPERVISOR else 0)
    | (if bits & L_PRESENT != 0 then A_PRESENT else 0)
    | (if bits & L_GLOBAL != 0 then A_GLOBAL else 0)
    | (if bits & L_WRITE_THROUGH != 0 then A_WRITE_THROUGH else 0)
    | (if bits & L_CACHE_DISABLED != 0 then A_CACHE_DISABLED else 0)
  }

  /** The attributes the hardware entry can hold. */
  const A_KNOWN: bv16 := 0x0396

  /** Each attribute has its own entry bit, and decoding gives back every attribute the entry can hold. */
  lemma FlagsRoundTrip(flags: bv16)
    ensures var bits := EncodeFlags(flags);
            && (bits & 0x001 != 0 <==> flags & A_PRESENT != 0)
            && (bits & 0x002 != 0 <==> flags & A_WRITE != 0)
            && (bits & 0x004 == 0 <==> flags & A_SUPERVISOR != 0)
            && (bits & 0x008 != 0 <==> flags & A_WRITE_THROUGH != 0)
            && (bits & 0x010 != 0 <==> flags & A_CACHE_DISABLED != 0)
            && (bits & 0x100 != 0 <==> flags & A_GLOBAL != 0)
            && bits & 0xEE0 == 0
    ensures DecodeFlags(EncodeFlags(flags)) == flags & A_KNOWN
  {
    var bits := EncodeFlags(flags);
    assert (bits & L_WRITE != 0) == (flags & A_WRITE != 0);
    assert (bits & L_USER == 0) == (flags & A_SUPERVISOR != 0);
    assert (bits & L_PRESENT != 0) == (flags & A_PRESENT != 0);
    assert (bits & L_GLOBAL != 0) == (flags & A_GLOBAL != 0);
    assert (bits & L_WRITE_THROUGH != 0) == (flags & A_WRITE_THROUGH != 0);
    assert (bits & L_CACHE_DISABLED != 0) == (flags & A_CACHE_DISABLED != 0);
  }

  // ----- what an entry means -----

  datatype Status = Backed | Swapped | FakeStatic | FakeDynamic | GuardPage | HeapGuardPage | Unmapped

  /** The status lookup reports for a non-present entry, from the low bits of its frame field. */
  function StatusOf(e: Word): Status {
    if e == ZERO then Unmapped
    else if e.lo & L_PRESENT != 0 then Backed
    else match e.hi % 8
      case 1 => Swapped
      case 2 => GuardPage
      case 3 => HeapGuardPage
      case 4 => FakeStatic
      case 5 => FakeDynamic
      case _ => Unmapped
  }

  datatype Lookup = Found(status: Status, frame: Frame, flags: bv16) | NotMapped

  /** walkerPageRanger::lookup on an entry. */
  function LookupEntry(e: Word): Lookup {
    if e == ZERO then NotMapped else Found(StatusOf(e), e.hi, DecodeFlags(e.lo))
  }

  /** getLevelRanges: directory and table indices of the first and last page of a range. */
  function LevelRanges(v: nat, n: nat): (r: (nat, nat, nat, nat))
    requires 0 < n && v + n <= PAGES
    ensures r.0 <= r.1 < NENTRIES && r.2 < NENTRIES && r.3 < NENTRIES
    ensures r.0 * NENTRIES + r.2 == v && r.1 * NENTRIES + r.3 == v + n - 1
  {
    var last := v + (n - 1);
    (v / NENTRIES, last / NENTRIES, v % NENTRIES, last % NENTRIES)
  }

  /** paddr += PAGING_BASE_SIZE; the 32-bit address wraps. */
  function Next(p: Word): Word {
    Word(if p.hi + 1 == FRAMES then 0 else p.hi + 1, p.lo)
  }

  /** paddr after `i` such steps. */
  function Advance(p: Word, i: nat): Word {
    if i == 0 then p else Next(Advance(p, i - 1))
  }

  /** The address `i` pages into a range that has consecutive frames, or one frame. */
  function At(p: Word, inc: bool, i: nat): Word {
    if inc then Advance(p, i) else p
  }

  lemma {:induction false} AdvanceWraps(p: Word, i: nat)
    ensures Advance(p, i) == Word((p.hi + i) % FRAMES, p.lo)
  {
    if i > 0 {
      AdvanceWraps(p, i - 1);
    }
  }

  lemma {:induction false} AdvanceAdd(p: Word, i: nat, j: nat)
    ensures Advance(Advance(p, i), j) == Advance(p, i + j)
  {
    if j > 0 {
      AdvanceAdd(p, i, j - 1);
    }
  }

  /** A request to map the `n` pages from `v` on to `p`, and to its successors if `inc`. */
  datatype Mapping = Mapping(v: nat, n: nat, p: Word, arch: bv12, inc: bool)

  class AddressSpace {
    /** The page directory. */
    const l0: array<Word>
    /** Physical memory, by frame: the frames that are or can become page tables. */
    const tables: map<Frame, array<Word>>
    /** The frames pageTablePop will hand out. */
    var pool: seq<Frame>

    ghost const arrays: set<array<Word>>

    ghost predicate Shape() {
      && l0.Length == NENTRIES && l0 !in arrays
      && (forall f :: f in tables ==> tables[f].Length == NENTRIES && tables[f] in arrays)
      && (forall f, g :: f in tables && g in tables && f != g ==> tables[f] != tables[g])
    }

    /** Directory entries name distinct tables, none of which is still in the pool. */
    ghost predicate Valid()
      reads this, l0
    {
      && Shape()
      && (forall i :: 0 <= i < NENTRIES && l0[i] != ZERO ==> l0[i].hi in tables)
      && (forall i, j :: 0 <= i < j < NENTRIES && l0[i] != ZERO && l0[j] != ZERO ==> l0[i].hi != l0[j].hi)
      && (forall k :: 0 <= k < |pool| ==> pool[k] in tables)
      && (forall k, i :: 0 <= k < |pool| && 0 <= i < NENTRIES && l0[i] != ZERO ==> pool[k] != l0[i].hi)
      && (forall j, k :: 0 <= j < k < |pool| ==> pool[j] != pool[k])
    }

    /** An address space with an empty directory over the given frames. */
    constructor (l0: array<Word>, tables: map<Frame, array<Word>>, pool: seq<Frame>)
      requires l0.Length == NENTRIES && forall i :: 0 <= i < NENTRIES ==> l0[i] == ZERO
      requires forall f :: f in tables ==> tables[f].Length == NENTRIES && tables[f] != l0
      requires forall f, g :: f in tables && g in tables && f != g ==> tables[f] != tables[g]
      requires (forall k :: 0 <= k < |pool| ==> pool[k] in tables)
               && forall j, k :: 0 <= j < k < |pool| ==> pool[j] != pool[k]
      ensures Valid() && this.l0 == l0 && this.tables == tables && this.pool == pool
      ensures forall u :: 0 <= u < PAGES ==> Entry(u) == ZERO
    {
      this.l0 := l0;
      this.tables := tables;
      this.pool := pool;
      arrays := set f | f in tables :: tables[f];
    }

    /** The flat map: the entry that governs page `u`. */
    ghost function Entry(u: nat): Word
      requires Valid() && u < PAGES
      reads this, l0, arrays
    {
      var d := l0[u / NENTRIES];
      if d == ZERO then ZERO else tables[d.hi][u % NENTRIES]
    }

    /** The whole flat map, as a value. */
    ghost function Flat(): (m: seq<Word>)
      requires Valid()
      reads this, l0, arrays
      ensures |m| == PAGES && forall u :: 0 <= u < PAGES ==> m[u] == Entry(u)
    {
      seq(PAGES, u requires Valid() && 0 <= u < PAGES reads this, l0, arrays => Entry(u))
    }

    /** The flat map is `before`, except perhaps at page `u`. */
    ghost predicate Same(before: seq<Word>, u: int)
      requires |before| == PAGES
      reads this, l0, arrays
    {
      Valid() && forall w :: 0 <= w < PAGES && w != u ==> Entry(w) == before[w]
    }

    /** walkerPageRanger::lookup. */
    method Lookup(u: nat) returns (r: Lookup)
      requires Valid() && u < PAGES
      ensures r == LookupEntry(Entry(u))
    {
      var d := l0[u / NENTRIES];
      if d == ZERO {
        return NotMapped;
      }
      var e := tables[d.hi][u % NENTRIES];
      if e == ZERO {
        return NotMapped;
      }
      return Found(StatusOf(e), e.hi, DecodeFlags(e.lo));
    }

    /** Selecting the table of directory slot `d`, creating and zeroing it if there is none. */
    method SelectTable(d: nat) returns (ok: bool)
      requires Valid() && d < NENTRIES
      modifies this`pool, l0, arrays
      ensures Valid() && ok == (old(l0[d]) != ZERO || old(pool) != [])
      ensures ok ==> l0[d] != ZERO
      ensures forall u :: 0 <= u < PAGES ==> Entry(u) == old(Entry(u))
      ensures old(l0[d]) != ZERO || !ok ==> pool == old(pool)
      ensures old(l0[d]) == ZERO && ok ==> pool == old(pool)[1..] && l0[d] == Word(old(pool)[0], 0x003)
      ensures forall i :: 0 <= i < NENTRIES && (i != d || old(l0[i]) != ZERO) ==> l0[i] == old(l0[i])
    {
      if l0[d] != ZERO {
        return true;
      }
      if pool == [] {
        return false;
      }
      var f := pool[0];
      var t := tables[f];
      pool := pool[1..];
      l0[d] := Word(f, L_PRESENT | L_WRITE);
      var i := 0;
      while i < NENTRIES
        invariant i <= NENTRIES && forall k :: 0 <= k < i ==> t[k] == ZERO
        modifies t
      {
        t[i] := ZERO;
        i := i + 1;
      }
      return true;
    }

    /** The inner loop of the map walkers: entries `from` to `to` of directory slot `d`. */
    method MapRow(d: nat, from: nat, to: nat, p: Word, arch: bv12, inc: bool) returns (next: Word)
      requires Valid() && d < NENTRIES && from <= to < NENTRIES && l0[d] != ZERO
      modifies arrays
      ensures Valid()
      ensures next == At(p, inc, to - from + 1)
      ensures forall u :: 0 <= u < PAGES ==>
        Entry(u) == if d * NENTRIES + from <= u <= d * NENTRIES + to
                    then Mapped(p, arch, inc, u - (d * NENTRIES + from)) else old(Entry(u))
    {
      next := FillTable(tables[l0[d].hi], from, to, p, arch, inc);
      forall u | 0 <= u < PAGES {
        InRow(u, d, from, to);
      }
    }

    /** The common walk of mapInc and mapNoInc.  The flat map changes on exactly the pages it
        reports; it stops short only at a directory slot with no table and none to be had. */
    method MapRange(v: nat, n: nat, p: Word, arch: bv12, inc: bool) returns (r: nat)
      requires Valid() && v + n <= PAGES
      modifies this`pool, l0, arrays
      ensures Valid() && r <= n
      ensures forall u :: 0 <= u < PAGES ==>
        Entry(u) == if v <= u < v + r then Mapped(p, arch, inc, u - v) else old(Entry(u))
      ensures r < n ==> pool == [] && old(l0[(v + r) / NENTRIES]) == ZERO
      ensures n > 0 ==> (r == n <==>
        Missing(old(l0[..]), v / NENTRIES, (v + n - 1) / NENTRIES + 1) <= |old(pool)|)
      ensures forall d :: 0 <= d < NENTRIES && old(l0[d]) != ZERO ==> l0[d] == old(l0[d])
    {
      if n == 0 {
        return 0;
      }
      r := MapSome(Mapping(v, n, p, arch, inc));
    }

    /** The directory loop of the map walkers. */
    method MapSome(j: Mapping) returns (r: nat)
      requires Valid() && j.v + j.n <= PAGES && j.n > 0
      modifies this`pool, l0, arrays
      ensures Valid() && r <= j.n && MappedUpTo(old(Flat()), j.v, j.v + r, j.p, j.arch, j.inc)
      ensures r < j.n ==> pool == [] && old(l0[(j.v + r) / NENTRIES]) == ZERO
      ensures r == j.n <==> Missing(old(l0[..]), j.v / NENTRIES, (j.v + j.n - 1) / NENTRIES + 1) <= |old(pool)|
      ensures forall d :: 0 <= d < NENTRIES && old(l0[d]) != ZERO ==> l0[d] == old(l0[d])
    {
      ghost var before, dir, had := Flat(), l0[..], |pool|;
      var ok;
      ghost var d, paddr;
      ok, r, d, paddr := MapWalk(before, dir, had, j);
      if ok {
        WalkedAll(before, dir, had, j, d, r, paddr);
      }
    }

    method MapWalk(ghost before: seq<Word>, ghost dir: seq<Word>, ghost had: nat, j: Mapping)
      returns (ok: bool, r: nat, ghost end: nat, ghost last: Word)
      requires |before| == PAGES && |dir| == NENTRIES && j.n > 0 && j.v + j.n <= PAGES
      requires Underway(before, dir, had, j, j.v / NENTRIES, 0, j.p)
      modifies this`pool, l0, arrays
      ensures ok ==> Underway(before, dir, had, j, end, r, last) && end > (j.v + j.n - 1) / NENTRIES
      ensures !ok ==> FellShort(before, dir, had, j, r)
    {
      var levels := LevelRanges(j.v, j.n);
      var paddr := j.p;
      var d := levels.0;
      ok, r, end, last := true, 0, 0, j.p;
      while d <= levels.1
        invariant ok && Underway(before, dir, had, j, d, r, paddr)
      {
        var count;
        ok, count, paddr := MapTabled(before, dir, had, j, r, d, levels, paddr);
        if !ok {
          return;
        }
        r := r + count;
        d := d + 1;
      }
      end, last := d, paddr;
    }

    /** The walk over range `j` stopped `r` pages on, at a slot without a table, and none was left. */
    ghost predicate FellShort(before: seq<Word>, dir: seq<Word>, had: nat, j: Mapping, r: nat)
      requires |before| == PAGES && |dir| == NENTRIES && j.n > 0 && j.v + j.n <= PAGES
      reads this, l0, arrays
    {
      && Valid() && pool == [] && r < j.n && dir[(j.v + r) / NENTRIES] == ZERO
      && MappedUpTo(before, j.v, j.v + r, j.p, j.arch, j.inc)
      && Missing(dir, j.v / NENTRIES, (j.v + j.n - 1) / NENTRIES + 1) > had
      && forall i :: 0 <= i < NENTRIES && dir[i] != ZERO ==> l0[i] == dir[i]
    }

    lemma WalkedAll(before: seq<Word>, dir: seq<Word>, had: nat, j: Mapping, d: nat, r: nat, paddr: Word)
      requires |before| == PAGES && |dir| == NENTRIES && j.n > 0 && j.v + j.n <= PAGES
      requires Underway(before, dir, had, j, d, r, paddr) && d > (j.v + j.n - 1) / NENTRIES
      ensures r == j.n && Missing(dir, j.v / NENTRIES, (j.v + j.n - 1) / NENTRIES + 1) <= had
      ensures forall i :: 0 <= i < NENTRIES && dir[i] != ZERO ==> l0[i] == dir[i]
    {
      assert forall i :: 0 <= i < NENTRIES ==> l0[..][i] == l0[i];
    }

    /** The walk over range `j` stands at directory slot `d`, `r` pages on; `before`, `dir` and `had` are how it began. */
    ghost predicate Underway(before: seq<Word>, dir: seq<Word>, had: nat, j: Mapping, d: nat, r: nat, paddr: Word)
      requires |before| == PAGES && |dir| == NENTRIES && j.n > 0 && j.v + j.n <= PAGES
      reads this, l0, arrays
    {
      && Valid() && j.v / NENTRIES <= d <= (j.v + j.n - 1) / NENTRIES + 1
      && r == Reached(j.v, j.n, d) - j.v && paddr == At(j.p, j.inc, r)
      && MappedUpTo(before, j.v, j.v + r, j.p, j.arch, j.inc)
      && TablesAdded(dir, j.v / NENTRIES, d, l0[..], had, |pool|)
    }

    /** One round of the directory loop, with the tables it takes from the pool. */
    method MapTabled(ghost before: seq<Word>, ghost dir: seq<Word>, ghost had: nat, j: Mapping, ghost r: nat, d: nat,
                     levels: (nat, nat, nat, nat), paddr: Word)
      returns (ok: bool, count: nat, next: Word)
      requires |before| == PAGES && |dir| == NENTRIES && j.n > 0 && j.v + j.n <= PAGES
      requires levels == LevelRanges(j.v, j.n) && d <= levels.1 && Underway(before, dir, had, j, d, r, paddr)
      modifies this`pool, l0, arrays
      ensures ok ==> Underway(before, dir, had, j, d + 1, r + count, next)
      ensures !ok ==> FellShort(before, dir, had, j, r)
    {
      ghost var now, left := l0[..], |pool|;
      ok, count, next := MapPart(before, j, r, d, levels, paddr);
      TableAdded(dir, levels.0, d, levels.1 + 1, now, had, left, l0[..], |pool|, ok);
    }

    /** The part of the range that directory slot `d` covers. */
    method MapPart(ghost before: seq<Word>, j: Mapping, ghost r: nat, d: nat, levels: (nat, nat, nat, nat), paddr: Word)
      returns (ok: bool, count: nat, next: Word)
      requires Valid() && |before| == PAGES && j.n > 0 && j.v + j.n <= PAGES
      requires levels == LevelRanges(j.v, j.n) && levels.0 <= d <= levels.1 && r == Reached(j.v, j.n, d) - j.v
      requires paddr == At(j.p, j.inc, r) && MappedUpTo(before, j.v, j.v + r, j.p, j.arch, j.inc)
      modifies this`pool, l0, arrays
      ensures Valid() && ok == (old(l0[d]) != ZERO || old(pool) != []) && r + count == Reached(j.v, j.n, d + 1) - j.v
      ensures !ok ==> && pool == [] && (j.v + r) / NENTRIES == d && r < j.n
                      && MappedUpTo(before, j.v, j.v + r, j.p, j.arch, j.inc)
      ensures ok ==> MappedUpTo(before, j.v, j.v + r + count, j.p, j.arch, j.inc) && next == At(j.p, j.inc, r + count)
      ensures |pool| == |old(pool)| - (if ok && old(l0[d]) == ZERO then 1 else 0)
      ensures forall i :: 0 <= i < NENTRIES && (i != d || old(l0[i]) != ZERO) ==> l0[i] == old(l0[i])
    {
      var from := if d == levels.0 then levels.2 else 0;
      var to := if d == levels.1 then levels.3 else NENTRIES - 1;
      ReachedStep(j.v, j.n, d);
      count := to - from + 1;
      ok, next := MapSlot(before, j, r, d, from, to, paddr);
    }

    /** The flat map is `before` with the pages from `v` up to `w` mapped. */
    ghost predicate MappedUpTo(before: seq<Word>, v: nat, w: nat, p: Word, arch: bv12, inc: bool)
      requires Valid() && |before| == PAGES
      reads this, l0, arrays
    {
      forall u :: 0 <= u < PAGES ==> Entry(u) == if v <= u < w then Mapped(p, arch, inc, u - v) else before[u]
    }

    /** The body of the directory loop, `r` pages into the range. */
    method MapSlot(ghost before: seq<Word>, j: Mapping, ghost r: nat, d: nat, from: nat, to: nat, paddr: Word)
      returns (ok: bool, next: Word)
      requires Valid() && d < NENTRIES && from <= to < NENTRIES && |before| == PAGES
      requires d * NENTRIES + from == j.v + r && paddr == At(j.p, j.inc, r)
      requires MappedUpTo(before, j.v, j.v + r, j.p, j.arch, j.inc)
      modifies this`pool, l0, arrays
      ensures Valid() && ok == (old(l0[d]) != ZERO || old(pool) != [])
      ensures !ok ==> pool == [] && MappedUpTo(before, j.v, j.v + r, j.p, j.arch, j.inc)
      ensures ok ==> MappedUpTo(before, j.v, j.v + r + (to - from + 1), j.p, j.arch, j.inc)
      ensures ok ==> next == At(j.p, j.inc, r + (to - from + 1))
      ensures |pool| == |old(pool)| - (if ok && old(l0[d]) == ZERO then 1 else 0)
      ensures forall i :: 0 <= i < NENTRIES && (i != d || old(l0[i]) != ZERO) ==> l0[i] == old(l0[i])
    {
      ok, next := MapStep(d, from, to, paddr, j.arch, j.inc);
      MappedShift(j.p, paddr, j.arch, j.inc, r, to - from + 1);
    }

    /** One directory slot of the map walk. */
    method MapStep(d: nat, from: nat, to: nat, p: Word, arch: bv12, inc: bool) returns (ok: bool, next: Word)
      requires Valid() && d < NENTRIES && from <= to < NENTRIES
      modifies this`pool, l0, arrays
      ensures Valid() && ok == (old(l0[d]) != ZERO || old(pool) != [])
      ensures !ok ==> pool == [] && next == p && forall u :: 0 <= u < PAGES ==> Entry(u) == old(Entry(u))
      ensures ok ==> next == At(p, inc, to - from + 1)
      ensures ok ==> forall u :: 0 <= u < PAGES ==>
        Entry(u) == if d * NENTRIES + from <= u <= d * NENTRIES + to
                    then Mapped(p, arch, inc, u - (d * NENTRIES + from)) else old(Entry(u))
      ensures |pool| == |old(pool)| - (if ok && old(l0[d]) == ZERO then 1 else 0)
      ensures forall i :: 0 <= i < NENTRIES && (i != d || old(l0[i]) != ZERO) ==> l0[i] == old(l0[i])
    {
      next := p;
      ok := SelectTable(d);
      if ok {
        next := MapRow(d, from, to, p, arch, inc);
      }
    }

    /** walkerPageRanger::mapInc: page v + i of the range gets the i-th consecutive frame. */
    method MapInc(v: nat, p: Word, n: nat, flags: bv16) returns (r: nat)
      requires Valid() && v + n <= PAGES
      modifies this`pool, l0, arrays
      ensures Valid() && r <= n
      ensures forall u :: 0 <= u < PAGES ==>
        Entry(u) == if v <= u < v + r then Word((p.hi + (u - v)) % FRAMES, p.lo | EncodeFlags(flags)) else old(Entry(u))
      ensures r < n ==> pool == [] && old(l0[(v + r) / NENTRIES]) == ZERO
      ensures n > 0 ==> (r == n <==>
        Missing(old(l0[..]), v / NENTRIES, (v + n - 1) / NENTRIES + 1) <= |old(pool)|)
      ensures forall d :: 0 <= d < NENTRIES && old(l0[d]) != ZERO ==> l0[d] == old(l0[d])
    {
      r := MapRange(v, n, p, EncodeFlags(flags), true);
      forall u | 0 <= u < PAGES && v <= u < v + r
        ensures Entry(u) == Word((p.hi + (u - v)) % FRAMES, p.lo | EncodeFlags(flags))
      {
        AdvanceWraps(p, u - v);
      }
    }

    /** walkerPageRanger::mapNoInc: every page of the range gets the same frame. */
    method MapNoInc(v: nat, p: Word, n: nat, flags: bv16) returns (r: nat)
      requires Valid() && v + n <= PAGES
      modifies this`pool, l0, arrays
      ensures Valid() && r <= n
      ensures forall u :: 0 <= u < PAGES ==>
        Entry(u) == if v <= u < v + r then Word(p.hi, p.lo | EncodeFlags(flags)) else old(Entry(u))
      ensures r < n ==> pool == [] && old(l0[(v + r) / NENTRIES]) == ZERO
      ensures n > 0 ==> (r == n <==>
        Missing(old(l0[..]), v / NENTRIES, (v + n - 1) / NENTRIES + 1) <= |old(pool)|)
    {
      r := MapRange(v, n, p, EncodeFlags(flags), false);
    }

    /** The inner loop of unmap on one directory slot that has a table. */
    method UnmapRow(d: nat, from: nat, to: nat) returns (first: Word)
      requires Valid() && d < NENTRIES && from <= to < NENTRIES && l0[d] != ZERO
      modifies arrays
      ensures Valid() && first == old(Entry(d * NENTRIES + from))
      ensures forall u :: 0 <= u < PAGES ==>
        Entry(u) == if d * NENTRIES + from <= u <= d * NENTRIES + to then ZERO else old(Entry(u))
    {
      var t := tables[l0[d].hi];
      InRow(d * NENTRIES + from, d, from, to);
      first := t[from];
      ClearTable(t, from, to);
      forall u | 0 <= u < PAGES {
        InRow(u, d, from, to);
      }
    }

    /** walkerPageRanger::unmap: clears the range and reports on its first page. */
    method Unmap(v: nat, n: nat) returns (r: Lookup)
      requires Valid() && v + n <= PAGES
      modifies arrays
      ensures Valid()
      ensures forall u :: 0 <= u < PAGES ==> Entry(u) == if v <= u < v + n then ZERO else old(Entry(u))
      ensures r == if n == 0 then NotMapped else UnmapReport(old(Entry(v)))
    {
      r := NotMapped;
      if n == 0 {
        return;
      }
      ghost var before := Flat();
      var (l0Start, l0End, l1Start, l1End) := LevelRanges(v, n);
      var d := l0Start;
      while d <= l0End
        invariant l0Start <= d <= l0End + 1 && Valid()
        invariant forall u :: 0 <= u < PAGES ==> Entry(u) == if v <= u < Reached(v, n, d) then ZERO else before[u]
        invariant r == if d == l0Start then NotMapped else UnmapReport(before[v])
      {
        ReachedStep(v, n, d);
        var from := if d == l0Start then l1Start else 0;
        var to := if d == l0End then l1End else NENTRIES - 1;
        if l0[d] == ZERO {
          forall u | 0 <= u < PAGES {
            InRow(u, d, from, to);
          }
        } else {
          var first := UnmapRow(d, from, to);
          if d == l0Start {
            r := UnmapReport(first);
          }
        }
        d := d + 1;
      }
    }

    /** The inner loop of the remap walkers. */
    method RemapRow(d: nat, from: nat, to: nat, p: Word, op: nat, arch: bv12, inc: bool) returns (next: Word)
      requires Valid() && d < NENTRIES && from <= to < NENTRIES && l0[d] != ZERO
      modifies arrays
      ensures Valid()
      ensures next == At(p, inc, to - from + 1)
      ensures forall u :: 0 <= u < PAGES ==>
        Entry(u) == if d * NENTRIES + from <= u <= d * NENTRIES + to
                    then Remapped(old(Entry(u)), p, op, arch, inc, u - (d * NENTRIES + from)) else old(Entry(u))
    {
      next := RewriteTable(tables[l0[d].hi], from, to, p, op, arch, inc);
      forall u | 0 <= u < PAGES {
        InRow(u, d, from, to);
      }
    }

    /** The common walk of remapInc and remapNoInc, over pages whose tables exist. */
    method RemapRange(v: nat, n: nat, p: Word, op: nat, arch: bv12, inc: bool)
      requires Valid() && v + n <= PAGES
      requires n > 0 ==> forall d :: v / NENTRIES <= d <= (v + n - 1) / NENTRIES ==> l0[d] != ZERO
      modifies arrays
      ensures Valid()
      ensures forall u :: 0 <= u < PAGES ==>
        Entry(u) == if v <= u < v + n then Remapped(old(Entry(u)), p, op, arch, inc, u - v) else old(Entry(u))
    {
      if n == 0 {
        return;
      }
      ghost var before := Flat();
      var (l0Start, l0End, l1Start, l1End) := LevelRanges(v, n);
      var paddr := p;
      var d := l0Start;
      ghost var r := 0;
      while d <= l0End
        invariant l0Start <= d <= l0End + 1 && Valid()
        invariant r == Reached(v, n, d) - v && paddr == At(p, inc, r)
        invariant forall u :: 0 <= u < PAGES ==>
          Entry(u) == if v <= u < v + r then Remapped(before[u], p, op, arch, inc, u - v) else before[u]
      {
        ReachedStep(v, n, d);
        var from := if d == l0Start then l1Start else 0;
        var to := if d == l0End then l1End else NENTRIES - 1;
        ghost var q, m := paddr, to - from + 1;
        paddr := RemapRow(d, from, to, paddr, op, arch, inc);
        RemappedShift(p, q, op, arch, inc, r, m);
        r := r + m;
        d := d + 1;
      }
    }

    /** walkerPageRanger::remapInc: new consecutive frames, flag bits changed only by `op`. */
    method RemapInc(v: nat, p: Word, n: nat, op: nat, flags: bv16)
      requires Valid() && v + n <= PAGES
      requires n > 0 ==> forall d :: v / NENTRIES <= d <= (v + n - 1) / NENTRIES ==> l0[d] != ZERO
      modifies arrays
      ensures Valid()
      ensures forall u :: 0 <= u < PAGES ==>
        Entry(u) == if v <= u < v + n
                    then Word((p.hi + (u - v)) % FRAMES, ChangeBits(old(Entry(u)).lo, op, EncodeFlags(flags)) | p.lo)
                    else old(Entry(u))
      ensures op == 4 ==> forall u {:trigger Entry(u)} :: v <= u < v + n ==> LooksBacked(Entry(u), (p.hi + (u - v)) % FRAMES)
    {
      RemapRange(v, n, p, op, EncodeFlags(flags), true);
      forall u | 0 <= u < PAGES && v <= u < v + n
        ensures Entry(u) == Word((p.hi + (u - v)) % FRAMES, ChangeBits(old(Entry(u)).lo, op, EncodeFlags(flags)) | p.lo)
      {
        AdvanceWraps(p, u - v);
      }
      if op == 4 {
        forall u {:trigger Entry(u)} | v <= u < v + n
          ensures LooksBacked(Entry(u), (p.hi + (u - v)) % FRAMES)
        {
          MadePresent((p.hi + (u - v)) % FRAMES, old(Entry(u)).lo, p.lo, EncodeFlags(flags));
        }
      }
    }

    /** walkerPageRanger::remapNoInc. */
    method RemapNoInc(v: nat, p: Word, n: nat, op: nat, flags: bv16)
      requires Valid() && v + n <= PAGES
      requires n > 0 ==> forall d :: v / NENTRIES <= d <= (v + n - 1) / NENTRIES ==> l0[d] != ZERO
      modifies arrays
      ensures Valid()
      ensures forall u :: 0 <= u < PAGES ==>
        Entry(u) == if v <= u < v + n
                    then Word(p.hi, ChangeBits(old(Entry(u)).lo, op, EncodeFlags(flags)) | p.lo)
                    else old(Entry(u))
      ensures op == 4 ==> forall u {:trigger Entry(u)} :: v <= u < v + n ==> LooksBacked(Entry(u), p.hi)
    {
      RemapRange(v, n, p, op, EncodeFlags(flags), false);
      forall u | 0 <= u < PAGES && v <= u < v + n
        ensures Entry(u) == Word(p.hi, ChangeBits(old(Entry(u)).lo, op, EncodeFlags(flags)) | p.lo)
      {
      }
      if op == 4 {
        forall u {:trigger Entry(u)} | v <= u < v + n
          ensures LooksBacked(Entry(u), p.hi)
        {
          MadePresent(p.hi, old(Entry(u)).lo, p.lo, EncodeFlags(flags));
        }
      }
    }

    /** Mapping a range and unmapping it again: the range ends up unmapped, everything else is
        as it was, and the report is on the first page as mapInc set it up. */
    method MapThenUnmap(v: nat, p: Word, n: nat, flags: bv16) returns (r: nat, report: Lookup)
      requires Valid() && v + n <= PAGES && n > 0 && p.lo == 0
      modifies this`pool, l0, arrays
      ensures Valid() && r <= n
      ensures forall u :: 0 <= u < PAGES ==> Entry(u) == if v <= u < v + r then ZERO else old(Entry(u))
      ensures r > 0 ==> report == UnmapReport(Word(p.hi, EncodeFlags(flags)))
      ensures r > 0 && flags & A_PRESENT != 0 ==> report == Found(Backed, p.hi, flags & A_KNOWN)
    {
      r := MapInc(v, p, n, flags);
      report := Unmap(v, r);
      NoLowBits(p, EncodeFlags(flags));
      if flags & A_PRESENT != 0 {
        PresentLookup(p.hi, flags);
      }
    }

    /** remapInc on a single page, as the guard page functions call it. */
    method RemapOne(u: nat, hi: Frame, op: nat, flags: bv16)
      requires Valid() && u < PAGES && l0[u / NENTRIES] != ZERO
      modifies arrays
      ensures Valid()
      ensures Entry(u) == Word(hi, ChangeBits(old(Entry(u)).lo, op, EncodeFlags(flags)) | 0)
      ensures forall w :: 0 <= w < PAGES && w != u ==> Entry(w) == old(Entry(w))
    {
      RemapInc(u, Word(hi, 0), 1, op, flags);
    }

    /** Heap::setGuardPage: the page's frame is given back, and the page is marked as a heap
        guard page.  `ok` is false where the source panics. */
    method SetGuardPage(u: nat) returns (ok: bool, released: seq<Frame>)
      requires Valid() && u < PAGES && l0[u / NENTRIES] != ZERO
      modifies arrays
      ensures Valid() && ok
      ensures released == if StatusOf(old(Entry(u))) == Backed then [old(Entry(u)).hi] else []
      ensures Entry(u) == Word(3, old(Entry(u)).lo & !(L_PRESENT | L_USER))
      ensures forall w :: 0 <= w < PAGES && w != u ==> Entry(w) == old(Entry(w))
    {
      released := BackingFrame(u);
      ghost var bits := Entry(u).lo;
      RemapOne(u, 3, 2, A_PRESENT);
      GuardEntry(bits);
      ok := CheckGuardPage(u);
    }

    method BackingFrame(u: nat) returns (frames: seq<Frame>)
      requires Valid() && u < PAGES
      ensures frames == if StatusOf(Entry(u)) == Backed then [Entry(u).hi] else []
    {
      var l := Lookup(u);
      frames := if l.Found? && l.status == Backed then [l.frame] else [];
    }

    method CheckGuardPage(u: nat) returns (ok: bool)
      requires Valid() && u < PAGES
      ensures ok <==> LooksGuarded(Entry(u))
    {
      var l := Lookup(u);
      ok := l.Found? && l.status == HeapGuardPage && l.flags & A_PRESENT == 0;
    }

    /** Heap::unsetGuardPage: the page becomes fake mapped again.  `ok` is false where the
        source panics, which is exactly when the page had its present bit set. */
    method UnsetGuardPage(u: nat) returns (ok: bool)
      requires Valid() && u < PAGES && l0[u / NENTRIES] != ZERO
      modifies arrays
      ensures Valid()
      ensures ok <==> old(Entry(u)).lo & L_PRESENT == 0
      ensures Entry(u) == Word(5, old(Entry(u)).lo)
      ensures forall w :: 0 <= w < PAGES && w != u ==> Entry(w) == old(Entry(w))
    {
      RemapOne(u, 5, 0, 0);
      assert Entry(u).lo == old(Entry(u)).lo;
      var l := Lookup(u);
      ok := l.Found? && l.status == FakeDynamic;
    }

    /** Protecting a page and unprotecting it: neither panic fires, and no other page changes. */
    method GuardRoundTrip(u: nat) returns (ok: bool)
      requires Valid() && u < PAGES && l0[u / NENTRIES] != ZERO
      modifies arrays
      ensures Valid() && ok && StatusOf(Entry(u)) == FakeDynamic
      ensures forall w :: 0 <= w < PAGES && w != u ==> Entry(w) == old(Entry(w))
    {
      var protected, released := SetGuardPage(u);
      GuardBits(old(Entry(u)).lo);
      ok := UnsetGuardPage(u);
    }
  }

  lemma NoLowBits(p: Word, bits: bv12)
    requires p.lo == 0
    ensures p.lo | bits == bits
  {
  }

  /** Looking up a page mapped present gives back the frame and the attributes asked for. */
  lemma PresentLookup(f: Frame, flags: bv16)
    requires flags & A_PRESENT != 0
    ensures LookupEntry(Word(f, EncodeFlags(flags))) == Found(Backed, f, flags & A_KNOWN)
    ensures UnmapReport(Word(f, EncodeFlags(flags))) == Found(Backed, f, flags & A_KNOWN)
  {
    FlagsRoundTrip(flags);
    assert EncodeFlags(flags) & L_PRESENT != 0;
  }

  /** "Clear only the present bit" clears the user bit as well: the attributes passed lack
      SUPERVISOR, and a missing SUPERVISOR encodes as USER. */
  lemma GuardBits(bits: bv12)
    ensures EncodeFlags(A_PRESENT) == L_PRESENT | L_USER
    ensures ChangeBits(bits, 2, EncodeFlags(A_PRESENT)) | 0 == bits & !(L_PRESENT | L_USER)
    ensures (bits & !(L_PRESENT | L_USER)) & L_PRESENT == 0
    ensures ChangeBits(bits, 2, EncodeFlags(A_PRESENT)) == ChangeBits(bits, 5, 0) <==> bits & L_USER == 0
  {
  }

  /** The check setGuardPage makes on its own work. */
  predicate LooksGuarded(e: Word) {
    var l := LookupEntry(e);
    l.Found? && l.status == HeapGuardPage && l.flags & A_PRESENT == 0
  }

  /** Status and attributes of a heap guard page never disagree. */
  lemma StatusFlags(e: Word)
    ensures StatusOf(e) == HeapGuardPage <==> LooksGuarded(e)
  {
  }

  /** The entry of a protected page, and what lookup says about it. */
  lemma GuardEntry(bits: bv12)
    ensures Word(3, ChangeBits(bits, 2, EncodeFlags(A_PRESENT)) | 0) == Word(3, bits & !(L_PRESENT | L_USER))
    ensures LooksGuarded(Word(3, bits & !(L_PRESENT | L_USER)))
  {
    GuardBits(bits);
  }

  /** The report unmap gives on its first page.  Unlike lookup it has no case for heap guard pages. */
  function UnmapReport(e: Word): Lookup {
    if e == ZERO then NotMapped
    else
      var status := if e.lo & L_PRESENT != 0 then Backed
                    else match e.hi % 8
                         case 1 => Swapped
                         case 2 => GuardPage
                         case 4 => FakeStatic
                         case 5 => FakeDynamic
                         case _ => Unmapped;
      Found(status, e.hi, DecodeFlags(e.lo))
  }

  /** unmap's report is what lookup would have said, except that it misreports heap guard pages. */
  lemma UnmapReportAgrees(e: Word)
    ensures UnmapReport(e) == LookupEntry(e) <==> StatusOf(e) != HeapGuardPage
  {
  }

  /** The flag bits a remap leaves, before the frame is or-ed in. */
  function ChangeBits(bits: bv12, op: nat, arch: bv12): bv12 {
    match op
    case 1 => bits | arch
    case 2 => bits & !arch
    case 4 => bits | L_PRESENT
    case 5 => bits & !L_PRESENT
    case 6 => bits | L_WRITE
    case 7 => bits & !L_WRITE
    case _ => bits
  }

  /** Every bit of `mask` is on in `r`, every other bit is as in `bits`. */
  predicate TurnsOn(r: bv12, bits: bv12, mask: bv12) {
    r & mask == mask && r & !mask == bits & !mask
  }

  /** Every bit of `mask` is off in `r`, every other bit is as in `bits`. */
  predicate TurnsOff(r: bv12, bits: bv12, mask: bv12) {
    r & mask == 0 && r & !mask == bits & !mask
  }

  lemma OrTurnsOn(bits: bv12, mask: bv12)
    ensures TurnsOn(bits | mask, bits, mask)
  {
  }

  lemma AndTurnsOff(bits: bv12, mask: bv12)
    ensures TurnsOff(bits & !mask, bits, mask)
  {
  }

  /** Operations 1 and 2 set and clear exactly the attributes given. */
  lemma AttributeBits(bits: bv12, arch: bv12)
    ensures TurnsOn(ChangeBits(bits, 1, arch), bits, arch)
    ensures TurnsOff(ChangeBits(bits, 2, arch), bits, arch)
  {
    OrTurnsOn(bits, arch);
    AndTurnsOff(bits, arch);
  }

  /** Operations 4 and 5 set and clear the present bit, and keep the other eleven. */
  lemma PresentBits(bits: bv12, arch: bv12)
    ensures TurnsOn(ChangeBits(bits, 4, arch), bits, 0x001)
    ensures TurnsOff(ChangeBits(bits, 5, arch), bits, 0x001)
  {
    OrTurnsOn(bits, 0x001);
    AndTurnsOff(bits, 0x001);
  }

  /** Operations 6 and 7 set and clear the write bit, and keep the other eleven. */
  lemma WriteBits(bits: bv12, arch: bv12)
    ensures TurnsOn(ChangeBits(bits, 6, arch), bits, 0x002)
    ensures TurnsOff(ChangeBits(bits, 7, arch), bits, 0x002)
  {
    OrTurnsOn(bits, 0x002);
    AndTurnsOff(bits, 0x002);
  }

  /** Any other operation keeps all twelve bits. */
  lemma OtherBits(bits: bv12, op: nat, arch: bv12)
    ensures op !in {1, 2, 4, 5, 6, 7} ==> ChangeBits(bits, op, arch) == bits
  {
  }

  predicate LooksBacked(e: Word, f: nat) {
    var l := LookupEntry(e);
    l.Found? && l.status == Backed && l.frame == f && l.flags & A_PRESENT != 0
  }

  /** An entry made present looks up as backed by its frame. */
  lemma MadePresent(f: Frame, bits: bv12, low: bv12, arch: bv12)
    ensures LooksBacked(Word(f, ChangeBits(bits, 4, arch) | low), f)
  {
    OrTurnsOn(bits, 0x001);
    PresentStays(bits | 0x001, low);
  }

  lemma PresentStays(bits: bv12, low: bv12)
    requires bits & 0x001 == 0x001
    ensures (bits | low) & L_PRESENT != 0 && DecodeFlags(bits | low) & A_PRESENT != 0
  {
  }

  /** What the three status bits of a page that is not present mean, to lookup and to unmap's report. */
  lemma StatusCodes(e: Word)
    requires e != ZERO && e.lo & 0x001 == 0
    ensures e.hi % 8 == 1 ==> StatusOf(e) == Swapped && UnmapReport(e).status == Swapped
    ensures e.hi % 8 == 2 ==> StatusOf(e) == GuardPage && UnmapReport(e).status == GuardPage
    ensures e.hi % 8 == 3 ==> StatusOf(e) == HeapGuardPage && UnmapReport(e).status == Unmapped
    ensures e.hi % 8 == 4 ==> StatusOf(e) == FakeStatic && UnmapReport(e).status == FakeStatic
    ensures e.hi % 8 == 5 ==> StatusOf(e) == FakeDynamic && UnmapReport(e).status == FakeDynamic
    ensures e.hi % 8 in {0, 6, 7} ==> StatusOf(e) == Unmapped && UnmapReport(e).status == Unmapped
  {
  }

  /** The entry a remap writes over `e` for the `i`-th page of its range. */
  function Remapped(e: Word, p: Word, op: nat, arch: bv12, inc: bool, i: nat): Word {
    var q := At(p, inc, i);
    Word(q.hi, ChangeBits(e.lo, op, arch) | q.lo)
  }

  lemma RemappedShift(p: Word, q: Word, op: nat, arch: bv12, inc: bool, r: nat, m: nat)
    requires q == At(p, inc, r)
    ensures forall e: Word, i :: 0 <= i < m ==> Remapped(e, q, op, arch, inc, i) == Remapped(e, p, op, arch, inc, r + i)
    ensures inc ==> Advance(q, m) == Advance(p, r + m)
  {
    forall i | 0 <= i <= m {
      AdvanceAdd(p, r, i);
    }
  }

  method ClearTable(t: array<Word>, from: nat, to: nat)
    requires from <= to < t.Length
    modifies t
    ensures forall k :: 0 <= k < t.Length ==> t[k] == if from <= k <= to then ZERO else old(t[k])
  {
    var i := from;
    while i <= to
      invariant from <= i <= to + 1
      invariant forall k :: 0 <= k < t.Length ==> t[k] == if from <= k < i then ZERO else old(t[k])
    {
      t[i] := ZERO;
      i := i + 1;
    }
  }

  method RewriteTable(t: array<Word>, from: nat, to: nat, p: Word, op: nat, arch: bv12, inc: bool) returns (next: Word)
    requires from <= to < t.Length
    modifies t
    ensures next == At(p, inc, to - from + 1)
    ensures forall k :: 0 <= k < t.Length ==>
      t[k] == if from <= k <= to then Remapped(old(t[k]), p, op, arch, inc, k - from) else old(t[k])
  {
    next := p;
    var i := from;
    while i <= to
      invariant from <= i <= to + 1
      invariant next == At(p, inc, i - from)
      invariant forall k :: from <= k < i ==> t[k] == Remapped(old(t[k]), p, op, arch, inc, k - from)
      invariant forall k :: 0 <= k < t.Length && !(from <= k < i) ==> t[k] == old(t[k])
    {
      var bits := ChangeBits(t[i].lo, op, arch);
      t[i] := Word(next.hi, bits | next.lo);
      if inc {
        next := Next(next);
      }
      i := i + 1;
    }
  }

  /** The first page not yet visited when the walk over [v, v + n) stands at directory slot `d`. */
  function Reached(v: nat, n: nat, d: nat): nat
    requires n > 0
  {
    if d <= v / NENTRIES then v
    else if d <= (v + n - 1) / NENTRIES then d * NENTRIES
    else v + n
  }

  lemma ReachedStep(v: nat, n: nat, d: nat)
    requires n > 0 && v / NENTRIES <= d <= (v + n - 1) / NENTRIES
    ensures Reached(v, n, d) / NENTRIES == d && v <= Reached(v, n, d)
    ensures Reached(v, n, d) == d * NENTRIES + (if d == v / NENTRIES then v % NENTRIES else 0)
    ensures Reached(v, n, d + 1)
            == d * NENTRIES + (if d == (v + n - 1) / NENTRIES then (v + n - 1) % NENTRIES else NENTRIES - 1) + 1
  {
  }

  /** Continuing a mapping `r` pages on is the same as having started it there. */
  lemma MappedShift(p: Word, q: Word, arch: bv12, inc: bool, r: nat, m: nat)
    requires q == At(p, inc, r)
    ensures forall i :: 0 <= i < m ==> Mapped(q, arch, inc, i) == Mapped(p, arch, inc, r + i)
    ensures inc ==> Advance(q, m) == Advance(p, r + m)
  {
    forall i | 0 <= i <= m {
      AdvanceAdd(p, r, i);
    }
  }

  /** Directory slots without a table among [a, b). */
  ghost function Missing(dir: seq<Word>, a: nat, b: nat): nat
    requires b <= |dir|
    decreases b
  {
    if a >= b then 0 else Missing(dir, a, b - 1) + (if dir[b - 1] == ZERO then 1 else 0)
  }

  lemma {:induction false} MissingStep(dir: seq<Word>, a: nat, d: nat, b: nat)
    requires a <= d < b <= |dir|
    ensures Missing(dir, a, d + 1) == Missing(dir, a, d) + (if dir[d] == ZERO then 1 else 0)
    ensures Missing(dir, a, d + 1) <= Missing(dir, a, b)
    decreases b - d
  {
    if d + 1 < b {
      MissingStep(dir, a, d + 1, b);
    }
  }

  /** The directory and the pool once slots `a` up to `d` have been given the tables they lacked. */
  ghost predicate TablesAdded(dir: seq<Word>, a: nat, d: nat, now: seq<Word>, had: nat, left: nat)
    requires |dir| == |now| && d <= |dir|
  {
    && (forall i :: 0 <= i < |dir| && (!(a <= i < d) || dir[i] != ZERO) ==> now[i] == dir[i])
    && left == had - Missing(dir, a, d)
  }

  /** Slot `d` is served, or it and the pool show why the walk cannot reach slot `b`. */
  lemma TableAdded(dir: seq<Word>, a: nat, d: nat, b: nat, now: seq<Word>, had: nat, left: nat,
                   after: seq<Word>, rest: nat, ok: bool)
    requires |dir| == |now| == |after| && a <= d < b <= |dir| && TablesAdded(dir, a, d, now, had, left)
    requires ok == (now[d] != ZERO || left > 0) && rest == left - if ok && now[d] == ZERO then 1 else 0
    requires forall i :: 0 <= i < |dir| && (i != d || now[i] != ZERO) ==> after[i] == now[i]
    ensures forall i :: 0 <= i < |dir| && dir[i] != ZERO ==> after[i] == dir[i]
    ensures ok ==> TablesAdded(dir, a, d + 1, after, had, rest)
    ensures !ok ==> dir[d] == ZERO && Missing(dir, a, b) > had
  {
    MissingStep(dir, a, d, b);
  }

  /** Which pages a stretch of one page table governs. */
  lemma InRow(u: nat, d: nat, from: nat, to: nat)
    requires from <= to < NENTRIES
    ensures d * NENTRIES + from <= u <= d * NENTRIES + to <==> u / NENTRIES == d && from <= u % NENTRIES <= to
    ensures u / NENTRIES == d ==> u - (d * NENTRIES + from) == u % NENTRIES - from
  {
  }

  method FillTable(t: array<Word>, from: nat, to: nat, p: Word, arch: bv12, inc: bool) returns (next: Word)
    requires from <= to < t.Length
    modifies t
    ensures next == At(p, inc, to - from + 1)
    ensures forall k :: 0 <= k < t.Length ==>
      t[k] == if from <= k <= to then Mapped(p, arch, inc, k - from) else old(t[k])
  {
    next := p;
    var i := from;
    while i <= to
      invariant from <= i <= to + 1
      invariant next == At(p, inc, i - from)
      invariant forall k :: from <= k < i ==> t[k] == Mapped(p, arch, inc, k - from)
      invariant forall k :: 0 <= k < t.Length && !(from <= k < i) ==> t[k] == old(t[k])
    {
      t[i] := Word(next.hi, next.lo | arch);
      if inc {
        next := Next(next);
      }
      i := i + 1;
    }
  }

  /** The entry mapInc (or mapNoInc) writes for the `i`-th page of its range. */
  function Mapped(p: Word, arch: bv12, inc: bool, i: nat): Word {
    var q := At(p, inc, i);
    Word(q.hi, q.lo | arch)
  }
}
