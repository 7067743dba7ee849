/** Control blocks in memory: what it means for one to be measured, marshalled, delivered and moved. */
module Delivery {
  import opened Layout
  import opened Wrappers

  /** One address space; an address is an index and 0 is NULL. */
  type Memory = m: seq<Byte> | |m| < 0x1_0000_0000

  const CB: nat := 20
  const MOVABLE_HDR: nat := 8

  /** The little-endian value of the `n` bytes at `p`, below the bytes already in `high`. */
  function Decode(m: seq<Byte>, p: nat, n: nat, high: nat): nat
    requires p + n <= |m|
  {
    if n == 0 then high else Decode(m, p, n - 1, high * 256 + m[p + n - 1] as nat)
  }

  /** The pointer stored at `p`; addresses outside the memory read as NULL. */
  function Load(m: seq<Byte>, p: int): nat {
    if 0 <= p && p + WORD <= |m| then Decode(m, p, WORD, 0) else 0
  }

  lemma {:induction false} DecodeAgree(m: seq<Byte>, m2: seq<Byte>, p: nat, n: nat, high: nat)
    requires |m| == |m2| && p + n <= |m| && forall i {:trigger m2[i]} :: p <= i < p + n ==> m2[i] == m[i]
    ensures Decode(m, p, n, high) == Decode(m2, p, n, high)
    decreases n
  {
    if n > 0 {
      DecodeAgree(m, m2, p, n - 1, high * 256 + m[p + n - 1] as nat);
    }
  }

  /** A pointer in memory is four bytes, the low byte first. */
  lemma LoadBytes(m: seq<Byte>, p: nat)
    requires p + 4 <= |m|
    ensures Load(m, p) == m[p] as nat + 256 * (m[p + 1] as nat + 256 * (m[p + 2] as nat + 256 * m[p + 3] as nat))
  {
    var top := m[p + 3] as nat;
    var high := top * 256 + m[p + 2] as nat;
    var mid := high * 256 + m[p + 1] as nat;
    assert Decode(m, p, 4, 0) == Decode(m, p, 3, top) == Decode(m, p, 2, high);
    assert Decode(m, p, 2, high) == Decode(m, p, 1, mid) == Decode(m, p, 0, mid * 256 + m[p] as nat);
  }

  /** Four bytes of `v`, read back. */
  lemma DecodeWord(m: seq<Byte>, p: nat, v: nat)
    requires p + WORD <= |m| && v < 0x1_0000_0000
    requires m[p] as nat == v % 256 && m[p + 1] as nat == v / 256 % 256
    requires m[p + 2] as nat == v / 256 / 256 % 256 && m[p + 3] as nat == v / 256 / 256 / 256
    ensures Load(m, p) == v
  {
    var top, mid := v / 256 / 256 / 256, v / 256 / 256;
    assert Decode(m, p, 4, 0) == Decode(m, p, 3, top) == Decode(m, p, 2, top * 256 + m[p + 2] as nat);
    assert Decode(m, p, 2, mid) == Decode(m, p, 1, mid * 256 + m[p + 1] as nat) == Decode(m, p, 0, v / 256 * 256 + m[p] as nat);
  }

  ghost predicate Stored(m: Memory, m2: Memory, p: nat, v: nat) {
    && |m2| == |m| && p + WORD <= |m| && Load(m2, p) == v
    && forall i {:trigger m2[i]} :: 0 <= i < |m| && !(p <= i < p + WORD) ==> m2[i] == m[i]
  }

  /** The `n` bytes from `y` in `m2` are those from `x` in `m`. */
  ghost predicate Same(m: Memory, x: nat, m2: Memory, y: nat, n: nat) {
    x + n <= |m| && y + n <= |m2| && forall i {:trigger m2[i]} :: y <= i < y + n ==> m2[i] == m[x + (i - y)]
  }

  ghost predicate Copied(m: Memory, m2: Memory, dest: nat, src: nat, n: nat) {
    && |m2| == |m| && Same(m, src, m2, dest, n)
    && forall i {:trigger m2[i]} :: 0 <= i < |m| && !(dest <= i < dest + n) ==> m2[i] == m[i]
  }

  lemma {:induction false} DecodeSame(m: Memory, x: nat, m2: Memory, y: nat, n: nat, k: nat, c: nat, high: nat)
    requires Same(m, x, m2, y, n) && k + c <= n
    ensures Decode(m2, y + k, c, high) == Decode(m, x + k, c, high)
    decreases c
  {
    if c > 0 {
      assert m2[y + k + c - 1] == m[x + (y + k + c - 1 - y)];
      DecodeSame(m, x, m2, y, n, k, c - 1, high * 256 + m[x + k + c - 1] as nat);
    }
  }

  lemma LoadSame(m: Memory, x: nat, m2: Memory, y: nat, n: nat, k: nat)
    requires Same(m, x, m2, y, n) && k + WORD <= n
    ensures Load(m2, y + k) == Load(m, x + k)
  {
    DecodeSame(m, x, m2, y, n, k, WORD, 0);
  }

  ghost predicate Agree(m: Memory, m2: Memory, lo: int, hi: int) {
    |m| == |m2| && forall i {:trigger m2[i]} :: 0 <= i < |m| && !(lo <= i < hi) ==> m2[i] == m[i]
  }

  function Hdr(s: Slot): nat {
    if s.Inline? then 0 else MOVABLE_HDR
  }

  /** What the object behind pointer `p` takes up, header and all, or a negative error. */
  function ObjectSize(m: seq<Byte>, p: nat, s: Slot): int
    requires !s.Malformed?
  {
    match s
    case Inline(_, size) => size
    case Movable(_, size) => size + MOVABLE_HDR
    case Untyped(_) => if p == 0 then 0 else Load(m, p - WORD) + MOVABLE_HDR
  }

  /** A running total, or the error that ended it. */
  function Plus(n: nat, total: int): int {
    if total < 0 then total else n + total
  }

  /** The marshal space the objects of the control block at `cb8` need, or the first error. */
  ghost function Measure(m: Memory, cb8: nat, slots: seq<Slot>): int {
    if slots == [] then 0
    else if slots[0].Malformed? then ERROR_INVALID_FORMAT
    else
      var p := Load(m, cb8 + slots[0].off);
      var n := ObjectSize(m, p, slots[0]);
      if n < 0 then n else Plus(if p != 0 then n else 0, Measure(m, cb8, slots[1..]))
  }

  /** The slot's word and its object lie in memory, away from [lo, hi). */
  ghost predicate Clear(m: Memory, cb8: nat, s: Slot, lo: nat, hi: nat) {
    !s.Malformed? ==>
      var w := cb8 + s.off;
      var p := Load(m, w);
      && w + WORD <= |m| && (w + WORD <= lo || hi <= w)
      && (p != 0 ==>
            && Hdr(s) <= p && p <= p - Hdr(s) + ObjectSize(m, p, s) <= |m|
            && (p - Hdr(s) + ObjectSize(m, p, s) <= lo || hi <= p - Hdr(s)))
  }

  ghost predicate AllClear(m: Memory, cb8: nat, slots: seq<Slot>, lo: nat, hi: nat) {
    forall k :: 0 <= k < |slots| ==> Clear(m, cb8, slots[k], lo, hi)
  }

  lemma LoadAgree(m: Memory, m2: Memory, p: int, lo: nat, hi: nat)
    requires Agree(m, m2, lo, hi) && (p + WORD <= lo || hi <= p)
    ensures Load(m, p) == Load(m2, p)
  {
    if 0 <= p && p + WORD <= |m| {
      DecodeAgree(m, m2, p, WORD, 0);
    }
  }

  lemma ClearAgree(m: Memory, m2: Memory, cb8: nat, s: Slot, lo: nat, hi: nat)
    requires Agree(m, m2, lo, hi) && Clear(m, cb8, s, lo, hi) && !s.Malformed?
    ensures Load(m, cb8 + s.off) == Load(m2, cb8 + s.off)
    ensures ObjectSize(m, Load(m, cb8 + s.off), s) == ObjectSize(m2, Load(m, cb8 + s.off), s)
    ensures Clear(m2, cb8, s, lo, hi)
  {
    var p := Load(m, cb8 + s.off);
    LoadAgree(m, m2, cb8 + s.off, lo, hi);
    if s.Untyped? && p != 0 {
      LoadAgree(m, m2, p - WORD, lo, hi);
    }
  }

  lemma {:induction false} MeasureAgree(m: Memory, m2: Memory, cb8: nat, slots: seq<Slot>, lo: nat, hi: nat)
    requires Agree(m, m2, lo, hi) && AllClear(m, cb8, slots, lo, hi)
    ensures Measure(m, cb8, slots) == Measure(m2, cb8, slots)
    ensures AllClear(m2, cb8, slots, lo, hi)
  {
    if slots != [] {
      if !slots[0].Malformed? {
        ClearAgree(m, m2, cb8, slots[0], lo, hi);
      }
      MeasureAgree(m, m2, cb8, slots[1..], lo, hi);
      assert forall k :: 0 < k < |slots| ==> slots[k] == slots[1..][k - 1];
    }
  }

  /** One copy job: control blocks at `scb8` and `dcb8` with `vis` visible bytes, all writes within [lo, hi). */
  datatype Job = Job(scb8: nat, dcb8: nat, vis: nat, lo: nat, hi: nat)

  /** The marshal space one pointer takes: none when it is NULL. */
  ghost function Room(m: Memory, cb8: nat, s: Slot): int
    requires !s.Malformed?
  {
    var p := Load(m, cb8 + s.off);
    if p == 0 then 0 else ObjectSize(m, p, s)
  }

  ghost predicate InSlots(slots: seq<Slot>, x: int) {
    exists k :: 0 <= k < |slots| && !slots[k].Malformed? && slots[k].off <= x < slots[k].off + WORD
  }

  /** Only the objects' space and the pointers may differ. */
  ghost predicate OnlyWrites(m: Memory, m2: Memory, slots: seq<Slot>, dcb8: nat, dest: nat, end: nat) {
    |m| == |m2| && forall i {:trigger m2[i]} :: 0 <= i < |m| && !(dest <= i < end) && !InSlots(slots, i - dcb8) ==> m2[i] == m[i]
  }

  /** `q` in `m2` is the copy, placed at `at`, of what pointer `p` addresses in `m`. */
  ghost predicate CopyOf(m: Memory, p: nat, m2: Memory, q: nat, s: Slot, at: nat)
    requires !s.Malformed?
  {
    var n := ObjectSize(m, p, s);
    Hdr(s) <= n && Hdr(s) <= p && q == at + Hdr(s) && Same(m, p - Hdr(s), m2, at, n)
  }

  /** A NULL stays NULL; any other pointer addresses a copy, over [at, next), of the object it addressed. */
  ghost predicate Passed(m: Memory, scb8: nat, m2: Memory, dcb8: nat, s: Slot, at: nat, next: nat) {
    && !s.Malformed?
    && var p := Load(m, scb8 + s.off);
       var q := Load(m2, dcb8 + s.off);
       if p == 0 then q == 0 && next == at else CopyOf(m, p, m2, q, s, at) && next == at + ObjectSize(m, p, s)
  }

  ghost predicate PassedAt(m: Memory, scb8: nat, m2: Memory, dcb8: nat, slots: seq<Slot>, ats: seq<nat>, k: nat)
    requires k < |slots| && |ats| == |slots| + 1
  {
    Passed(m, scb8, m2, dcb8, slots[k], ats[k], ats[k + 1])
  }

  /** The control block at `dcb8` in `m2` is the one at `scb8` in `m`, its objects laid end to end at `ats`. */
  ghost predicate Delivered(m: Memory, scb8: nat, m2: Memory, dcb8: nat, slots: seq<Slot>, ats: seq<nat>) {
    && |ats| == |slots| + 1
    && forall k: nat {:trigger PassedAt(m, scb8, m2, dcb8, slots, ats, k)} :: k < |slots| ==> PassedAt(m, scb8, m2, dcb8, slots, ats, k)
  }

  lemma DeliveredAt(m: Memory, scb8: nat, m2: Memory, dcb8: nat, slots: seq<Slot>, ats: seq<nat>, k: nat)
    requires Delivered(m, scb8, m2, dcb8, slots, ats) && k < |slots|
    ensures Passed(m, scb8, m2, dcb8, slots[k], ats[k], ats[k + 1])
  {
    assert PassedAt(m, scb8, m2, dcb8, slots, ats, k);
  }

  lemma DeliveredIf(m: Memory, scb8: nat, m2: Memory, dcb8: nat, slots: seq<Slot>, ats: seq<nat>)
    requires |ats| == |slots| + 1
    requires forall k :: 0 <= k < |slots| ==> Passed(m, scb8, m2, dcb8, slots[k], ats[k], ats[k + 1])
    ensures Delivered(m, scb8, m2, dcb8, slots, ats)
  {
  }

  lemma {:induction false} DeliveredGrows(m: Memory, scb8: nat, m2: Memory, dcb8: nat, slots: seq<Slot>, ats: seq<nat>, i: nat, k: nat)
    requires Delivered(m, scb8, m2, dcb8, slots, ats) && i <= k <= |slots|
    ensures ats[i] <= ats[k]
    decreases k
  {
    if i < k {
      DeliveredGrows(m, scb8, m2, dcb8, slots, ats, i, k - 1);
      DeliveredAt(m, scb8, m2, dcb8, slots, ats, k - 1);
    }
  }

  lemma PassedStays(m: Memory, scb8: nat, m2: Memory, m3: Memory, dcb8: nat, s: Slot, at: nat, next: nat)
    requires Passed(m, scb8, m2, dcb8, s, at, next) && |m3| == |m2|
    requires forall i {:trigger m3[i]} :: 0 <= i < |m2| && dcb8 + s.off <= i < dcb8 + s.off + WORD ==> m3[i] == m2[i]
    requires forall i {:trigger m3[i]} :: 0 <= i < |m2| && at <= i < next ==> m3[i] == m2[i]
    ensures Passed(m, scb8, m3, dcb8, s, at, next)
  {
    var w := dcb8 + s.off;
    if w + WORD <= |m2| {
      DecodeAgree(m2, m3, w, WORD, 0);
    }
  }

  lemma MeasureStep(m: Memory, cb8: nat, slots: seq<Slot>, k: nat)
    requires k < |slots| && !slots[k].Malformed?
    ensures var p := Load(m, cb8 + slots[k].off);
            var n := ObjectSize(m, p, slots[k]);
            Measure(m, cb8, slots[k..]) == if n < 0 then n else Plus(if p != 0 then n else 0, Measure(m, cb8, slots[k + 1..]))
  {
    assert slots[k..][0] == slots[k] && slots[k..][1..] == slots[k + 1..];
  }

  /** Re-measuring a delivered control block, from any of its pointers on, gives the sender's number. */
  lemma {:induction false} RemeasuredFrom(m: Memory, scb8: nat, m2: Memory, dcb8: nat, slots: seq<Slot>, ats: seq<nat>, k: nat)
    requires Delivered(m, scb8, m2, dcb8, slots, ats) && k <= |slots| && 0 < ats[0] && Measure(m, scb8, slots[k..]) >= 0
    ensures Measure(m2, dcb8, slots[k..]) == Measure(m, scb8, slots[k..]) && ats[|slots|] == ats[k] + Measure(m, scb8, slots[k..])
    decreases |slots| - k
  {
    if k < |slots| {
      DeliveredGrows(m, scb8, m2, dcb8, slots, ats, 0, k);
      DeliveredAt(m, scb8, m2, dcb8, slots, ats, k);
      PassedRemeasured(m, scb8, m2, dcb8, slots[k], ats[k], ats[k + 1]);
      MeasureStep(m, scb8, slots, k);
      MeasureStep(m2, dcb8, slots, k);
      RemeasuredFrom(m, scb8, m2, dcb8, slots, ats, k + 1);
    }
  }

  lemma Remeasured(m: Memory, scb8: nat, m2: Memory, dcb8: nat, slots: seq<Slot>, ats: seq<nat>)
    requires Delivered(m, scb8, m2, dcb8, slots, ats) && 0 < ats[0] && Measure(m, scb8, slots) >= 0
    ensures Measure(m2, dcb8, slots) == Measure(m, scb8, slots) && ats[|slots|] == ats[0] + Measure(m, scb8, slots)
  {
    assert slots[0..] == slots;
    RemeasuredFrom(m, scb8, m2, dcb8, slots, ats, 0);
  }

  lemma PassedRemeasured(m: Memory, scb8: nat, m2: Memory, dcb8: nat, s: Slot, at: nat, next: nat)
    requires Passed(m, scb8, m2, dcb8, s, at, next) && 0 < at
    ensures var p, q := Load(m, scb8 + s.off), Load(m2, dcb8 + s.off);
            && ObjectSize(m2, q, s) == ObjectSize(m, p, s) && (p == 0 <==> q == 0)
            && next - at == if p == 0 then 0 else ObjectSize(m, p, s)
  {
    var p := Load(m, scb8 + s.off);
    if s.Untyped? && p != 0 {
      LoadSame(m, p - MOVABLE_HDR, m2, at, ObjectSize(m, p, s), WORD);
    }
  }

  /** What passing one object may write. */
  ghost predicate WritesOne(m: Memory, m2: Memory, s: Slot, dcb8: nat, dest: nat, next: nat)
    requires !s.Malformed?
  {
    |m2| == |m| && forall i {:trigger m2[i]} :: 0 <= i < |m| && !(dest <= i < next) && !(dcb8 + s.off <= i < dcb8 + s.off + WORD) ==> m2[i] == m[i]
  }

  lemma PassedByCopy(m: Memory, m1: Memory, m2: Memory, s: Slot, p: nat, dest: nat, j: Job)
    requires !s.Malformed? && p == Load(m, j.scb8 + s.off) != 0 && Hdr(s) <= p && Hdr(s) <= ObjectSize(m, p, s)
    requires Copied(m, m1, dest, p - Hdr(s), ObjectSize(m, p, s)) && j.dcb8 + s.off + WORD <= dest
    requires Stored(m1, m2, j.dcb8 + s.off, dest + Hdr(s))
    ensures Passed(m, j.scb8, m2, j.dcb8, s, dest, dest + ObjectSize(m, p, s))
    ensures WritesOne(m, m2, s, j.dcb8, dest, dest + ObjectSize(m, p, s))
  {
  }

  /** A marshalling walk: from memory `m`, `done` has been placed at `ats` and `todo` must end at `end`. */
  datatype Walk = Walk(m: Memory, slots: seq<Slot>, done: seq<Slot>, todo: seq<Slot>, a: nat, ats: seq<nat>, end: nat, j: Job)
  {
    ghost function Next(next: nat): Walk
      requires todo != [] && !todo[0].Malformed?
    {
      Walk(m, slots, done + [todo[0]], todo[1..], todo[0].off + WORD, ats + [next], end, j)
    }

    /** Where the next object goes. */
    ghost function Dest(): nat
      requires |ats| == |done| + 1
    {
      ats[|done|]
    }
  }

  /** Half way through: `done` is delivered, and `todo` still fits. */
  ghost predicate Progress(w: Walk, m1: Memory) {
    && w.slots == w.done + w.todo && |w.ats| == |w.done| + 1
    && Behind(w.m, m1, w.done, w.a, w.ats, w.j) && Ahead(w.m, w.todo, w.a, w.Dest(), w.end, w.j)
  }

  ghost predicate Behind(m: Memory, m1: Memory, done: seq<Slot>, a: nat, ats: seq<nat>, j: Job) {
    && Agree(m, m1, j.lo, j.hi) && Delivered(m, j.scb8, m1, j.dcb8, done, ats)
    && OnlyWrites(m, m1, done, j.dcb8, ats[0], ats[|done|]) && Below(done, a)
    && j.dcb8 + j.vis <= ats[0] <= ats[|done|]
  }

  ghost predicate Below(slots: seq<Slot>, a: nat) {
    forall k :: 0 <= k < |slots| ==> !slots[k].Malformed? && slots[k].off + WORD <= a
  }

  /** The rest of a walk: its pointers lie at `a` and above, and its objects fill [dest, end). */
  ghost predicate Ahead(m: Memory, todo: seq<Slot>, a: nat, dest: nat, end: nat, j: Job) {
    && Fit(todo, a, j.vis) && AllClear(m, j.scb8, todo, j.lo, j.hi)
    && 0 <= Measure(m, j.scb8, todo) == end - dest
    && j.lo <= j.dcb8 && 0 < dest && j.dcb8 + j.vis <= dest && end <= j.hi <= |m|
  }

  lemma AheadStep(m: Memory, todo: seq<Slot>, a: nat, dest: nat, end: nat, j: Job)
    requires Ahead(m, todo, a, dest, end, j) && todo != []
    ensures !todo[0].Malformed? && a <= todo[0].off && todo[0].off + WORD <= j.vis
    ensures Clear(m, j.scb8, todo[0], j.lo, j.hi) && ObjectSize(m, Load(m, j.scb8 + todo[0].off), todo[0]) >= 0
    ensures Room(m, j.scb8, todo[0]) >= 0
    ensures Ahead(m, todo[1..], todo[0].off + WORD, dest + Room(m, j.scb8, todo[0]), end, j)
  {
    assert forall k :: 0 <= k < |todo| - 1 ==> todo[1..][k] == todo[k + 1];
  }

  /** What is passed on depends on the source only where it is clear of the writes. */
  lemma PassedFrom(m: Memory, m1: Memory, scb8: nat, m2: Memory, dcb8: nat, s: Slot, at: nat, next: nat, lo: nat, hi: nat)
    requires Agree(m, m1, lo, hi) && Clear(m, scb8, s, lo, hi) && Passed(m1, scb8, m2, dcb8, s, at, next)
    ensures Passed(m, scb8, m2, dcb8, s, at, next) && next == at + Room(m, scb8, s)
  {
    ClearAgree(m, m1, scb8, s, lo, hi);
  }

  lemma OnlyWritesMore(m: Memory, m1: Memory, m2: Memory, done: seq<Slot>, s: Slot, dcb8: nat, dest0: nat, dest: nat, next: nat)
    requires OnlyWrites(m, m1, done, dcb8, dest0, dest) && !s.Malformed? && WritesOne(m1, m2, s, dcb8, dest, next)
    requires dest0 <= dest <= next
    ensures OnlyWrites(m, m2, done + [s], dcb8, dest0, next)
  {
    var more := done + [s];
    assert more[|done|] == s && forall k :: 0 <= k < |done| ==> more[k] == done[k];
  }

  lemma AgreeMore(m: Memory, m1: Memory, m2: Memory, s: Slot, dest: nat, next: nat, j: Job)
    requires Agree(m, m1, j.lo, j.hi) && !s.Malformed? && WritesOne(m1, m2, s, j.dcb8, dest, next)
    requires j.lo <= j.dcb8 && j.dcb8 + s.off + WORD <= dest <= next <= j.hi
    ensures Agree(m, m2, j.lo, j.hi)
  {
  }

  lemma DeliveredMore(m: Memory, m1: Memory, m2: Memory, done: seq<Slot>, s: Slot, a: nat, ats: seq<nat>, next: nat, j: Job)
    requires Delivered(m, j.scb8, m1, j.dcb8, done, ats) && !s.Malformed? && a <= s.off && s.off + WORD <= j.vis
    requires Below(done, a) && j.dcb8 + j.vis <= ats[0]
    requires WritesOne(m1, m2, s, j.dcb8, ats[|done|], next) && Passed(m, j.scb8, m2, j.dcb8, s, ats[|done|], next)
    ensures Delivered(m, j.scb8, m2, j.dcb8, done + [s], ats + [next])
  {
    forall k | 0 <= k < |done|
      ensures Passed(m, j.scb8, m2, j.dcb8, done[k], ats[k], ats[k + 1])
    {
      DeliveredAt(m, j.scb8, m1, j.dcb8, done, ats, k);
      DeliveredGrows(m, j.scb8, m1, j.dcb8, done, ats, 0, k);
      DeliveredGrows(m, j.scb8, m1, j.dcb8, done, ats, k + 1, |done|);
      PassedStays(m, j.scb8, m1, m2, j.dcb8, done[k], ats[k], ats[k + 1]);
    }
    DeliveredIf(m, j.scb8, m2, j.dcb8, done, ats);
    assert (done + [s])[..|done|] == done && (ats + [next])[..|done| + 1] == ats;
  }

  lemma ProgressHead(w: Walk, m1: Memory)
    requires Progress(w, m1) && w.todo != []
    ensures var s := w.todo[0];
            && !s.Malformed? && Clear(m1, w.j.scb8, s, w.j.lo, w.j.hi)
            && ObjectSize(m1, Load(m1, w.j.scb8 + s.off), s) >= 0
            && w.j.lo <= w.j.dcb8 && w.j.dcb8 + s.off + WORD <= w.Dest()
            && w.Dest() + Room(m1, w.j.scb8, s) <= w.j.hi <= |m1|
  {
    AheadStep(w.m, w.todo, w.a, w.Dest(), w.end, w.j);
    ClearAgree(w.m, m1, w.j.scb8, w.todo[0], w.j.lo, w.j.hi);
  }

  lemma BehindStep(m: Memory, m1: Memory, m2: Memory, done: seq<Slot>, s: Slot, a: nat, ats: seq<nat>, next: nat, j: Job)
    requires Behind(m, m1, done, a, ats, j) && !s.Malformed? && a <= s.off && s.off + WORD <= j.vis
    requires Passed(m, j.scb8, m2, j.dcb8, s, ats[|done|], next) && WritesOne(m1, m2, s, j.dcb8, ats[|done|], next)
    requires j.lo <= j.dcb8 && next <= j.hi
    ensures Behind(m, m2, done + [s], s.off + WORD, ats + [next], j)
  {
    OnlyWritesMore(m, m1, m2, done, s, j.dcb8, ats[0], ats[|done|], next);
    DeliveredMore(m, m1, m2, done, s, a, ats, next, j);
    AgreeMore(m, m1, m2, s, ats[|done|], next, j);
  }

  lemma Shift(done: seq<Slot>, todo: seq<Slot>)
    requires todo != []
    ensures done + todo == (done + [todo[0]]) + todo[1..]
  {
  }

  lemma ProgressStep(w: Walk, m1: Memory, m2: Memory, next: nat)
    requires Progress(w, m1) && w.todo != [] && !w.todo[0].Malformed?
    requires Passed(m1, w.j.scb8, m2, w.j.dcb8, w.todo[0], w.Dest(), next)
    requires WritesOne(m1, m2, w.todo[0], w.j.dcb8, w.Dest(), next)
    ensures Progress(w.Next(next), m2)
  {
    AheadStep(w.m, w.todo, w.a, w.Dest(), w.end, w.j);
    PassedFrom(w.m, m1, w.j.scb8, m2, w.j.dcb8, w.todo[0], w.Dest(), next, w.j.lo, w.j.hi);
    BehindStep(w.m, m1, m2, w.done, w.todo[0], w.a, w.ats, next, w.j);
    Shift(w.done, w.todo);
  }

  lemma ProgressStart(m: Memory, slots: seq<Slot>, dest0: nat, end: nat, j: Job)
    requires Ahead(m, slots, 0, dest0, end, j)
    ensures Progress(Walk(m, slots, [], slots, 0, [dest0], end, j), m)
  {
  }

  lemma ProgressEnd(w: Walk, m1: Memory)
    requires Progress(w, m1) && w.todo == []
    ensures Delivered(w.m, w.j.scb8, m1, w.j.dcb8, w.slots, w.ats) && w.ats[|w.slots|] == w.end
    ensures OnlyWrites(w.m, m1, w.slots, w.j.dcb8, w.ats[0], w.end) && Agree(w.m, m1, w.j.lo, w.j.hi)
  {
    assert w.slots == w.done;
  }

  /** The walk `w` has reached layout byte `i`, offset `off` and marshal address `dest`. */
  ghost predicate Reached(w: Walk, m1: Memory, lay: Layout, drv: Option<Layout>, i: nat, off: nat, dest: nat) {
    Meets(lay, drv, i, off, w.todo) && Progress(w, m1) && dest == w.Dest()
  }

  /** Room for a message or a clone at [lo, hi), clear of the control block at `cb` and all it points to. */
  ghost predicate Fresh(m: Memory, cb: nat, slots: seq<Slot>, vis: nat, lo: nat, hi: nat) {
    && 0 < lo && hi <= |m| && cb + CB + vis <= |m| && (cb + CB + vis <= lo || hi <= cb)
    && AllClear(m, cb + CB, slots, lo, hi)
  }

  /** Every byte of the generic and visible parts that is not one of the pointers. */
  ghost predicate PlainBytes(m: Memory, cb: nat, m2: Memory, cb2: nat, slots: seq<Slot>, vis: nat) {
    && cb + CB + vis <= |m| && cb2 + CB + vis <= |m2|
    && forall i {:trigger m2[i]} :: cb2 <= i < cb2 + CB + vis && !InSlots(slots, i - cb2 - CB) ==> m2[i] == m[cb + (i - cb2)]
  }

  /** `m2` holds at `cb2` a copy of the control block at `cb` in `m`, its objects end to end at `ats`. */
  ghost predicate Replica(m: Memory, cb: nat, m2: Memory, cb2: nat, slots: seq<Slot>, vis: nat, ats: seq<nat>, from: nat, to: nat) {
    && PlainBytes(m, cb, m2, cb2, slots, vis)
    && Delivered(m, cb + CB, m2, cb2 + CB, slots, ats) && ats[0] == from && ats[|slots|] == to
  }

  lemma AllPassedFrom(m: Memory, m1: Memory, scb8: nat, m2: Memory, dcb8: nat, slots: seq<Slot>, ats: seq<nat>, lo: nat, hi: nat)
    requires Agree(m, m1, lo, hi) && AllClear(m, scb8, slots, lo, hi) && Delivered(m1, scb8, m2, dcb8, slots, ats)
    ensures Delivered(m, scb8, m2, dcb8, slots, ats)
  {
    forall k | 0 <= k < |slots|
      ensures Passed(m, scb8, m2, dcb8, slots[k], ats[k], ats[k + 1])
    {
      assert Clear(m, scb8, slots[k], lo, hi);
      DeliveredAt(m1, scb8, m2, dcb8, slots, ats, k);
      PassedFrom(m, m1, scb8, m2, dcb8, slots[k], ats[k], ats[k + 1], lo, hi);
    }
    DeliveredIf(m, scb8, m2, dcb8, slots, ats);
  }

  lemma SentPlain(m: Memory, m1: Memory, m2: Memory, gcb: nat, data: nat, slots: seq<Slot>, vis: nat, dest: nat, end: nat)
    requires Copied(m, m1, data, gcb, CB + vis) && data + CB + vis <= dest
    requires OnlyWrites(m1, m2, slots, data + CB, dest, end)
    ensures PlainBytes(m, gcb, m2, data, slots, vis)
  {
    forall i | data <= i < data + CB + vis && !InSlots(slots, i - data - CB)
      ensures m2[i] == m[gcb + (i - data)]
    {
      assert i - (data + CB) == i - data - CB;
      assert m1[i] == m[gcb + (i - data)];
    }
  }

  /** The sizes the sender checks: visible part, stack arguments and inline objects. */
  ghost function Sizes(m: Memory, cb: nat, visible: Layout, marshal: Layout, drv: Option<Layout>): (int, int, int) {
    (LayoutSize(visible, 0, true), LayoutSize(marshal, 0, false), Measure(m, cb + CB, Slots(visible, drv, 0, 0)))
  }

  lemma AgreeVia(m: Memory, m1: Memory, m2: Memory, lo: nat, hi: nat)
    requires Agree(m, m1, lo, hi) && Agree(m1, m2, lo, hi)
    ensures Agree(m, m2, lo, hi)
  {
  }

  lemma SendAhead(m: Memory, m1: Memory, gcb: nat, data: nat, slots: seq<Slot>, dest: nat, end: nat, j: Job)
    requires j == Job(gcb + CB, data + CB, j.vis, data, end) && data + CB + j.vis <= dest
    requires Fit(slots, 0, j.vis) && 0 <= Measure(m, gcb + CB, slots) == end - dest
    requires Fresh(m, gcb, slots, j.vis, data, end) && Copied(m, m1, data, gcb, CB + j.vis)
    ensures Agree(m, m1, data, end) && Ahead(m1, slots, 0, dest, end, j)
  {
    MeasureAgree(m, m1, gcb + CB, slots, data, end);
  }

  lemma Sent(m: Memory, m1: Memory, m2: Memory, gcb: nat, data: nat, slots: seq<Slot>, vis: nat, ats: seq<nat>, dest: nat, end: nat)
    requires data + CB + vis <= dest && Fresh(m, gcb, slots, vis, data, end)
    requires Copied(m, m1, data, gcb, CB + vis) && Agree(m, m1, data, end)
    requires Delivered(m1, gcb + CB, m2, data + CB, slots, ats) && ats[0] == dest && ats[|slots|] == end
    requires OnlyWrites(m1, m2, slots, data + CB, dest, end)
    ensures Replica(m, gcb, m2, data, slots, vis, ats, dest, end)
  {
    AllPassedFrom(m, m1, gcb + CB, m2, data + CB, slots, ats, data, end);
    SentPlain(m, m1, m2, gcb, data, slots, vis, dest, end);
  }

  /** The message at `data` in `m`, without its arguments, at `clone` in `m2`. */
  ghost predicate CopyOfMessage(m: Memory, m2: Memory, data: nat, clone: nat, vis: nat, mar: nat, inl: nat) {
    && Same(m, data, m2, clone, CB + vis) && Same(m, data + CB + vis + mar, m2, clone + CB + vis, inl)
    && Agree(m, m2, clone, clone + CB + vis + inl)
  }

  lemma Cloned(m: Memory, m1: Memory, m2: Memory, data: nat, clone: nat, vis: nat, mar: nat, inl: nat)
    requires clone + CB + vis + inl <= data || data + CB + vis + mar + inl <= clone
    requires Copied(m, m1, clone, data, CB + vis)
    requires Copied(m1, m2, clone + CB + vis, data + CB + vis + mar, inl)
    ensures CopyOfMessage(m, m2, data, clone, vis, mar, inl)
  {
  }

  /** The pointer at `s`, moved from base `from` to base `to`; a NULL stays NULL. */
  ghost predicate Moved(m: Memory, mcb8: nat, m2: Memory, cb8: nat, s: Slot, from: nat, to: nat) {
    && !s.Malformed?
    && var q := Load(m, mcb8 + s.off);
       if q == 0 then Load(m2, cb8 + s.off) == 0 else from <= q && Load(m2, cb8 + s.off) == q - from + to
  }

  ghost predicate AllMoved(m: Memory, mcb8: nat, m2: Memory, cb8: nat, slots: seq<Slot>, from: nat, to: nat) {
    forall k {:trigger Moved(m, mcb8, m2, cb8, slots[k], from, to)} :: 0 <= k < |slots| ==>
      Moved(m, mcb8, m2, cb8, slots[k], from, to)
  }

  lemma MovedStay(m: Memory, mcb8: nat, m1: Memory, m2: Memory, cb8: nat, slots: seq<Slot>, from: nat, to: nat, a: nat)
    requires AllMoved(m, mcb8, m1, cb8, slots, from, to) && Below(slots, a) && |m1| == |m2|
    requires forall i {:trigger m2[i]} :: cb8 <= i < cb8 + a && i < |m1| ==> m2[i] == m1[i]
    ensures AllMoved(m, mcb8, m2, cb8, slots, from, to)
  {
    forall k | 0 <= k < |slots|
      ensures Moved(m, mcb8, m2, cb8, slots[k], from, to)
    {
      assert Moved(m, mcb8, m1, cb8, slots[k], from, to);
      var w := cb8 + slots[k].off;
      if w + WORD <= |m1| {
        DecodeAgree(m1, m2, w, WORD, 0);
      }
    }
  }

  /** The message's pointers lead into it at `from` and beyond, and can be moved to `to`. */
  ghost predicate CanMove(m: Memory, mcb8: nat, slots: seq<Slot>, from: nat, to: nat) {
    slots != [] ==>
      && (!slots[0].Malformed? ==>
            var q := Load(m, mcb8 + slots[0].off);
            q != 0 ==> from <= q && q - from + to < 0x1_0000_0000)
      && CanMove(m, mcb8, slots[1..], from, to)
  }

  /** One update: the pointers of the block at `mcb8` in `m`, moved from base `from` to base `to`, go to the block at `cb8`. */
  datatype Update = Update(m: Memory, mcb8: nat, cb8: nat, vis: nat, from: nat, to: nat)

  /** Half way through the update: `done` has moved, and nothing else has changed. */
  ghost predicate Updated(u: Update, m1: Memory, done: seq<Slot>, todo: seq<Slot>, a: nat) {
    && AllMoved(u.m, u.mcb8, m1, u.cb8, done, u.from, u.to) && OnlyWrites(u.m, m1, done, u.cb8, 0, 0)
    && Below(done, a) && a <= u.vis && Fit(todo, a, u.vis) && CanMove(u.m, u.mcb8, todo, u.from, u.to)
  }

  /** Where pointer `q` goes. */
  function MovedTo(q: nat, from: nat, to: nat): (v: int)
    ensures q == 0 ==> v == 0
    ensures q != 0 ==> v == q - from + to
  {
    if q == 0 then 0 else q - from + to
  }

  lemma UpdatedStep(u: Update, m1: Memory, m2: Memory, done: seq<Slot>, todo: seq<Slot>, a: nat, v: nat)
    requires Updated(u, m1, done, todo, a) && todo != [] && !todo[0].Malformed?
    requires var q := Load(u.m, u.mcb8 + todo[0].off);
             v == MovedTo(q, u.from, u.to) && (q != 0 ==> u.from <= q)
    requires Stored(m1, m2, u.cb8 + todo[0].off, v)
    ensures Updated(u, m2, done + [todo[0]], todo[1..], todo[0].off + WORD)
  {
    var s := todo[0];
    MovedStay(u.m, u.mcb8, m1, m2, u.cb8, done, u.from, u.to, a);
    OnlyWritesMore(u.m, m1, m2, done, s, u.cb8, 0, 0, 0);
  }

  /** Pointers written below offset `vis` of a control block leave everything outside it alone. */
  lemma OnlyWritesAgree(m: Memory, m1: Memory, done: seq<Slot>, cb8: nat, vis: nat)
    requires OnlyWrites(m, m1, done, cb8, 0, 0) && Below(done, vis)
    ensures Agree(m, m1, cb8, cb8 + vis)
  {
  }

  lemma BelowMore(slots: seq<Slot>, a: nat, b: nat)
    requires Below(slots, a) && a <= b
    ensures Below(slots, b)
  {
  }

  lemma UpdatedHead(u: Update, m1: Memory, done: seq<Slot>, todo: seq<Slot>, a: nat)
    requires Updated(u, m1, done, todo, a) && todo != []
    requires u.cb8 + u.vis <= u.mcb8 || u.mcb8 + u.vis <= u.cb8
    ensures !todo[0].Malformed? && todo[0].off + WORD <= u.vis
    ensures var q := Load(u.m, u.mcb8 + todo[0].off);
            && Load(m1, u.mcb8 + todo[0].off) == q && (q != 0 ==> u.from <= q)
            && 0 <= MovedTo(q, u.from, u.to) < 0x1_0000_0000
  {
    BelowMore(done, a, u.vis);
    OnlyWritesAgree(u.m, m1, done, u.cb8, u.vis);
    LoadAgree(u.m, m1, u.mcb8 + todo[0].off, u.cb8, u.cb8 + u.vis);
  }

  /** `n` bytes of objects carried from `base` to `to`, for a block once at `scb8`, then at `dcb8`, now at `cb8`. */
  datatype Carriage = Carriage(scb8: nat, dcb8: nat, cb8: nat, base: nat, to: nat, n: nat)

  /** A delivered object whose bytes and pointer have moved together is delivered at its new place. */
  lemma PassedOn(m: Memory, m1: Memory, m2: Memory, c: Carriage, s: Slot, at: nat, next: nat)
    requires Passed(m, c.scb8, m1, c.dcb8, s, at, next) && c.base <= at <= next <= c.base + c.n && 0 < at
    requires Same(m1, c.base, m2, c.to, c.n) && Moved(m1, c.dcb8, m2, c.cb8, s, c.base, c.to)
    ensures Passed(m, c.scb8, m2, c.cb8, s, at - c.base + c.to, next - c.base + c.to)
  {
    var p := Load(m, c.scb8 + s.off);
    if p != 0 {
      var size, src, at2 := ObjectSize(m, p, s), p - Hdr(s), at - c.base + c.to;
      forall i {:trigger m2[i]} | at2 <= i < at2 + size
        ensures m2[i] == m[src + (i - at2)]
      {
        assert m2[i] == m1[c.base + (i - c.to)];
        assert c.base + (i - c.to) == at + (i - at2);
      }
    }
  }

  /** Two delivered objects never overlap, and all lie between the first and the last place. */
  lemma ObjectsApart(m: Memory, scb8: nat, m2: Memory, dcb8: nat, slots: seq<Slot>, ats: seq<nat>, k: nat, l: nat)
    requires Delivered(m, scb8, m2, dcb8, slots, ats) && k < l < |slots|
    ensures ats[0] <= ats[k] <= ats[k + 1] <= ats[l] <= ats[l + 1] <= ats[|slots|]
  {
    DeliveredGrows(m, scb8, m2, dcb8, slots, ats, 0, k);
    DeliveredGrows(m, scb8, m2, dcb8, slots, ats, k, k + 1);
    DeliveredGrows(m, scb8, m2, dcb8, slots, ats, k + 1, l);
    DeliveredGrows(m, scb8, m2, dcb8, slots, ats, l, l + 1);
    DeliveredGrows(m, scb8, m2, dcb8, slots, ats, l + 1, |slots|);
  }

  /** Every pointer of a delivered control block leads to its own objects. */
  lemma PointerWithin(m: Memory, scb8: nat, m2: Memory, dcb8: nat, slots: seq<Slot>, ats: seq<nat>, k: nat)
    requires Delivered(m, scb8, m2, dcb8, slots, ats) && k < |slots|
    ensures !slots[k].Malformed? && ats[0] <= ats[k] <= ats[k + 1] <= ats[|slots|]
    ensures var q := Load(m2, dcb8 + slots[k].off);
            q != 0 ==> ats[0] <= q <= ats[|slots|]
  {
    DeliveredGrows(m, scb8, m2, dcb8, slots, ats, 0, k);
    DeliveredGrows(m, scb8, m2, dcb8, slots, ats, k + 1, |slots|);
    DeliveredAt(m, scb8, m2, dcb8, slots, ats, k);
  }

  lemma {:induction false} DeliveredCanMove(m: Memory, scb8: nat, m2: Memory, dcb8: nat, slots: seq<Slot>, ats: seq<nat>,
                                            from: nat, to: nat, k: nat)
    requires Delivered(m, scb8, m2, dcb8, slots, ats) && k <= |slots|
    requires from <= ats[0] && ats[|slots|] - from + to < 0x1_0000_0000
    ensures CanMove(m2, dcb8, slots[k..], from, to)
    decreases |slots| - k
  {
    if k < |slots| {
      PointerWithin(m, scb8, m2, dcb8, slots, ats, k);
      DeliveredCanMove(m, scb8, m2, dcb8, slots, ats, from, to, k + 1);
      assert slots[k..][1..] == slots[k + 1..];
    }
  }

  lemma {:induction false} FitBelow(slots: seq<Slot>, a: nat, vis: nat)
    requires Fit(slots, a, vis)
    ensures Below(slots, vis)
  {
    if slots != [] {
      FitBelow(slots[1..], slots[0].off + WORD, vis);
      assert forall k :: 0 < k < |slots| ==> slots[k] == slots[1..][k - 1];
    }
  }

  /** One call: the sender's block at `gcb`, its message at `data` and the receiver's clone, with their three sizes. */
  datatype Parcel = Parcel(gcb: nat, data: nat, clone: nat, slots: seq<Slot>, vis: nat, mar: nat, inl: nat)
  {
    /** Where the message's objects start and end. */
    function From(): nat { data + CB + vis + mar }

    function To(): nat { data + CB + vis + mar + inl }

    /** Where the clone's objects start and end. */
    function CloneFrom(): nat { clone + CB + vis }

    function CloneTo(): nat { clone + CB + vis + inl }

    predicate Apart() { CloneTo() <= data || To() <= clone }
  }

  /** The message in `m1` is a replica of the sender's block in `m`. */
  ghost predicate InMessage(m: Memory, m1: Memory, x: Parcel, ats: seq<nat>) {
    Replica(m, x.gcb, m1, x.data, x.slots, x.vis, ats, x.From(), x.To())
  }

  /** The clone in `m2` is a replica of the sender's block in `m`. */
  ghost predicate InClone(m: Memory, m2: Memory, x: Parcel, ats: seq<nat>) {
    Replica(m, x.gcb, m2, x.clone, x.slots, x.vis, ats, x.CloneFrom(), x.CloneTo())
  }

  /** A receiver's memory: `m2` after the copy of the message, `m3` after its pointers have moved. */
  ghost predicate ClonedFrom(m1: Memory, m2: Memory, m3: Memory, x: Parcel) {
    && CopyOfMessage(m1, m2, x.data, x.clone, x.vis, x.mar, x.inl) && x.Apart()
    && Below(x.slots, x.vis) && OnlyWrites(m2, m3, x.slots, x.clone + CB, 0, 0)
    && AllMoved(m2, x.data + CB, m3, x.clone + CB, x.slots, x.data + x.mar, x.clone)
  }

  lemma ClonedObjects(m1: Memory, m2: Memory, m3: Memory, x: Parcel)
    requires ClonedFrom(m1, m2, m3, x)
    ensures Same(m1, x.From(), m3, x.CloneFrom(), x.inl) && Agree(m1, m3, x.clone, x.CloneTo())
  {
    OnlyWritesAgree(m2, m3, x.slots, x.clone + CB, x.vis);
  }

  lemma ClonedPlain(m: Memory, m1: Memory, m2: Memory, m3: Memory, x: Parcel)
    requires PlainBytes(m, x.gcb, m1, x.data, x.slots, x.vis) && Same(m1, x.data, m2, x.clone, CB + x.vis)
    requires OnlyWrites(m2, m3, x.slots, x.clone + CB, 0, 0)
    ensures PlainBytes(m, x.gcb, m3, x.clone, x.slots, x.vis)
  {
    forall i {:trigger m3[i]} | x.clone <= i < x.clone + CB + x.vis && !InSlots(x.slots, i - x.clone - CB)
      ensures m3[i] == m[x.gcb + (i - x.clone)]
    {
      assert i - (x.clone + CB) == i - x.clone - CB;
      assert m2[i] == m1[x.data + (i - x.clone)];
      assert x.data + (i - x.clone) - x.data - CB == i - x.clone - CB;
    }
  }

  lemma MovedBase(m1: Memory, m2: Memory, mcb8: nat, m3: Memory, cb8: nat, s: Slot, from: nat, to: nat, n: nat)
    requires Moved(m2, mcb8, m3, cb8, s, from, to) && Load(m1, mcb8 + s.off) == Load(m2, mcb8 + s.off)
    requires var q := Load(m1, mcb8 + s.off);
             q != 0 ==> from + n <= q
    ensures Moved(m1, mcb8, m3, cb8, s, from + n, to + n)
  {
  }

  /** One relocation: objects at `from + n` for the block at `mcb8` go to `to + n` for the block at `cb8`; writes in [lo, hi). */
  datatype Relocation = Relocation(
    scb8: nat, mcb8: nat, cb8: nat, slots: seq<Slot>, vis: nat, from: nat, to: nat, n: nat, lo: nat, hi: nat)

  lemma ClonedPointer(m: Memory, m1: Memory, m2: Memory, m3: Memory, r: Relocation, ats: seq<nat>, k: nat)
    requires Delivered(m, r.scb8, m1, r.mcb8, r.slots, ats) && ats[0] == r.from + r.n && k < |r.slots|
    requires AllMoved(m2, r.mcb8, m3, r.cb8, r.slots, r.from, r.to)
    requires !r.slots[k].Malformed? && Load(m1, r.mcb8 + r.slots[k].off) == Load(m2, r.mcb8 + r.slots[k].off)
    ensures Moved(m1, r.mcb8, m3, r.cb8, r.slots[k], r.from + r.n, r.to + r.n)
  {
    PointerWithin(m, r.scb8, m1, r.mcb8, r.slots, ats, k);
    assert Moved(m2, r.mcb8, m3, r.cb8, r.slots[k], r.from, r.to);
    MovedBase(m1, m2, r.mcb8, m3, r.cb8, r.slots[k], r.from, r.to, r.n);
  }

  /** Every pointer of the clone has moved along with its object. */
  lemma ClonedPointers(m: Memory, m1: Memory, m2: Memory, m3: Memory, r: Relocation, ats: seq<nat>)
    requires Delivered(m, r.scb8, m1, r.mcb8, r.slots, ats) && ats[0] == r.from + r.n
    requires AllMoved(m2, r.mcb8, m3, r.cb8, r.slots, r.from, r.to) && Below(r.slots, r.vis)
    requires Agree(m1, m2, r.lo, r.hi) && (r.mcb8 + r.vis <= r.lo || r.hi <= r.mcb8)
    ensures AllMoved(m1, r.mcb8, m3, r.cb8, r.slots, ats[0], r.to + r.n)
  {
    forall k | 0 <= k < |r.slots|
      ensures Moved(m1, r.mcb8, m3, r.cb8, r.slots[k], r.from + r.n, r.to + r.n)
    {
      LoadAgree(m1, m2, r.mcb8 + r.slots[k].off, r.lo, r.hi);
      ClonedPointer(m, m1, m2, m3, r, ats, k);
    }
  }

  ghost function Shifted(ats: seq<nat>, to: nat): (r: seq<nat>)
    requires ats != [] && forall k :: 0 <= k < |ats| ==> ats[0] <= ats[k]
    ensures |r| == |ats| && forall k :: 0 <= k < |ats| ==> r[k] == ats[k] - ats[0] + to
  {
    seq(|ats|, k requires 0 <= k < |ats| => ats[k] - ats[0] + to)
  }

  /** Objects and pointers that moved together stay delivered. */
  lemma DeliveredOn(m: Memory, m1: Memory, m2: Memory, c: Carriage, slots: seq<Slot>, ats: seq<nat>) returns (moved: seq<nat>)
    requires Delivered(m, c.scb8, m1, c.dcb8, slots, ats) && 0 < ats[0] == c.base && ats[|slots|] == c.base + c.n
    requires Same(m1, c.base, m2, c.to, c.n) && AllMoved(m1, c.dcb8, m2, c.cb8, slots, c.base, c.to)
    ensures Delivered(m, c.scb8, m2, c.cb8, slots, moved) && moved[0] == c.to && moved[|slots|] == c.to + c.n
  {
    forall k | 0 <= k < |ats|
      ensures ats[0] <= ats[k]
    {
      DeliveredGrows(m, c.scb8, m1, c.dcb8, slots, ats, 0, k);
    }
    moved := Shifted(ats, c.to);
    forall k | 0 <= k < |slots|
      ensures Passed(m, c.scb8, m2, c.cb8, slots[k], moved[k], moved[k + 1])
    {
      PointerWithin(m, c.scb8, m1, c.dcb8, slots, ats, k);
      DeliveredAt(m, c.scb8, m1, c.dcb8, slots, ats, k);
      assert Moved(m1, c.dcb8, m2, c.cb8, slots[k], c.base, c.to);
      PassedOn(m, m1, m2, c, slots[k], ats[k], ats[k + 1]);
    }
    DeliveredIf(m, c.scb8, m2, c.cb8, slots, moved);
  }

  /** Nothing outside the message and the clone has changed. */
  ghost predicate Outside(m: Memory, m2: Memory, lo: nat, hi: nat, lo2: nat, hi2: nat) {
    |m| == |m2| && forall i {:trigger m2[i]} :: 0 <= i < |m| && !(lo <= i < hi) && !(lo2 <= i < hi2) ==> m2[i] == m[i]
  }

  lemma OutsideBoth(m: Memory, m1: Memory, m2: Memory, lo: nat, hi: nat, lo2: nat, hi2: nat)
    requires Agree(m, m1, lo, hi) && Agree(m1, m2, lo2, hi2)
    ensures Outside(m, m2, lo, hi, lo2, hi2)
  {
  }

  /** The receiver, measuring the message, comes to the sender's sizes. */
  lemma SizesAgain(m: Memory, m1: Memory, x: Parcel, ats: seq<nat>, visible: Layout, marshal: Layout, drv: Option<Layout>)
    requires InMessage(m, m1, x, ats) && x.slots == Slots(visible, drv, 0, 0)
    requires Sizes(m, x.gcb, visible, marshal, drv) == (x.vis, x.mar, x.inl)
    ensures Sizes(m1, x.data, visible, marshal, drv) == (x.vis, x.mar, x.inl)
  {
    Remeasured(m, x.gcb + CB, m1, x.data + CB, x.slots, ats);
  }

  lemma UpdateReady(m: Memory, m1: Memory, m2: Memory, x: Parcel, ats: seq<nat>)
    requires InMessage(m, m1, x, ats) && x.Apart() && Fit(x.slots, 0, x.vis)
    requires Agree(m1, m2, x.clone, x.CloneTo()) && x.CloneTo() <= |m2|
    ensures Below(x.slots, x.vis) && CanMove(m2, x.data + CB, x.slots, x.data + x.mar, x.clone)
  {
    FitBelow(x.slots, 0, x.vis);
    assert x.slots[0..] == x.slots;
    DeliveredCanMove(m, x.gcb + CB, m1, x.data + CB, x.slots, ats, x.data + x.mar, x.clone, 0);
    CanMoveAgree(m1, m2, x.data + CB, x.slots, x.data + x.mar, x.clone, x.clone, x.CloneTo(), x.vis);
  }

  lemma {:induction false} CanMoveAgree(m1: Memory, m2: Memory, mcb8: nat, slots: seq<Slot>, from: nat, to: nat, lo: nat, hi: nat, vis: nat)
    requires CanMove(m1, mcb8, slots, from, to) && Below(slots, vis) && Agree(m1, m2, lo, hi) && (mcb8 + vis <= lo || hi <= mcb8)
    ensures CanMove(m2, mcb8, slots, from, to)
    decreases slots
  {
    if slots != [] {
      LoadAgree(m1, m2, mcb8 + slots[0].off, lo, hi);
      CanMoveAgree(m1, m2, mcb8, slots[1..], from, to, lo, hi, vis);
    }
  }

  /** A replica in a message, cloned, is a replica: the round trip keeps every object and every NULL. */
  lemma RoundTrip(m: Memory, m1: Memory, m2: Memory, m3: Memory, x: Parcel, ats: seq<nat>) returns (moved: seq<nat>)
    requires InMessage(m, m1, x, ats) && ClonedFrom(m1, m2, m3, x)
    ensures InClone(m, m3, x, moved) && Agree(m1, m3, x.clone, x.CloneTo())
  {
    ClonedObjects(m1, m2, m3, x);
    ClonedPlain(m, m1, m2, m3, x);
    RelocatedPointers(m, m1, m2, m3, x, ats);
    moved := RelocatedObjects(m, m1, m2, m3, x, ats);
  }

  /** Seen from the message, every pointer of the clone has moved along with the inline objects. */
  lemma RelocatedPointers(m: Memory, m1: Memory, m2: Memory, m3: Memory, x: Parcel, ats: seq<nat>)
    requires Delivered(m, x.gcb + CB, m1, x.data + CB, x.slots, ats) && ats[0] == x.From()
    requires AllMoved(m2, x.data + CB, m3, x.clone + CB, x.slots, x.data + x.mar, x.clone) && Below(x.slots, x.vis)
    requires Agree(m1, m2, x.clone, x.CloneTo()) && x.Apart()
    ensures AllMoved(m1, x.data + CB, m3, x.clone + CB, x.slots, ats[0], x.CloneFrom())
  {
    var r := Relocation(x.gcb + CB, x.data + CB, x.clone + CB, x.slots, x.vis, x.data + x.mar, x.clone, CB + x.vis,
                        x.clone, x.CloneTo());
    assert x.CloneFrom() == r.to + r.n;
    ClonedPointers(m, m1, m2, m3, r, ats);
  }

  lemma RelocatedObjects(m: Memory, m1: Memory, m2: Memory, m3: Memory, x: Parcel, ats: seq<nat>) returns (moved: seq<nat>)
    requires Delivered(m, x.gcb + CB, m1, x.data + CB, x.slots, ats) && ats[0] == x.From() && ats[|x.slots|] == x.To()
    requires AllMoved(m1, x.data + CB, m3, x.clone + CB, x.slots, ats[0], x.CloneFrom())
    requires Same(m1, ats[0], m3, x.CloneFrom(), x.inl)
    ensures Delivered(m, x.gcb + CB, m3, x.clone + CB, x.slots, moved)
    ensures moved[0] == x.CloneFrom() && moved[|x.slots|] == x.CloneTo()
  {
    var c := Carriage(x.gcb + CB, x.data + CB, x.clone + CB, ats[0], x.CloneFrom(), x.inl);
    moved := DeliveredOn(m, m1, m3, c, x.slots, ats);
  }

  /** The receiver's own channel, context and origin in the generic part; the other two words and the rest untouched. */
  ghost predicate Stamped(m: Memory, m2: Memory, cb: nat, channel: nat, context: nat, origin: nat) {
    && Agree(m, m2, cb, cb + CB) && cb + CB <= |m|
    && Load(m2, cb) == channel && Load(m2, cb + 4) == context && Load(m2, cb + 16) == origin
    && forall i {:trigger m2[i]} :: cb + 8 <= i < cb + 16 ==> m2[i] == m[i]
  }

  /** What a driver's entry point gets: the sender's block and objects, with the receiver's three generic words. */
  ghost predicate Arrived(m: Memory, m2: Memory, x: Parcel, ats: seq<nat>, channel: nat, context: nat, origin: nat) {
    && Load(m2, x.clone) == channel && Load(m2, x.clone + 4) == context && Load(m2, x.clone + 16) == origin
    && x.gcb + CB + x.vis <= |m| && x.clone + CB + x.vis <= |m2|
    && (forall i {:trigger m2[i]} :: x.clone + 8 <= i < x.clone + 16 ==> m2[i] == m[x.gcb + (i - x.clone)])
    && (forall i {:trigger m2[i]} :: x.clone + CB <= i < x.clone + CB + x.vis && !InSlots(x.slots, i - x.clone - CB) ==>
          m2[i] == m[x.gcb + (i - x.clone)])
    && Delivered(m, x.gcb + CB, m2, x.clone + CB, x.slots, ats)
    && ats[0] == x.CloneFrom() && ats[|x.slots|] == x.CloneTo()
  }

  /** Writing the generic part moves no object and no pointer. */
  lemma DeliveredStays(m: Memory, m2: Memory, m3: Memory, x: Parcel, ats: seq<nat>)
    requires Delivered(m, x.gcb + CB, m2, x.clone + CB, x.slots, ats) && ats[0] == x.CloneFrom()
    requires Agree(m2, m3, x.clone, x.clone + CB)
    ensures Delivered(m, x.gcb + CB, m3, x.clone + CB, x.slots, ats)
  {
    forall k | 0 <= k < |x.slots|
      ensures Passed(m, x.gcb + CB, m3, x.clone + CB, x.slots[k], ats[k], ats[k + 1])
    {
      DeliveredAt(m, x.gcb + CB, m2, x.clone + CB, x.slots, ats, k);
      DeliveredGrows(m, x.gcb + CB, m2, x.clone + CB, x.slots, ats, 0, k);
      PassedStays(m, x.gcb + CB, m2, m3, x.clone + CB, x.slots[k], ats[k], ats[k + 1]);
    }
    DeliveredIf(m, x.gcb + CB, m3, x.clone + CB, x.slots, ats);
  }

  lemma Arrives(m: Memory, m2: Memory, m3: Memory, x: Parcel, ats: seq<nat>, channel: nat, context: nat, origin: nat)
    requires InClone(m, m2, x, ats)
    requires Stamped(m2, m3, x.clone, channel, context, origin)
    ensures Arrived(m, m3, x, ats, channel, context, origin)
  {
    DeliveredStays(m, m2, m3, x, ats);
  }

  /** The space a new control block's own inline objects need, or the first error. */
  ghost function CbNeed(slots: seq<Slot>): int {
    if slots == [] then 0
    else if slots[0].Malformed? then ERROR_INVALID_FORMAT
    else if !slots[0].Inline? then CbNeed(slots[1..])
    else if slots[0].size < 0 then slots[0].size
    else Plus(slots[0].size, CbNeed(slots[1..]))
  }

  /** The inline pointers cut [at, end) into consecutive pieces, one per object and of its size. */
  ghost predicate Partitioned(m: Memory, cb8: nat, slots: seq<Slot>, at: nat, end: int)
    decreases |slots|
  {
    if slots == [] then at == end
    else
      var last := |slots| - 1;
      if !slots[last].Inline? then Partitioned(m, cb8, slots[..last], at, end)
      else
        && 0 <= slots[last].size && at <= end - slots[last].size == Load(m, cb8 + slots[last].off)
        && Partitioned(m, cb8, slots[..last], at, end - slots[last].size)
  }

  lemma {:induction false} PartitionedStays(m1: Memory, m2: Memory, cb8: nat, slots: seq<Slot>, at: nat, end: int, a: nat)
    requires Partitioned(m1, cb8, slots, at, end) && Below(slots, a) && |m1| == |m2|
    requires forall i {:trigger m2[i]} :: cb8 <= i < cb8 + a && i < |m1| ==> m2[i] == m1[i]
    ensures Partitioned(m2, cb8, slots, at, end)
    decreases |slots|
  {
    if slots != [] {
      var last := |slots| - 1;
      var w := cb8 + slots[last].off;
      if slots[last].Inline? && w + WORD <= |m1| {
        DecodeAgree(m1, m2, w, WORD, 0);
      }
      PartitionedStays(m1, m2, cb8, slots[..last], at, if slots[last].Inline? then end - slots[last].size else end, a);
    }
  }

  /** The space dealt out before the first error, or altogether. */
  ghost function CbSpan(slots: seq<Slot>): nat {
    if slots == [] || slots[0].Malformed? then 0
    else if !slots[0].Inline? then CbSpan(slots[1..])
    else if slots[0].size < 0 then 0
    else slots[0].size + CbSpan(slots[1..])
  }

  lemma {:induction false} SpanIsNeed(slots: seq<Slot>)
    requires CbNeed(slots) >= 0
    ensures CbSpan(slots) == CbNeed(slots)
  {
    if slots != [] {
      SpanIsNeed(slots[1..]);
    }
  }

  /** One pass over a new control block: `vis` visible bytes at `cb8` in `m`, its inline space from `at` on. */
  datatype Deal = Deal(m: Memory, cb8: nat, vis: nat, at: nat)

  /** Nothing but the inline pointers may differ. */
  ghost predicate OnlyInline(m: Memory, m2: Memory, slots: seq<Slot>, cb8: nat) {
    |m| == |m2| && forall i {:trigger m2[i]} :: 0 <= i < |m| && !InInline(slots, i - cb8) ==> m2[i] == m[i]
  }

  ghost predicate InInline(slots: seq<Slot>, x: int) {
    exists k :: 0 <= k < |slots| && slots[k].Inline? && slots[k].off <= x < slots[k].off + WORD
  }

  lemma OnlyInlineWrites(m: Memory, m2: Memory, slots: seq<Slot>, cb8: nat)
    requires OnlyInline(m, m2, slots, cb8)
    ensures OnlyWrites(m, m2, slots, cb8, 0, 0)
  {
    forall x | InInline(slots, x)
      ensures InSlots(slots, x)
    {
      var k :| 0 <= k < |slots| && slots[k].Inline? && slots[k].off <= x < slots[k].off + WORD;
      assert !slots[k].Malformed?;
    }
  }

  lemma InInlineMore(done: seq<Slot>, todo: seq<Slot>, x: int)
    ensures InInline(done + todo, x) <==> InInline(done, x) || InInline(todo, x)
  {
    var all := done + todo;
    if InInline(done, x) {
      var k :| 0 <= k < |done| && done[k].Inline? && done[k].off <= x < done[k].off + WORD;
      assert all[k] == done[k];
    }
    if InInline(todo, x) {
      var k :| 0 <= k < |todo| && todo[k].Inline? && todo[k].off <= x < todo[k].off + WORD;
      assert all[|done| + k] == todo[k];
    }
  }

  /** Half way through: `done` has its pieces of [at, next), and the rest has not been touched. */
  ghost predicate Dealt(d: Deal, m1: Memory, done: seq<Slot>, todo: seq<Slot>, a: nat, next: nat) {
    && Partitioned(m1, d.cb8, done, d.at, next) && OnlyInline(d.m, m1, done, d.cb8)
    && Below(done, a) && a <= d.vis && Fit(todo, a, d.vis) && d.at <= next
  }

  /** What is left agrees with the space pass over all of `slots`. */
  ghost predicate OnCourse(d: Deal, slots: seq<Slot>, todo: seq<Slot>, next: nat) {
    && d.at <= next && next + CbSpan(todo) == d.at + CbSpan(slots)
    && CbNeed(slots) == Plus(next - d.at, CbNeed(todo))
  }

  lemma OnlyInlineMore(m: Memory, m1: Memory, m2: Memory, done: seq<Slot>, s: Slot, cb8: nat, v: nat)
    requires OnlyInline(m, m1, done, cb8) && !s.Malformed?
    requires if s.Inline? then Stored(m1, m2, cb8 + s.off, v) else m2 == m1
    ensures OnlyInline(m, m2, done + [s], cb8)
  {
    forall i {:trigger m2[i]} | 0 <= i < |m| && !InInline(done + [s], i - cb8)
      ensures m2[i] == m[i]
    {
      var one := [s];
      assert one[0] == s;
      InInlineMore(done, one, i - cb8);
    }
  }

  lemma DealtStep(d: Deal, m1: Memory, m2: Memory, done: seq<Slot>, todo: seq<Slot>, a: nat, next: nat)
    requires Dealt(d, m1, done, todo, a, next) && todo != [] && !todo[0].Malformed?
    requires todo[0].Inline? ==> todo[0].size >= 0 && Stored(m1, m2, d.cb8 + todo[0].off, next)
    requires !todo[0].Inline? ==> m2 == m1
    ensures Dealt(d, m2, done + [todo[0]], todo[1..], todo[0].off + WORD, if todo[0].Inline? then next + todo[0].size else next)
  {
    PartitionedStays(m1, m2, d.cb8, done, d.at, next, a);
    assert (done + [todo[0]])[..|done|] == done;
    OnlyInlineMore(d.m, m1, m2, done, todo[0], d.cb8, next);
  }

  /** Writes to some of the inline pointers are writes to the inline pointers. */
  lemma OnlyInlineAll(m: Memory, m1: Memory, done: seq<Slot>, todo: seq<Slot>, cb8: nat)
    requires OnlyInline(m, m1, done, cb8)
    ensures OnlyInline(m, m1, done + todo, cb8)
  {
    forall i {:trigger m1[i]} | 0 <= i < |m| && !InInline(done + todo, i - cb8)
      ensures m1[i] == m[i]
    {
      InInlineMore(done, todo, i - cb8);
    }
  }

  /** A new control block at `cb`: its scratch pointer, and its inline space cut exactly into its inline objects. */
  ghost predicate Allocated(m: Memory, m2: Memory, cb: nat, slots: seq<Slot>, vis: nat, scratch: nat) {
    && Load(m2, cb + 8) == scratch && Agree(m, m2, cb + 8, cb + CB + vis) && cb + CB + vis <= |m|
    && Partitioned(m2, cb + CB, slots, cb + CB + vis, cb + CB + vis + CbNeed(slots))
    && forall i {:trigger m2[i]} :: 0 <= i < |m| && !(cb + 8 <= i < cb + 12) && !InInline(slots, i - (cb + CB)) ==> m2[i] == m[i]
  }

  lemma AllocatedBy(m: Memory, m1: Memory, m2: Memory, cb: nat, slots: seq<Slot>, vis: nat, scratch: nat)
    requires Stored(m, m1, cb + 8, scratch) && OnlyInline(m1, m2, slots, cb + CB) && Fit(slots, 0, vis) && cb + CB + vis <= |m|
    requires Partitioned(m2, cb + CB, slots, cb + CB + vis, cb + CB + vis + CbNeed(slots))
    ensures Allocated(m, m2, cb, slots, vis, scratch)
  {
    FitBelow(slots, 0, vis);
    OnlyInlineWrites(m1, m2, slots, cb + CB);
    OnlyWritesAgree(m1, m2, slots, cb + CB, vis);
    LoadAgree(m1, m2, cb + 8, cb + CB, cb + CB + vis);
  }
}
