/** The physical frame bitmap: one bit per page frame, searched word by word. */
module FrameBitmap {
  const NBITS: nat := 32
  const PAGE: nat := 4096

  /** The first free frame at or after `s`, or the length. */
  function FirstFree(b: seq<bool>, s: nat): (r: nat)
    requires s <= |b|
    ensures s <= r <= |b| && (r < |b| ==> !b[r])
    ensures forall i :: s <= i < r ==> b[i]
    decreases |b| - s
  {
    if s == |b| || !b[s] then s else FirstFree(b, s + 1)
  }

  /** The end of the free run that starts at `f`. */
  function RunEnd(b: seq<bool>, f: nat): (r: nat)
    requires f <= |b|
    ensures f <= r <= |b| && (r < |b| ==> b[r])
    ensures forall i :: f <= i < r ==> !b[i]
    decreases |b| - f
  {
    if f == |b| || b[f] then f else RunEnd(b, f + 1)
  }

  /** A search for `n` frames from `s` gives up: the first free run is too short and nothing but the end stops it. */
  predicate GivesUp(b: seq<bool>, s: nat, n: nat)
    requires s <= |b|
  {
    var f := FirstFree(b, s);
    RunEnd(b, f) == |b| && |b| - f < n
  }

  function Min(a: nat, b: nat): nat {
    if a < b then a else b
  }

  /** `b` with the frames from `lo` up to `hi` set to `v`. */
  function Filled(b: seq<bool>, lo: int, hi: int, v: bool): (r: seq<bool>)
    ensures |r| == |b| && forall i :: 0 <= i < |b| ==> r[i] == if lo <= i < hi then v else b[i]
  {
    seq(|b|, i requires 0 <= i < |b| => if lo <= i < hi then v else b[i])
  }

  datatype Frames = NoMemory | Granted(start: nat, count: nat)

  datatype Release = NotMine | Released | Panicked

  class Bitmap {
    const baseAddr: nat
    const basePfn: nat
    const nFrames: nat
    const nIndexes: nat
    const bits: array<bool>
    var lastAllocIndex: nat

    ghost predicate Valid()
      reads this, bits
    {
      && basePfn == baseAddr / PAGE && 0 < nFrames && (nIndexes - 1) * NBITS < nFrames <= nIndexes * NBITS == bits.Length
      && lastAllocIndex * NBITS <= nFrames
      && forall i :: nFrames <= i < bits.Length ==> !bits[i]
    }

    /** The frames in the bitmap, used or free, without the padding of the last word. */
    ghost function Used(): seq<bool>
      requires Valid()
      reads this, bits
    {
      bits[..nFrames]
    }

    function EndPfn(): int {
      basePfn + nFrames - 1
    }

    /** An unaligned first frame belongs to the neighbour below; so does a last frame that is only just begun. */
    constructor (baseAddr: nat, size: nat)
      requires size > 0
      ensures Valid() && fresh(bits) && this.baseAddr == baseAddr && lastAllocIndex == 0
      ensures EndPfn() == (baseAddr + size - 1) / PAGE
      ensures forall i :: 0 <= i < nFrames ==>
                Used()[i] == ((i == 0 && baseAddr % PAGE != 0) || (i == nFrames - 1 && (baseAddr + size - 1) % PAGE == 0))
    {
      var endAddr := baseAddr + (size - 1);
      var frames := endAddr / PAGE - baseAddr / PAGE + 1;
      var words := if frames % NBITS == 0 then frames / NBITS else frames / NBITS + 1;
      this.baseAddr, basePfn, nFrames, nIndexes, lastAllocIndex := baseAddr, baseAddr / PAGE, frames, words, 0;
      bits := new bool[words * NBITS](i => false);
      new;
      if baseAddr % PAGE != 0 {
        bits[0] := true;
      }
      if endAddr % PAGE == 0 {
        bits[nFrames - 1] := true;
      }
    }

    /** The bits of word `i` that stand for frames. */
    function WordLimit(i: nat): (r: nat)
      requires 0 < nFrames && (nIndexes - 1) * NBITS < nFrames <= nIndexes * NBITS && i < nIndexes
      ensures 0 < r <= NBITS && i * NBITS + r == Min((i + 1) * NBITS, nFrames)
    {
      if i == nIndexes - 1 && nFrames % NBITS != 0 then nFrames % NBITS else NBITS
    }

    predicate Full(i: nat)
      requires (i + 1) * NBITS <= bits.Length
      reads bits
    {
      forall j :: i * NBITS <= j < (i + 1) * NBITS ==> bits[j]
    }

    /** The inner search: extends the free run that starts at bit `j0` of word `i0`. */
    method Extend(i0: nat, j0: nat, n: nat) returns (ok: bool, found: nat)
      requires Valid() && i0 < nIndexes && j0 < WordLimit(i0) && !bits[i0 * NBITS + j0] && 0 < n
      ensures var f := i0 * NBITS + j0;
              var e := RunEnd(Used(), f);
              ok == !(e == nFrames && nFrames - f < n) && (ok ==> found == Min(n, e - f) && 0 < found)
    {
      ghost var f := i0 * NBITS + j0;
      ghost var e := RunEnd(Used(), f);
      found := 0;
      var i := i0;
      while i < nIndexes
        invariant i0 <= i <= nIndexes && found < n && f + found <= nFrames
        invariant f + found == if i == i0 then f else Min(i * NBITS, nFrames)
        invariant RunEnd(Used(), f + found) == e
      {
        var end;
        end, found := ExtendWord(i, if found == 0 then j0 else 0, n, found, f);
        if end {
          return true, found;
        }
        i := i + 1;
      }
      return false, 0;
    }

    /** The run goes on in word `i`, from bit `k0`, with `found0` frames so far; `end` is whether it ends there or is long enough. */
    method ExtendWord(i: nat, k0: nat, n: nat, found0: nat, ghost f: nat) returns (end: bool, found: nat)
      requires Valid() && i < nIndexes && k0 < WordLimit(i) && f + found0 == i * NBITS + k0 && found0 < n
      ensures found0 <= found <= n && f + found <= i * NBITS + WordLimit(i) && RunEnd(Used(), f + found0) == RunEnd(Used(), f + found)
      ensures end ==> found == n || (f + found < i * NBITS + WordLimit(i) && bits[f + found])
      ensures !end ==> found < n && f + found == i * NBITS + WordLimit(i)
    {
      found := found0;
      if Full(i) {
        return true, found;
      }
      var limit, k := WordLimit(i), k0;
      while k < limit
        invariant k <= limit && found0 <= found < n && f + found == i * NBITS + k
        invariant RunEnd(Used(), f + found0) == RunEnd(Used(), f + found)
      {
        if bits[i * NBITS + k] {
          return true, found;
        }
        found := found + 1;
        if found >= n {
          return true, found;
        }
        k := k + 1;
      }
      end := false;
    }

    /** The first free bit of word `i`, or its limit. */
    method ScanWord(i: nat) returns (j: nat)
      requires Valid() && i < nIndexes
      ensures j <= WordLimit(i) && FirstFree(Used(), i * NBITS) == FirstFree(Used(), i * NBITS + j)
      ensures j < WordLimit(i) ==> !bits[i * NBITS + j]
    {
      var limit := WordLimit(i);
      j := 0;
      while j < limit && bits[i * NBITS + j]
        invariant 0 <= j <= limit && FirstFree(Used(), i * NBITS) == FirstFree(Used(), i * NBITS + j)
      {
        j := j + 1;
      }
    }

    /** The outer search on one word: its first free frame, or none. */
    method ScanIndex(i: nat) returns (hit: bool, j: nat)
      requires Valid() && i < nIndexes
      ensures hit ==> j < WordLimit(i) && !bits[i * NBITS + j] && FirstFree(Used(), i * NBITS) == i * NBITS + j
      ensures !hit ==> FirstFree(Used(), i * NBITS) == FirstFree(Used(), Min((i + 1) * NBITS, nFrames))
    {
      if Full(i) {
        AllUsed(Used(), i * NBITS, Min((i + 1) * NBITS, nFrames));
        return false, 0;
      }
      j := ScanWord(i);
      hit := j < WordLimit(i);
    }

    /** The search proper: the first free frame from the last place on, and the run that starts there. */
    method Search(n: nat) returns (ok: bool, start: nat, found: nat)
      requires Valid() && 0 < n
      ensures ok == !GivesUp(Used(), lastAllocIndex * NBITS, n)
      ensures ok ==> start == FirstFree(Used(), lastAllocIndex * NBITS) && 0 < found == Min(n, RunEnd(Used(), start) - start)
    {
      ghost var b, s := Used(), lastAllocIndex * NBITS;
      var i := lastAllocIndex;
      while i < nIndexes
        invariant lastAllocIndex <= i && (i <= nIndexes || i == lastAllocIndex)
        invariant FirstFree(b, s) == FirstFree(b, Min(i * NBITS, nFrames))
      {
        var hit, j := ScanIndex(i);
        if hit {
          start := i * NBITS + j;
          ok, found := Extend(i, j, n);
          return;
        }
        i := i + 1;
      }
      return false, 0, 0;
    }

    method SetFrames(lo: nat, hi: nat, v: bool)
      requires Valid() && lo <= hi <= nFrames
      modifies bits
      ensures Valid() && Used() == Filled(old(Used()), lo, hi, v)
    {
      var i := lo;
      while i < hi
        invariant lo <= i <= hi
        invariant forall k :: 0 <= k < bits.Length ==> bits[k] == if lo <= k < i then v else old(bits[k])
      {
        bits[i] := v;
        i := i + 1;
      }
    }

    /** Up to `n` contiguous free frames, all of them marked used; fewer when a used frame cuts the first run short. */
    method FragmentedGetFrames(n: nat) returns (r: Frames)
      requires Valid()
      modifies this, bits
      ensures Valid()
      ensures n == 0 ==> r == Granted(0, 0)
      ensures n > 0 ==> (r.NoMemory? <==> old(GivesUp(Used(), lastAllocIndex * 32, n)))
      ensures n > 0 ==>
                var f, b := old(FirstFree(Used(), lastAllocIndex * 32)), old(Used());
                r.NoMemory? <==> nFrames - f < n && forall i :: f <= i < nFrames ==> !b[i]
      ensures r.NoMemory? || n == 0 ==> Used() == old(Used()) && lastAllocIndex == old(lastAllocIndex)
      ensures r.Granted? && n > 0 ==>
                && r.start == basePfn + old(FirstFree(Used(), lastAllocIndex * NBITS))
                && 0 < r.count == Min(n, RunEnd(old(Used()), r.start - basePfn) - (r.start - basePfn))
                && Used() == Filled(old(Used()), r.start - basePfn, r.start - basePfn + r.count, true)
                && lastAllocIndex == (r.start - basePfn + r.count) / 32
    {
      if n == 0 {
        return Granted(0, 0);
      }
      var ok, start, found := Search(n);
      if !ok {
        return NoMemory;
      }
      SetFrames(start, start + found, true);
      lastAllocIndex := (start + found) / NBITS;
      return Granted(basePfn + start, found);
    }

    /** The range test of releaseFrames compares a byte address with frame numbers. */
    predicate Accepts(frameAddr: nat, n: nat) {
      frameAddr <= EndPfn() || frameAddr / PAGE + n <= EndPfn()
    }

    predicate Inside(pfn: nat, n: nat) {
      basePfn <= pfn && pfn + n <= EndPfn() + 1
    }

    method ReleaseFrames(frameAddr: nat, n: nat) returns (r: Release)
      requires Valid()
      modifies this, bits
      ensures Valid()
      ensures r.NotMine? <==> n == 0 || (frameAddr > basePfn + nFrames - 1 && frameAddr / 4096 + n > basePfn + nFrames - 1)
      ensures r.Panicked? ==> frameAddr / 4096 < basePfn || frameAddr / 4096 + n > basePfn + nFrames
      ensures r.Released? ==> basePfn <= frameAddr / 4096 && frameAddr / 4096 + n <= basePfn + nFrames
      ensures r.NotMine? ==> Used() == old(Used()) && lastAllocIndex == old(lastAllocIndex)
      ensures r.Released? ==>
                var lo := frameAddr / PAGE - basePfn;
                Used() == Filled(old(Used()), lo, lo + n, false) && lastAllocIndex == lo / 32
      ensures r.Panicked? ==>
                var lo := frameAddr / PAGE - basePfn;
                Used() == Filled(old(Used()), if lo < 0 then nFrames else lo, nFrames, false) && lastAllocIndex == old(lastAllocIndex)
    {
      if n == 0 || !Accepts(frameAddr, n) {
        return NotMine;
      }
      var pfn := frameAddr / PAGE;
      if !Inside(pfn, n) {
        if basePfn <= pfn <= EndPfn() {
          SetFrames(pfn - basePfn, nFrames, false);
        }
        return Panicked;
      }
      SetFrames(pfn - basePfn, pfn - basePfn + n, false);
      lastAllocIndex := (pfn - basePfn) / NBITS;
      return Released;
    }

    /** Marks a range of memory; only the part of it that lies in the bitmap is touched. */
    method MapMem(addr: nat, n: nat, used: bool)
      requires Valid()
      modifies bits
      ensures Valid() && Used() == Filled(old(Used()), addr / PAGE - basePfn, addr / PAGE - basePfn + n, used)
    {
      var start := if addr >= baseAddr then addr / PAGE else basePfn;
      var end := addr / PAGE + n;
      if end > EndPfn() {
        end := EndPfn() + 1;
      }
      if start < end {
        SetFrames(start - basePfn, end - basePfn, used);
      }
      assert Used() == Filled(old(Used()), addr / PAGE - basePfn, addr / PAGE - basePfn + n, used);
    }
  }

  lemma {:induction false} AllUsed(b: seq<bool>, lo: nat, hi: nat)
    requires lo <= hi <= |b| && forall i :: lo <= i < hi ==> b[i]
    ensures FirstFree(b, lo) == FirstFree(b, hi)
    decreases hi - lo
  {
    if lo < hi {
      AllUsed(b, lo + 1, hi);
    }
  }

  /** A run of frames some caller holds. */
  datatype Run = Run(start: nat, count: nat)

  ghost predicate Marked(b: seq<bool>, run: Run) {
    0 < run.count && run.start + run.count <= |b| && forall i :: run.start <= i < run.start + run.count ==> b[i]
  }

  predicate Apart(x: Run, y: Run) {
    x.start + x.count <= y.start || y.start + y.count <= x.start
  }

  /** Every held run is marked used, and no frame has two holders. */
  ghost predicate Owned(b: seq<bool>, held: seq<Run>) {
    && (forall k :: 0 <= k < |held| ==> Marked(b, held[k]))
    && forall j, k :: 0 <= j < k < |held| ==> Apart(held[j], held[k])
  }

  lemma GrantKeeps(b: seq<bool>, held: seq<Run>, run: Run)
    requires Owned(b, held) && 0 < run.count && run.start + run.count <= |b|
    requires forall i :: run.start <= i < run.start + run.count ==> !b[i]
    ensures Owned(Filled(b, run.start, run.start + run.count, true), held + [run])
  {
    var more := held + [run];
    forall j, k | 0 <= j < k < |more|
      ensures Apart(more[j], more[k])
    {
      if k == |held| {
        var i := if held[j].start < run.start then run.start else held[j].start;
        assert Marked(b, held[j]);
        assert i < held[j].start + held[j].count ==> b[i];
        assert i < run.start + run.count ==> !b[i];
      }
    }
    forall k | 0 <= k < |more|
      ensures Marked(Filled(b, run.start, run.start + run.count, true), more[k])
    {
      if k < |held| {
        assert Marked(b, held[k]);
      }
    }
  }

  lemma ReleaseKeeps(b: seq<bool>, held: seq<Run>, k: nat)
    requires Owned(b, held) && k < |held|
    ensures Owned(Filled(b, held[k].start, held[k].start + held[k].count, false), held[..k] + held[k + 1..])
  {
    var less := held[..k] + held[k + 1..];
    var b2 := Filled(b, held[k].start, held[k].start + held[k].count, false);
    forall j | 0 <= j < |less|
      ensures Marked(b2, less[j])
    {
      var j0 := if j < k then j else j + 1;
      assert less[j] == held[j0] && Marked(b, held[j0]);
      assert if j0 < k then Apart(held[j0], held[k]) else Apart(held[k], held[j0]);
    }
    forall i, j | 0 <= i < j < |less|
      ensures Apart(less[i], less[j])
    {
      assert less[i] == held[if i < k then i else i + 1] && less[j] == held[if j < k then j else j + 1];
    }
  }

  ghost predicate Holds(held: seq<Run>, i: int) {
    exists k :: 0 <= k < |held| && held[k].start <= i < held[k].start + held[k].count
  }

  /** A frame is used exactly when it was used from the start or somebody holds it, and never both. */
  ghost predicate Accounted(b0: seq<bool>, b: seq<bool>, held: seq<Run>) {
    |b| == |b0| && forall i :: 0 <= i < |b| ==> (b[i] <==> b0[i] || Holds(held, i)) && !(b0[i] && Holds(held, i))
  }

  lemma GrantAccounts(b0: seq<bool>, b: seq<bool>, held: seq<Run>, run: Run)
    requires Accounted(b0, b, held) && run.start + run.count <= |b|
    requires forall i :: run.start <= i < run.start + run.count ==> !b[i]
    ensures Accounted(b0, Filled(b, run.start, run.start + run.count, true), held + [run])
  {
    var more := held + [run];
    forall i | 0 <= i < |b|
      ensures Holds(more, i) <==> Holds(held, i) || run.start <= i < run.start + run.count
    {
      assert more[|held|] == run && forall k :: 0 <= k < |held| ==> more[k] == held[k];
    }
  }

  lemma HoldsLess(held: seq<Run>, k: nat, i: int)
    requires k < |held| && forall j, l :: 0 <= j < l < |held| ==> Apart(held[j], held[l])
    ensures Holds(held[..k] + held[k + 1..], i) <==> Holds(held, i) && !(held[k].start <= i < held[k].start + held[k].count)
  {
    var run := held[k];
    if Holds(held, i) && !(run.start <= i < run.start + run.count) {
      StillHolds(held, k, i);
    }
    if Holds(held[..k] + held[k + 1..], i) {
      HeldElsewhere(held, k, i);
    }
  }

  lemma StillHolds(held: seq<Run>, k: nat, i: int)
    requires k < |held| && Holds(held, i) && !(held[k].start <= i < held[k].start + held[k].count)
    ensures Holds(held[..k] + held[k + 1..], i)
  {
    var less := held[..k] + held[k + 1..];
    var j :| 0 <= j < |held| && held[j].start <= i < held[j].start + held[j].count;
    assert less[if j < k then j else j - 1] == held[j];
  }

  lemma HeldElsewhere(held: seq<Run>, k: nat, i: int)
    requires k < |held| && forall j, l :: 0 <= j < l < |held| ==> Apart(held[j], held[l])
    requires Holds(held[..k] + held[k + 1..], i)
    ensures Holds(held, i) && !(held[k].start <= i < held[k].start + held[k].count)
  {
    var less := held[..k] + held[k + 1..];
    var j :| 0 <= j < |less| && less[j].start <= i < less[j].start + less[j].count;
    var j0 := if j < k then j else j + 1;
    assert less[j] == held[j0];
    assert if j0 < k then Apart(held[j0], held[k]) else Apart(held[k], held[j0]);
  }

  lemma ReleaseAccounts(b0: seq<bool>, b: seq<bool>, held: seq<Run>, k: nat)
    requires Accounted(b0, b, held) && Owned(b, held) && k < |held|
    ensures Accounted(b0, Filled(b, held[k].start, held[k].start + held[k].count, false), held[..k] + held[k + 1..])
  {
    forall i | 0 <= i < |b|
      ensures Holds(held[..k] + held[k + 1..], i) <==> Holds(held, i) && !(held[k].start <= i < held[k].start + held[k].count)
    {
      HoldsLess(held, k, i);
    }
  }

  datatype Op = Get(n: nat) | Put(k: nat)

  /** Any sequence of requests and releases of held runs: no frame has two holders, and none is lost. */
  method RunOps(bitmap: Bitmap, ops: seq<Op>) returns (held: seq<Run>)
    requires bitmap.Valid()
    modifies bitmap, bitmap.bits
    ensures bitmap.Valid() && Owned(bitmap.Used(), held) && Accounted(old(bitmap.Used()), bitmap.Used(), held)
  {
    held := [];
    ghost var b0 := bitmap.Used();
    for i := 0 to |ops|
      invariant bitmap.Valid() && Owned(bitmap.Used(), held) && Accounted(b0, bitmap.Used(), held)
    {
      match ops[i]
      case Get(n) => held := Grant(bitmap, n, held, b0);
      case Put(k) => held := GiveBack(bitmap, k, held, b0);
    }
  }

  method Grant(bitmap: Bitmap, n: nat, held: seq<Run>, ghost b0: seq<bool>) returns (more: seq<Run>)
    requires bitmap.Valid() && Owned(bitmap.Used(), held) && Accounted(b0, bitmap.Used(), held)
    modifies bitmap, bitmap.bits
    ensures bitmap.Valid() && Owned(bitmap.Used(), more) && Accounted(b0, bitmap.Used(), more)
    ensures more == held || (|more| == |held| + 1 && more[..|held|] == held && 0 < more[|held|].count <= n)
    ensures more == held <==> n == 0 || old(GivesUp(bitmap.Used(), bitmap.lastAllocIndex * NBITS, n))
  {
    ghost var b := bitmap.Used();
    var r := bitmap.FragmentedGetFrames(n);
    more := held;
    if r.Granted? && n > 0 {
      var run := Run(r.start - bitmap.basePfn, r.count);
      GrantKeeps(b, held, run);
      GrantAccounts(b0, b, held, run);
      more := held + [run];
    }
  }

  method GiveBack(bitmap: Bitmap, k: nat, held: seq<Run>, ghost b0: seq<bool>) returns (less: seq<Run>)
    requires bitmap.Valid() && Owned(bitmap.Used(), held) && Accounted(b0, bitmap.Used(), held)
    modifies bitmap, bitmap.bits
    ensures bitmap.Valid() && Owned(bitmap.Used(), less) && Accounted(b0, bitmap.Used(), less)
    ensures k < |held| ==>
              less == if bitmap.Accepts((bitmap.basePfn + held[k].start) * PAGE, held[k].count) then held[..k] + held[k + 1..] else held
  {
    ghost var b := bitmap.Used();
    less := held;
    if k < |held| {
      assert Marked(b, held[k]);
      GivesBack(bitmap, held[k]);
      var r := bitmap.ReleaseFrames((bitmap.basePfn + held[k].start) * PAGE, held[k].count);
      if r.Released? {
        ReleaseKeeps(b, held, k);
        ReleaseAccounts(b0, b, held, k);
        less := held[..k] + held[k + 1..];
      }
    }
  }

  lemma {:induction false} AllFree(b: seq<bool>, f: nat)
    requires f <= |b| && forall i :: 0 <= i < |b| ==> !b[i]
    ensures RunEnd(b, f) == |b|
    decreases |b| - f
  {
    if f < |b| {
      AllFree(b, f + 1);
    }
  }

  /** Takes the whole of a new bitmap and gives it back: refused, unless its byte address is no larger than its last frame's number. */
  method TakeAllGiveBack(frame: nat, frames: nat) returns (got: Frames, back: Release)
    requires frames > 0
    ensures got == Granted(frame, frames)
    ensures back == if frame * PAGE < frame + frames then Released else NotMine
  {
    var bitmap := new Bitmap(frame * PAGE, frames * PAGE);
    AllFree(bitmap.Used(), 0);
    got := bitmap.FragmentedGetFrames(frames);
    back := bitmap.ReleaseFrames(frame * PAGE, frames);
  }

  /** A held run is given back, and can be granted again, exactly when its end is below the last frame (or frame numbers are tiny). */
  lemma GivesBack(bitmap: Bitmap, run: Run)
    requires 0 < run.count && run.start + run.count <= bitmap.nFrames
    ensures var pfn := bitmap.basePfn + run.start;
            bitmap.Inside(pfn, run.count) && (bitmap.Accepts(pfn * PAGE, run.count) <==>
              run.start + run.count < bitmap.nFrames || pfn * PAGE <= bitmap.EndPfn())
  {
    assert (bitmap.basePfn + run.start) * PAGE / PAGE == bitmap.basePfn + run.start;
  }
}
