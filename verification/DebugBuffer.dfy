/** The kernel's scrolling debug log: a fixed list of pages that keeps the last characters written. */
module DebugBuffer {
  const PAGE_NCHARS: nat := 4092

  /** The last `cap` elements. */
  function Suffix<T>(s: seq<T>, cap: nat): (r: seq<T>)
    ensures |r| <= cap
  {
    if |s| <= cap then s else s[|s| - cap..]
  }

  /** What comes before the suffix makes up the sequence with it, and there is such a thing only if the suffix is full. */
  lemma SuffixMeans<T>(s: seq<T>, cap: nat) returns (lost: seq<T>)
    ensures s == lost + Suffix(s, cap) && (lost != [] ==> |Suffix(s, cap)| == cap)
  {
    lost := s[..|s| - |Suffix(s, cap)|];
  }

  /** Forgetting early or late makes no difference. */
  lemma SuffixSuffix<T>(a: seq<T>, b: seq<T>, cap: nat)
    ensures Suffix(Suffix(a, cap) + b, cap) == Suffix(a + b, cap)
  {
    var kept := Suffix(a, cap);
    if |a| > cap && |kept + b| > cap {
      assert (a + b)[|a + b| - cap..] == (kept + b)[|kept + b| - cap..];
    }
  }

  /**
   * A write that would end `total` characters past the start of the first page: its last scroll, of what is left
   * after full rounds of `cap`, is by a whole number of pages but not by all of them.
   */
  predicate ScrollsByPages(total: nat, cap: nat)
    requires cap > 0
  {
    if total <= cap then false
    else if total - cap < cap then (total - cap) % PAGE_NCHARS == 0
    else ScrollsByPages(total - cap, cap)
  }

  /** In one piece: the write runs over, and what is left after full rounds is a whole number of pages, not none. */
  lemma {:induction false} ScrollsIff(total: nat, cap: nat)
    requires cap > 0
    ensures ScrollsByPages(total, cap) <==> total > cap && total % cap != 0 && (total % cap) % 4092 == 0
    decreases total
  {
    if total > cap {
      RoundOff(total, cap);
      if total - cap >= cap {
        ScrollsIff(total - cap, cap);
      }
    }
  }

  lemma RoundOff(total: nat, cap: nat)
    requires total > cap > 0
    ensures (total - cap) % cap == total % cap
    ensures total - cap < cap ==> total % cap == total - cap
    ensures total == 2 * cap ==> total % cap == 0
  {
    Remainder(total, total - cap, 1, cap);
    if total == 2 * cap {
      Remainder(total, 0, 2, cap);
    }
  }

  lemma Remainder(x: nat, y: nat, k: int, cap: nat)
    requires cap > 0 && x == y + k * cap
    ensures x % cap == y % cap
  {
    var qx, qy := x / cap, y / cap;
    var d := qx - qy - k;
    assert x == qx * cap + x % cap && y == qy * cap + y % cap;
    assert d * cap == qx * cap - qy * cap - k * cap;
    if d > 0 {
      Multiple(d, cap);
    } else if d < 0 {
      Multiple(-d, cap);
    }
  }

  lemma {:induction false} Multiple(d: int, cap: int)
    requires d > 0 && cap > 0
    ensures d * cap >= cap
    decreases d
  {
    if d > 1 {
      Multiple(d - 1, cap);
      assert d * cap == (d - 1) * cap + cap;
    }
  }

  class Buffer {
    const nPages: nat
    const data: array2<char>
    var cur: nat
    var index: nat
    /** All pages, end to end. */
    ghost var flat: seq<char>

    ghost predicate Valid()
      reads this, data
    {
      && nPages > 0 && data.Length0 == nPages && data.Length1 == PAGE_NCHARS
      && cur < nPages && index <= PAGE_NCHARS
      && Mirrors(flat)
    }

    /** The pages hold `all`. */
    ghost predicate Mirrors(all: seq<char>)
      requires data.Length0 == nPages && data.Length1 == PAGE_NCHARS
      reads data
    {
      && |all| == nPages * PAGE_NCHARS
      && forall p, i :: 0 <= p < nPages && 0 <= i < PAGE_NCHARS ==> data[p, i] == all[p * PAGE_NCHARS + i]
    }

    function Capacity(): nat {
      nPages * PAGE_NCHARS
    }

    function Position(): nat
      reads this
    {
      cur * PAGE_NCHARS + index
    }

    ghost function Contents(): seq<char>
      requires Valid()
      reads this, data
    {
      flat[..Position()]
    }

    constructor (n: nat)
      requires n > 0
      ensures Valid() && nPages == n && Contents() == [] && fresh(data)
    {
      nPages := n;
      data := new char[n, PAGE_NCHARS]((p, i) => ' ');
      cur, index := 0, 0;
      flat := seq(n * PAGE_NCHARS, i => ' ');
    }

    /** `all` shifted left by `len`, as far as flat position `d`. */
    ghost predicate ShiftedTo(all: seq<char>, len: nat, d: nat)
      requires data.Length0 == nPages && data.Length1 == PAGE_NCHARS
      reads data
    {
      && |all| == nPages * PAGE_NCHARS && d + len <= |all|
      && (forall p, i :: 0 <= p < nPages && 0 <= i < PAGE_NCHARS && p * PAGE_NCHARS + i < d
                         ==> data[p, i] == all[p * PAGE_NCHARS + i + len])
      && (forall p, i :: 0 <= p < nPages && 0 <= i < PAGE_NCHARS && d <= p * PAGE_NCHARS + i
                         ==> data[p, i] == all[p * PAGE_NCHARS + i])
    }

    /** One of the copy loops: `n` characters from one page down to the place the shift has reached. */
    method CopyDown(to: nat, toFrom: nat, from: nat, fromFrom: nat, n: nat, ghost all: seq<char>, ghost len: nat)
      requires data.Length0 == nPages && data.Length1 == PAGE_NCHARS && 0 < len
      requires to < nPages && from < nPages && toFrom + n <= PAGE_NCHARS && fromFrom + n <= PAGE_NCHARS
      requires to * PAGE_NCHARS + toFrom + len == from * PAGE_NCHARS + fromFrom
      requires ShiftedTo(all, len, to * PAGE_NCHARS + toFrom)
      modifies data
      ensures ShiftedTo(all, len, to * PAGE_NCHARS + toFrom + n)
    {
      var k := 0;
      while k < n
        invariant 0 <= k <= n && ShiftedTo(all, len, to * PAGE_NCHARS + toFrom + k)
      {
        data[to, toFrom + k] := data[from, fromFrom + k];
        k := k + 1;
      }
    }

    /** The in-place shift of all pages by `len` characters; the write position comes back in `c` and `i`. */
    method Scroll(len: nat) returns (c: nat, i: nat)
      requires Valid() && 0 < len
      modifies `flat, data
      ensures flat == old(if len >= Capacity() then flat else flat[len..] + flat[Capacity() - len..])
      ensures Mirrors(flat) && c < nPages && i <= PAGE_NCHARS
      ensures c * PAGE_NCHARS + i == if len >= Capacity() then 0 else Capacity() - len
      ensures len < Capacity() ==> (i == PAGE_NCHARS <==> len % PAGE_NCHARS == 0)
    {
      if len >= Capacity() {
        return 0, 0;
      }
      ghost var all := flat;
      var wholePages, excess := len / PAGE_NCHARS, len % PAGE_NCHARS;
      var bound := PAGE_NCHARS - excess;
      var to, from := 0, wholePages;
      CopyDown(to, 0, from, excess, bound, all, len);
      from := from + 1;
      while from < nPages
        invariant from == to + wholePages + 1 <= nPages
        invariant ShiftedTo(all, len, to * PAGE_NCHARS + bound)
      {
        CopyDown(to, bound, from, 0, excess, all, len);
        to := to + 1;
        CopyDown(to, 0, from, excess, bound, all, len);
        from := from + 1;
      }
      flat := all[len..] + all[Capacity() - len..];
      return to, bound;
    }

    /** Finds the place for the next of `len` characters; fails if that place is off the end of its page. */
    method MakeRoom(len: nat) returns (ok: bool)
      requires Valid() && 0 < len
      modifies this, data
      ensures Valid() && ok == (index < PAGE_NCHARS)
      ensures ok == !(old(Position()) == Capacity() && len < Capacity() && len % PAGE_NCHARS == 0)
      ensures Contents() == old(if Position() < Capacity() then Contents() else if len >= Capacity() then [] else Contents()[len..])
    {
      if index >= PAGE_NCHARS {
        if cur + 1 < nPages {
          cur, index := cur + 1, 0;
        } else {
          cur, index := Scroll(len);
        }
      }
      ok := index < PAGE_NCHARS;
    }

    method Put(c: char)
      requires Valid() && index < PAGE_NCHARS
      modifies this, data
      ensures Valid() && Contents() == old(Contents()) + [c]
    {
      data[cur, index] := c;
      flat := flat[Position() := c];
      index := index + 1;
    }

    /** One character of a write that still has `rest` to go; `ok` is false when it would go past the end of its page. */
    method WriteChar(ghost rest: seq<char>, c: char, len: nat) returns (ok: bool)
      requires Valid() && len == |rest| > 0 && c == rest[0]
      modifies this, data
      ensures Valid()
      ensures !ok ==> ScrollsByPages(old(Position()) + len, Capacity())
      ensures ok ==> Suffix(Contents() + rest[1..], Capacity()) == Suffix(old(Contents()) + rest, Capacity())
      ensures ok ==> ScrollsByPages(Position() + len - 1, Capacity()) == ScrollsByPages(old(Position()) + len, Capacity())
    {
      ghost var before := Contents();
      ok := MakeRoom(len);
      ghost var now := Contents();
      RoomKeeps(before, now, rest, Capacity());
      RoomScrolls(|before|, |now|, len, Capacity());
      if ok {
        Put(c);
        assert now + rest == Contents() + rest[1..];
      }
    }

    /**
     * Appends `str`, forgetting the oldest characters. `ok` is false when a character would go past the end of
     * its page; what the log then holds is not modelled.
     */
    method Write(str: seq<char>) returns (ok: bool)
      requires Valid()
      modifies this, data
      ensures Valid()
      ensures ok == !ScrollsByPages(old(Position()) + |str|, Capacity())
      ensures ok ==> Contents() == Suffix(old(Contents()) + str, Capacity())
    {
      ghost var cap := Capacity();
      ghost var kept, over := Suffix(Contents() + str, cap), ScrollsByPages(Position() + |str|, cap);
      ghost var rest := str;
      var k := 0;
      while k < |str|
        invariant 0 <= k <= |str| && Valid() && rest == str[k..]
        invariant Suffix(Contents() + rest, cap) == kept && ScrollsByPages(Position() + (|str| - k), cap) == over
      {
        ok := WriteChar(rest, str[k], |str| - k);
        if !ok {
          return;
        }
        assert rest[1..] == str[k + 1..];
        rest, k := rest[1..], k + 1;
      }
      ok := true;
      assert rest == [];
      WholeFits(Contents(), rest, cap);
    }

    /** The piece behind `handle`, and the handle for the next one. */
    method Extract(handle: nat) returns (piece: seq<char>, next: nat)
      requires Valid() && handle <= cur
      ensures if handle == cur then next == nPages && |piece| == index else next == handle + 1 && |piece| == PAGE_NCHARS
      ensures piece == Contents()[handle * PAGE_NCHARS..handle * PAGE_NCHARS + |piece|]
    {
      next := if handle == cur then nPages else handle + 1;
      piece := seq(if handle == cur then index else PAGE_NCHARS,
                   i requires 0 <= i < PAGE_NCHARS reads this, data requires Valid() && handle <= cur => data[handle, i]);
      ghost var lo := handle * PAGE_NCHARS;
      assert lo + |piece| <= Position() <= |flat|;
      forall i | 0 <= i < |piece|
        ensures piece[i] == Contents()[lo..lo + |piece|][i]
      {
        assert data[handle, i] == flat[lo + i];
      }
    }

    /** A reader that follows the handles gets the whole log. */
    method ReadAll() returns (all: seq<char>)
      requires Valid()
      ensures all == Contents()
    {
      var handle, piece := 0, [];
      all := [];
      while handle < nPages
        invariant handle <= cur || handle == nPages
        invariant all == if handle <= cur then Contents()[..handle * PAGE_NCHARS] else Contents()
        decreases nPages - handle
      {
        piece, handle := Extract(handle);
        all := all + piece;
      }
    }
  }

  /** Making room never loses anything that the log would keep. */
  lemma RoomKeeps<T>(before: seq<T>, now: seq<T>, rest: seq<T>, cap: nat)
    requires |before| <= cap && 0 < |rest|
    requires now == if |before| < cap then before else if |rest| >= cap then [] else before[|rest|..]
    ensures Suffix(now + rest, cap) == Suffix(before + rest, cap)
  {
    if |before| == cap && |rest| < cap {
      assert now + rest == (before + rest)[|rest|..];
    } else if |before| == cap {
      assert now + rest == rest && (before + rest)[|rest|..] == rest[|rest| - cap..];
    }
  }

  /** Whether a write scrolls by whole pages shows when its last scroll comes, and not before. */
  lemma RoomScrolls(before: nat, now: nat, len: nat, cap: nat)
    requires before <= cap && 0 < len && cap > 0
    requires now == if before < cap then before else if len >= cap then 0 else cap - len
    ensures before == cap && len < cap ==> ScrollsByPages(before + len, cap) == (len % PAGE_NCHARS == 0)
    ensures before < cap || len >= cap || len % PAGE_NCHARS != 0 ==>
              ScrollsByPages(now + len, cap) == ScrollsByPages(before + len, cap)
  {
    assert before == cap ==> before + len - cap == len;
  }

  lemma WholeFits<T>(log: seq<T>, rest: seq<T>, cap: nat)
    requires rest == [] && |log| <= cap && cap > 0
    ensures Suffix(log + rest, cap) == log && !ScrollsByPages(|log|, cap)
  {
    assert log + rest == log;
  }

  /** A full log of two or more pages, and a write of one page. */
  lemma OnePageIntoFullLog(nPages: nat)
    requires nPages >= 2
    ensures ScrollsByPages(nPages * PAGE_NCHARS + PAGE_NCHARS, nPages * PAGE_NCHARS)
  {
    assert nPages * PAGE_NCHARS + PAGE_NCHARS - nPages * PAGE_NCHARS == PAGE_NCHARS;
  }

  /** Everything a sequence of writes put in. */
  function Joined(strs: seq<seq<char>>): seq<char> {
    if strs == [] then [] else Joined(strs[..|strs| - 1]) + strs[|strs| - 1]
  }

  /** Write `k` of `strs`, made after the others before it, stays on its pages. */
  ghost predicate Stays(strs: seq<seq<char>>, k: nat, cap: nat)
    requires k < |strs| && cap > 0
  {
    !ScrollsByPages(|Suffix(Joined(strs[..k]), cap)| + |strs[k]|, cap)
  }

  /** Any number of writes: the log is the last characters of all of them, up to its capacity. */
  method WriteAll(log: Buffer, strs: seq<seq<char>>) returns (ok: bool)
    requires log.Valid() && log.Contents() == []
    modifies log, log.data
    ensures log.Valid() && (ok ==> log.Contents() == Suffix(Joined(strs), log.Capacity()))
    ensures ok <==> forall k :: 0 <= k < |strs| ==> Stays(strs, k, log.Capacity())
  {
    var k := 0;
    ok := true;
    while k < |strs|
      invariant 0 <= k <= |strs| && log.Valid() && ok && log.Contents() == Suffix(Joined(strs[..k]), log.Capacity())
      invariant forall j :: 0 <= j < k ==> Stays(strs, j, log.Capacity())
    {
      ok := log.Write(strs[k]);
      assert ok == Stays(strs, k, log.Capacity());
      if !ok {
        return;
      }
      assert strs[..k + 1][..k] == strs[..k];
      SuffixSuffix(Joined(strs[..k]), strs[k], log.Capacity());
      k := k + 1;
    }
    assert strs[..k] == strs;
  }
}
