/** Channel calls: a control block and the objects it points to, copied into a message and out again. */
module Marshal {
  import opened Layout
  import opened Delivery
  import opened Elements
  import opened Wrappers

  method StorePointer(mem: array<Byte>, p: nat, v: nat)
    requires p + WORD <= mem.Length < 0x1_0000_0000 && v < 0x1_0000_0000
    modifies mem
    ensures Stored(old(mem[..]), mem[..], p, v)
  {
    mem[p] := (v % 256) as Byte;
    mem[p + 1] := (v / 256 % 256) as Byte;
    mem[p + 2] := (v / 256 / 256 % 256) as Byte;
    mem[p + 3] := (v / 256 / 256 / 256) as Byte;
    DecodeWord(mem[..], p, v);
  }

  method Memcpy(mem: array<Byte>, dest: nat, src: nat, n: nat)
    requires dest + n <= mem.Length < 0x1_0000_0000 && src + n <= mem.Length
    requires dest + n <= src || src + n <= dest
    modifies mem
    ensures Copied(old(mem[..]), mem[..], dest, src, n)
  {
    var k := 0;
    while k < n
      invariant 0 <= k <= n
      invariant forall i :: dest <= i < dest + k ==> mem[i] == old(mem[src + (i - dest)])
      invariant forall i :: 0 <= i < mem.Length && !(dest <= i < dest + k) ==> mem[i] == old(mem[i])
    {
      mem[dest + k] := mem[src + k];
      k := k + 1;
    }
  }

  /** The size switch shared by the walkers. */
  method ObjectBytes(mem: array<Byte>, lay: Layout, drv: Option<Layout>, i: nat, p: nat, ghost off: nat) returns (n: int)
    requires i < |lay| && IsInlineElement(lay[i])
    ensures n == ObjectSize(mem[..], p, SlotAt(lay, drv, i, off))
  {
    if lay[i] == INLINE_TYPED {
      n := GetSize(lay, i + 1, false);
    } else if lay[i] == MOVABLE_TYPED {
      n := GetSize(lay, i + 1, false);
      n := n + MOVABLE_HDR;
    } else if lay[i] == INLINE_DRIVER_TYPED {
      n := GetOptionalSize(drv);
    } else {
      n := if p != 0 then Load(mem[..], p - WORD) + MOVABLE_HDR else 0;
    }
  }

  /** What one pointer adds to the measure. */
  method ObjectSpace(mem: array<Byte>, lay: Layout, drv: Option<Layout>, i: nat, off: nat, srcCb8: nat, ghost todo: seq<Slot>)
    returns (n: int)
    requires mem.Length < 0x1_0000_0000 && i < |lay| && IsInlineElement(lay[i])
    requires todo != [] && todo[0] == SlotAt(lay, drv, i, off)
    ensures Measure(mem[..], srcCb8, todo) == if n < 0 then n else Plus(n, Measure(mem[..], srcCb8, todo[1..]))
  {
    var p := Load(mem[..], srcCb8 + off);
    n := ObjectBytes(mem, lay, drv, i, p, off);
    if n >= 0 && p == 0 {
      n := 0;
    }
  }

  method GetTotalMarshalSpaceInlineRequirements(mem: array<Byte>, lay: Layout, drv: Option<Layout>, srcCb8: nat)
    returns (r: int)
    requires mem.Length < 0x1_0000_0000
    ensures r == Measure(mem[..], srcCb8, Slots(lay, drv, 0, 0))
  {
    ghost var m: Memory := mem[..];
    ghost var todo := Slots(lay, drv, 0, 0);
    ghost var total := Measure(m, srcCb8, todo);
    var i: nat, off: nat := 0, 0;
    r := 0;
    while At(lay, i) != END
      invariant r >= 0 && Meets(lay, drv, i, off, todo)
      invariant total == Plus(r, Measure(m, srcCb8, todo))
      decreases |lay| - i
    {
      var skip, at, after, rest := NextElement(lay, drv, i, off, todo);
      if skip == 0 {
        return ERROR_INVALID_FORMAT;
      }
      if IsInlineElement(lay[i]) {
        var n := ObjectSpace(mem, lay, drv, i, at, srcCb8, todo);
        if n < 0 {
          return n;
        }
        r := r + n;
      }
      i, off, todo := i + skip, after, rest;
    }
    MeetsNothing(lay, drv, i, off, todo);
  }

  /** One object into the marshal space at `dest`, and its new address into the destination control block. */
  method PassObject(mem: array<Byte>, ghost s: Slot, off: nat, hdr: nat, p: nat, n: int, dest: nat, ghost j: Job, destCb8: nat)
    returns (next: nat)
    requires mem.Length < 0x1_0000_0000 && destCb8 == j.dcb8
    requires !s.Malformed? && s.off == off && Hdr(s) == hdr && Clear(mem[..], j.scb8, s, j.lo, j.hi)
    requires p == Load(mem[..], j.scb8 + off) && n == ObjectSize(mem[..], p, s) >= 0
    requires j.lo <= destCb8 && destCb8 + off + WORD <= dest && dest + Room(mem[..], j.scb8, s) <= j.hi <= mem.Length
    modifies mem
    ensures Passed(old(mem[..]), j.scb8, mem[..], destCb8, s, dest, next)
    ensures WritesOne(old(mem[..]), mem[..], s, destCb8, dest, next)
  {
    if p == 0 {
      StorePointer(mem, destCb8 + off, 0);
      return dest;
    }
    Memcpy(mem, dest, p - hdr, n);
    ghost var copied: Memory := mem[..];
    StorePointer(mem, destCb8 + off, dest + hdr);
    PassedByCopy(old(mem[..]), copied, mem[..], s, p, dest, j);
    return dest + n;
  }

  /** The body of the marshalling loop for one pointer element. */
  method MarshalElement(mem: array<Byte>, lay: Layout, drv: Option<Layout>, i: nat, off: nat, dest: nat, srcCb8: nat, destCb8: nat,
                        ghost w: Walk)
    returns (next: nat)
    requires mem.Length < 0x1_0000_0000 && i < |lay| && IsInlineElement(lay[i]) && w.j.scb8 == srcCb8 && w.j.dcb8 == destCb8
    requires Progress(w, mem[..]) && w.todo != [] && w.todo[0] == SlotAt(lay, drv, i, off) && dest == w.Dest()
    modifies mem
    ensures Progress(w.Next(next), mem[..])
  {
    ghost var m1: Memory := mem[..];
    ProgressHead(w, m1);
    var p := Load(mem[..], srcCb8 + off);
    var n := ObjectBytes(mem, lay, drv, i, p, off);
    var movable := lay[i] == MOVABLE_UNTYPED || lay[i] == MOVABLE_TYPED;
    next := PassObject(mem, w.todo[0], off, if movable then MOVABLE_HDR else 0, p, n, dest, w.j, destCb8);
    ProgressStep(w, m1, mem[..], next);
  }

  /** One element of the layout; one that could be measured has no malformed element. */
  method MarshalStep(mem: array<Byte>, lay: Layout, drv: Option<Layout>, i: nat, off: nat, dest: nat, srcCb8: nat, destCb8: nat,
                     ghost w: Walk)
    returns (i2: nat, off2: nat, dest2: nat, ghost w2: Walk)
    requires mem.Length < 0x1_0000_0000 && w.j.scb8 == srcCb8 && w.j.dcb8 == destCb8
    requires Reached(w, mem[..], lay, drv, i, off, dest) && At(lay, i) != END
    modifies mem
    ensures Reached(w2, mem[..], lay, drv, i2, off2, dest2) && i < i2
    ensures w2.m == w.m && w2.slots == w.slots && w2.end == w.end && w2.j == w.j && w2.ats[0] == w.ats[0]
  {
    var skip, at, after, rest := NextElement(lay, drv, i, off, w.todo);
    assert skip > 0;
    dest2, w2 := dest, w;
    if IsInlineElement(lay[i]) {
      dest2 := MarshalElement(mem, lay, drv, i, at, dest, srcCb8, destCb8, w);
      w2 := w.Next(dest2);
    }
    i2, off2 := i + skip, after;
  }

  /** A block that has been measured is marshalled into exactly the measured bytes. */
  method MarshalInlineObjects(mem: array<Byte>, dest0: nat, destCb8: nat, srcCb8: nat, lay: Layout, drv: Option<Layout>,
                              ghost slots: seq<Slot>, ghost end: nat, ghost j: Job)
    returns (ghost ats: seq<nat>)
    requires mem.Length < 0x1_0000_0000 && j.scb8 == srcCb8 && j.dcb8 == destCb8
    requires Meets(lay, drv, 0, 0, slots) && Ahead(mem[..], slots, 0, dest0, end, j)
    modifies mem
    ensures Delivered(old(mem[..]), srcCb8, mem[..], destCb8, slots, ats)
    ensures ats[0] == dest0 && ats[|slots|] == end
    ensures OnlyWrites(old(mem[..]), mem[..], slots, destCb8, dest0, end)
    ensures Agree(old(mem[..]), mem[..], j.lo, j.hi)
  {
    ghost var w := Walk(mem[..], slots, [], slots, 0, [dest0], end, j);
    ProgressStart(mem[..], slots, dest0, end, j);
    var i: nat, off: nat, dest := 0, 0, dest0;
    while At(lay, i) != END
      invariant Reached(w, mem[..], lay, drv, i, off, dest)
      invariant w.m == old(mem[..]) && w.slots == slots && w.end == end && w.j == j && w.ats[0] == dest0
      decreases |lay| - i
    {
      i, off, dest, w := MarshalStep(mem, lay, drv, i, off, dest, srcCb8, destCb8, w);
    }
    MeetsNothing(lay, drv, i, off, w.todo);
    ProgressEnd(w, mem[..]);
    ats := w.ats;
  }

  /** The generic and visible parts, copied in two pieces. */
  method CopyBlock(mem: array<Byte>, dest: nat, src: nat, vis: nat)
    requires dest + CB + vis <= mem.Length < 0x1_0000_0000 && src + CB + vis <= mem.Length
    requires dest + CB + vis <= src || src + CB + vis <= dest
    modifies mem
    ensures Copied(old(mem[..]), mem[..], dest, src, CB + vis)
  {
    Memcpy(mem, dest, src, CB);
    Memcpy(mem, dest + CB, src + CB, vis);
  }

  method GetSizes(mem: array<Byte>, cb: nat, visible: Layout, marshal: Layout, drv: Option<Layout>) returns (vis: int, mar: int, inl: int)
    requires mem.Length < 0x1_0000_0000
    ensures (vis, mar, inl) == Sizes(mem[..], cb, visible, marshal, drv)
  {
    vis := GetSize(visible, 0, true);
    mar := GetSize(marshal, 0, false);
    inl := GetTotalMarshalSpaceInlineRequirements(mem, visible, drv, cb + CB);
  }

  /** The generic and visible parts go first. */
  method SendBlock(mem: array<Byte>, gcb: nat, data: nat, vis: nat, ghost slots: seq<Slot>, ghost dest: nat, ghost end: nat, ghost j: Job)
    requires mem.Length < 0x1_0000_0000 && data + CB + vis <= dest && j == Job(gcb + CB, data + CB, vis, data, end)
    requires Fit(slots, 0, vis) && 0 <= Measure(mem[..], gcb + CB, slots) == end - dest
    requires Fresh(mem[..], gcb, slots, vis, data, end)
    modifies mem
    ensures Copied(old(mem[..]), mem[..], data, gcb, CB + vis) && Agree(old(mem[..]), mem[..], data, end)
    ensures Ahead(mem[..], slots, 0, dest, end, j)
  {
    CopyBlock(mem, data, gcb, vis);
    SendAhead(old(mem[..]), mem[..], gcb, data, slots, dest, end, j);
  }

  /** The copying half of a send, once the sizes are known to be good. */
  method SendSized(mem: array<Byte>, gcb: nat, data: nat, visible: Layout, drv: Option<Layout>, vis: nat, dest: nat,
                   ghost end: nat, ghost slots: seq<Slot>)
    returns (ghost ats: seq<nat>)
    requires mem.Length < 0x1_0000_0000 && data + CB + vis <= dest && Meets(visible, drv, 0, 0, slots)
    requires Fit(slots, 0, vis) && 0 <= Measure(mem[..], gcb + CB, slots) == end - dest
    requires Fresh(mem[..], gcb, slots, vis, data, end)
    modifies mem
    ensures Agree(old(mem[..]), mem[..], data, end)
    ensures Replica(old(mem[..]), gcb, mem[..], data, slots, vis, ats, dest, end)
  {
    ghost var j := Job(gcb + CB, data + CB, vis, data, end);
    SendBlock(mem, gcb, data, vis, slots, dest, end, j);
    ghost var m1: Memory := mem[..];
    ats := MarshalInlineObjects(mem, dest, data + CB, gcb + CB, visible, drv, slots, end, j);
    Sent(old(mem[..]), m1, mem[..], gcb, data, slots, vis, ats, dest, end);
    AgreeVia(old(mem[..]), m1, mem[..], data, end);
  }

  /** The sending half of a channel call: the control block at `gcb` into the message payload at `data`. */
  method Send(mem: array<Byte>, gcb: nat, data: nat, visible: Layout, marshal: Layout, drv: Option<Layout>)
    returns (status: int, ghost ats: seq<nat>)
    requires mem.Length < 0x1_0000_0000
    requires var (vis, mar, inl) := Sizes(mem[..], gcb, visible, marshal, drv);
             vis >= 0 && mar >= 0 && inl >= 0 ==>
               Fresh(mem[..], gcb, Slots(visible, drv, 0, 0), vis, data, data + CB + vis + mar + inl)
    modifies mem
    ensures var (vis, mar, inl) := old(Sizes(mem[..], gcb, visible, marshal, drv));
            if vis < 0 || mar < 0 || inl < 0 then status == ERROR_INVALID_FORMAT && mem[..] == old(mem[..])
            else
              var from := data + CB + vis + mar;
              && status == 0 && Agree(old(mem[..]), mem[..], data, from + inl)
              && Replica(old(mem[..]), gcb, mem[..], data, Slots(visible, drv, 0, 0), vis, ats, from, from + inl)
  {
    var vis, mar, inl := GetSizes(mem, gcb, visible, marshal, drv);
    if vis < 0 || mar < 0 || inl < 0 {
      return ERROR_INVALID_FORMAT, [];
    }
    SlotsFit(visible, drv, 0, 0);
    var dest: nat := data + CB + vis + mar;
    ats := SendSized(mem, gcb, data, visible, drv, vis, dest, dest + inl, Slots(visible, drv, 0, 0));
    status := 0;
  }

  method CloneSized(mem: array<Byte>, data: nat, clone: nat, vis: nat, mar: nat, inl: nat)
    requires mem.Length < 0x1_0000_0000
    requires data + CB + vis + mar + inl <= mem.Length && clone + CB + vis + inl <= mem.Length
    requires clone + CB + vis + inl <= data || data + CB + vis + mar + inl <= clone
    modifies mem
    ensures CopyOfMessage(old(mem[..]), mem[..], data, clone, vis, mar, inl)
  {
    CopyBlock(mem, clone, data, vis);
    ghost var m1: Memory := mem[..];
    Memcpy(mem, clone + CB + vis, data + CB + vis + mar, inl);
    Cloned(old(mem[..]), m1, mem[..], data, clone, vis, mar, inl);
  }

  /** The receiver's copy of the message: generic and visible parts, then the inline objects, without the arguments. */
  method CalleeCloneCb(mem: array<Byte>, data: nat, clone: nat, visible: Layout, marshal: Layout, drv: Option<Layout>)
    returns (ok: bool)
    requires mem.Length < 0x1_0000_0000
    requires var (vis, mar, inl) := Sizes(mem[..], data, visible, marshal, drv);
             vis >= 0 && mar >= 0 && inl >= 0 ==>
               && data + CB + vis + mar + inl <= mem.Length && clone + CB + vis + inl <= mem.Length
               && (clone + CB + vis + inl <= data || data + CB + vis + mar + inl <= clone)
    modifies mem
    ensures var (vis, mar, inl) := old(Sizes(mem[..], data, visible, marshal, drv));
            ok == (vis >= 0 && mar >= 0 && inl >= 0) &&
            if ok then CopyOfMessage(old(mem[..]), mem[..], data, clone, vis, mar, inl) else mem[..] == old(mem[..])
  {
    var vis, mar, inl := GetSizes(mem, data, visible, marshal, drv);
    ok := vis >= 0 && mar >= 0 && inl >= 0;
    if ok {
      CloneSized(mem, data, clone, vis, mar, inl);
    }
  }

  /** The loop body for one pointer: its address moves from the message to the clone. */
  method UpdatePointer(mem: array<Byte>, off: nat, cb: nat, mcb: nat, mar: nat,
                       ghost u: Update, ghost done: seq<Slot>, ghost todo: seq<Slot>, ghost a: nat)
    requires mem.Length < 0x1_0000_0000 && Between(u, cb, mcb, mar) && cb + CB + u.vis <= mem.Length
    requires todo != [] && !todo[0].Malformed? && todo[0].off == off && Updated(u, mem[..], done, todo, a)
    modifies mem
    ensures Updated(u, mem[..], done + [todo[0]], todo[1..], off + WORD)
  {
    UpdatedHead(u, mem[..], done, todo, a);
    var q := Load(mem[..], mcb + CB + off);
    var v := if q == 0 then 0 else cb - mar + (q - mcb);
    assert v == MovedTo(q, u.from, u.to);
    StorePointer(mem, cb + CB + off, v);
    UpdatedStep(u, old(mem[..]), mem[..], done, todo, a, v);
  }

  /** The update of a clone at `cb` from a message at `mcb` with `mar` bytes of arguments. */
  ghost predicate Between(u: Update, cb: nat, mcb: nat, mar: nat) {
    && u.mcb8 == mcb + CB && u.cb8 == cb + CB && u.from == mcb + mar && u.to == cb
    && (u.cb8 + u.vis <= u.mcb8 || u.mcb8 + u.vis <= u.cb8)
  }

  /** One element of the layout; a clone's layout has been measured, so it has no malformed element. */
  method UpdateStep(mem: array<Byte>, visible: Layout, ghost drv: Option<Layout>, i: nat, off: nat, cb: nat, mcb: nat, mar: nat,
                    ghost u: Update, ghost done: seq<Slot>, ghost todo: seq<Slot>, ghost a: nat)
    returns (i2: nat, off2: nat, ghost done2: seq<Slot>, ghost todo2: seq<Slot>, ghost a2: nat)
    requires mem.Length < 0x1_0000_0000 && Between(u, cb, mcb, mar) && cb + CB + u.vis <= mem.Length
    requires Meets(visible, drv, i, off, todo) && At(visible, i) != END && Updated(u, mem[..], done, todo, a)
    modifies mem
    ensures Updated(u, mem[..], done2, todo2, a2)
    ensures done2 + todo2 == done + todo && Meets(visible, drv, i2, off2, todo2) && i < i2
  {
    var skip, at, after, rest := NextElement(visible, drv, i, off, todo);
    assert skip > 0;
    i2, off2, done2, todo2, a2 := i + skip, after, done, rest, a;
    if IsInlineElement(visible[i]) {
      UpdatePointer(mem, at, cb, mcb, mar, u, done, todo, a);
      Shift(done, todo);
      done2, a2 := done + [todo[0]], at + WORD;
    }
  }

  method UpdatePointers(mem: array<Byte>, cb: nat, mcb: nat, visible: Layout, mar: nat,
                        ghost drv: Option<Layout>, ghost vis: nat, ghost slots: seq<Slot>)
    requires mem.Length < 0x1_0000_0000 && cb + CB + vis <= mem.Length
    requires cb + CB + vis <= mcb || mcb + CB + vis <= cb
    requires Meets(visible, drv, 0, 0, slots) && Fit(slots, 0, vis)
    requires CanMove(mem[..], mcb + CB, slots, mcb + mar, cb)
    modifies mem
    ensures AllMoved(old(mem[..]), mcb + CB, mem[..], cb + CB, slots, mcb + mar, cb)
    ensures OnlyWrites(old(mem[..]), mem[..], slots, cb + CB, 0, 0)
  {
    ghost var u := Update(mem[..], mcb + CB, cb + CB, vis, mcb + mar, cb);
    ghost var done, todo, a: nat := [], slots, 0;
    var i: nat, off: nat := 0, 0;
    while At(visible, i) != END
      invariant slots == done + todo && Meets(visible, drv, i, off, todo) && Updated(u, mem[..], done, todo, a)
      decreases |visible| - i
    {
      i, off, done, todo, a := UpdateStep(mem, visible, drv, i, off, cb, mcb, mar, u, done, todo, a);
    }
    MeetsNothing(visible, drv, i, off, todo);
    assert done == slots;
  }

  /** The clone's pointers follow their objects from the message at `mcb` to the clone at `cb`. */
  method UpdateClonedCbInlinePointers(mem: array<Byte>, cb: nat, mcb: nat, visible: Layout, marshal: Layout,
                                      ghost drv: Option<Layout>, ghost vis: nat, ghost slots: seq<Slot>)
    returns (status: int)
    requires mem.Length < 0x1_0000_0000 && cb + CB + vis <= mem.Length
    requires cb + CB + vis <= mcb || mcb + CB + vis <= cb
    requires Meets(visible, drv, 0, 0, slots) && Fit(slots, 0, vis)
    requires var mar := LayoutSize(marshal, 0, false);
             mar >= 0 ==> CanMove(mem[..], mcb + CB, slots, mcb + mar, cb)
    modifies mem
    ensures var mar := LayoutSize(marshal, 0, false);
            if mar < 0 then status == mar && mem[..] == old(mem[..])
            else
              && status == 0 && AllMoved(old(mem[..]), mcb + CB, mem[..], cb + CB, slots, mcb + mar, cb)
              && OnlyWrites(old(mem[..]), mem[..], slots, cb + CB, 0, 0)
  {
    var mar := GetSize(marshal, 0, false);
    if mar < 0 {
      return mar;
    }
    UpdatePointers(mem, cb, mcb, visible, mar, drv, vis, slots);
    status := 0;
  }

  /** The receiving half of a call: the message, a replica of the sender's block in `m`, cloned and brought up to date. */
  method Receive(mem: array<Byte>, data: nat, clone: nat, visible: Layout, marshal: Layout, drv: Option<Layout>,
                 ghost m: Memory, ghost x: Parcel, ghost sent: seq<nat>)
    returns (ghost ats: seq<nat>)
    requires mem.Length < 0x1_0000_0000 && x.data == data && x.clone == clone
    requires Meets(visible, drv, 0, 0, x.slots) && Fit(x.slots, 0, x.vis)
    requires Sizes(mem[..], data, visible, marshal, drv) == (x.vis, x.mar, x.inl)
    requires InMessage(m, mem[..], x, sent) && x.To() <= mem.Length && x.CloneTo() <= mem.Length && x.Apart()
    modifies mem
    ensures InClone(m, mem[..], x, ats)
    ensures Agree(old(mem[..]), mem[..], clone, x.CloneTo())
  {
    var ok := CalleeCloneCb(mem, data, clone, visible, marshal, drv);
    ats := BringUpToDate(mem, data, clone, visible, marshal, drv, m, old(mem[..]), x, sent);
  }

  /** The clone's pointers, once its bytes are there. */
  method BringUpToDate(mem: array<Byte>, data: nat, clone: nat, visible: Layout, marshal: Layout, ghost drv: Option<Layout>,
                       ghost m: Memory, ghost m1: Memory, ghost x: Parcel, ghost sent: seq<nat>)
    returns (ghost ats: seq<nat>)
    requires mem.Length < 0x1_0000_0000 && x.data == data && x.clone == clone
    requires Meets(visible, drv, 0, 0, x.slots) && Fit(x.slots, 0, x.vis) && LayoutSize(marshal, 0, false) == x.mar
    requires InMessage(m, m1, x, sent) && CopyOfMessage(m1, mem[..], data, clone, x.vis, x.mar, x.inl) && x.Apart()
    modifies mem
    ensures InClone(m, mem[..], x, ats)
    ensures Agree(m1, mem[..], clone, x.CloneTo())
  {
    ghost var m2: Memory := mem[..];
    UpdateReady(m, m1, m2, x, sent);
    var status := UpdateClonedCbInlinePointers(mem, clone, data, visible, marshal, drv, x.vis, x.slots);
    ats := RoundTrip(m, m1, m2, mem[..], x, sent);
  }

  /** The receiver's own words in the generic part of its clone. */
  method Stamp(mem: array<Byte>, cb: nat, channel: nat, context: nat, origin: nat)
    requires cb + CB <= mem.Length < 0x1_0000_0000
    requires channel < 0x1_0000_0000 && context < 0x1_0000_0000 && origin < 0x1_0000_0000
    modifies mem
    ensures Stamped(old(mem[..]), mem[..], cb, channel, context, origin)
  {
    StorePointer(mem, cb + 16, origin);
    ghost var m1: Memory := mem[..];
    StorePointer(mem, cb, channel);
    ghost var m2: Memory := mem[..];
    StorePointer(mem, cb + 4, context);
    LoadAgree(m1, m2, cb + 16, cb, cb + 4);
    LoadAgree(m2, mem[..], cb + 16, cb + 4, cb + 8);
    LoadAgree(m2, mem[..], cb, cb + 4, cb + 8);
  }

  /** The receiver's message handler, up to the call into the driver. */
  method Handle(mem: array<Byte>, data: nat, clone: nat, visible: Layout, marshal: Layout, drv: Option<Layout>,
                channel: nat, context: nat, origin: nat, ghost m: Memory, ghost x: Parcel, ghost sent: seq<nat>)
    returns (ghost ats: seq<nat>)
    requires mem.Length < 0x1_0000_0000 && x.data == data && x.clone == clone
    requires channel < 0x1_0000_0000 && context < 0x1_0000_0000 && origin < 0x1_0000_0000
    requires Meets(visible, drv, 0, 0, x.slots) && Fit(x.slots, 0, x.vis)
    requires Sizes(m, x.gcb, visible, marshal, drv) == (x.vis, x.mar, x.inl) && x.slots == Slots(visible, drv, 0, 0)
    requires InMessage(m, mem[..], x, sent) && x.To() <= mem.Length && x.CloneTo() <= mem.Length && x.Apart()
    modifies mem
    ensures Arrived(m, mem[..], x, ats, channel, context, origin)
    ensures Agree(old(mem[..]), mem[..], clone, x.CloneTo())
  {
    SizesAgain(m, mem[..], x, sent, visible, marshal, drv);
    ats := Receive(mem, data, clone, visible, marshal, drv, m, x, sent);
    ghost var m2: Memory := mem[..];
    Stamp(mem, clone, channel, context, origin);
    Arrives(m, m2, mem[..], x, ats, channel, context, origin);
  }

  /** One channel call as the receiver sees it: every object and every NULL of the sender's block arrives. */
  method Call(mem: array<Byte>, gcb: nat, data: nat, clone: nat, visible: Layout, marshal: Layout, drv: Option<Layout>,
              channel: nat, context: nat, origin: nat)
    returns (ok: bool, ghost ats: seq<nat>)
    requires mem.Length < 0x1_0000_0000
    requires channel < 0x1_0000_0000 && context < 0x1_0000_0000 && origin < 0x1_0000_0000
    requires var (vis, mar, inl) := Sizes(mem[..], gcb, visible, marshal, drv);
             vis >= 0 && mar >= 0 && inl >= 0 ==>
               var x := Parcel(gcb, data, clone, Slots(visible, drv, 0, 0), vis, mar, inl);
               Fresh(mem[..], gcb, x.slots, vis, data, x.To()) && x.CloneTo() <= mem.Length && x.Apart()
    modifies mem
    ensures var (vis, mar, inl) := old(Sizes(mem[..], gcb, visible, marshal, drv));
            ok == (vis >= 0 && mar >= 0 && inl >= 0) &&
            if !ok then mem[..] == old(mem[..])
            else
              var x := Parcel(gcb, data, clone, Slots(visible, drv, 0, 0), vis, mar, inl);
              && Arrived(old(mem[..]), mem[..], x, ats, channel, context, origin)
              && AllArrive(old(mem[..]), gcb, mem[..], clone, visible, drv)
              && Outside(old(mem[..]), mem[..], data, x.To(), clone, x.CloneTo())
  {
    ghost var (vis, mar, inl) := Sizes(mem[..], gcb, visible, marshal, drv);
    var status;
    status, ats := Send(mem, gcb, data, visible, marshal, drv);
    ok := status == 0;
    if ok {
      ghost var m1: Memory := mem[..];
      ghost var x := Parcel(gcb, data, clone, Slots(visible, drv, 0, 0), vis, mar, inl);
      SlotsFit(visible, drv, 0, 0);
      ats := Handle(mem, data, clone, visible, marshal, drv, channel, context, origin, old(mem[..]), x, ats);
      ElementsArrive(old(mem[..]), mem[..], x, ats, channel, context, origin, visible, drv);
      OutsideBoth(old(mem[..]), m1, mem[..], data, x.To(), clone, x.CloneTo());
    }
  }

  /** The body of the allocation loop for one pointer element. */
  method DealElement(mem: array<Byte>, lay: Layout, drv: Option<Layout>, i: nat, off: nat, cb8: nat, next: nat,
                     ghost d: Deal, ghost done: seq<Slot>, ghost todo: seq<Slot>, ghost a: nat)
    returns (status: int, after: nat)
    requires cb8 + d.vis <= mem.Length < 0x1_0000_0000 && d.cb8 == cb8 && i < |lay| && IsInlineElement(lay[i])
    requires todo != [] && todo[0] == SlotAt(lay, drv, i, off) && Dealt(d, mem[..], done, todo, a, next) && next < 0x1_0000_0000
    modifies mem
    ensures if todo[0].Inline? && todo[0].size < 0 then status == todo[0].size && mem[..] == old(mem[..]) else
              && status == 0 && after == next + (if todo[0].Inline? then todo[0].size else 0)
              && Dealt(d, mem[..], done + [todo[0]], todo[1..], off + WORD, after)
  {
    status, after := 0, next;
    if lay[i] == INLINE_TYPED || lay[i] == INLINE_DRIVER_TYPED {
      var size;
      if lay[i] == INLINE_TYPED {
        size := GetSize(lay, i + 1, false);
      } else {
        size := GetOptionalSize(drv);
      }
      if size < 0 {
        return size, next;
      }
      StorePointer(mem, cb8 + off, next);
      after := next + size;
    }
    DealtStep(d, old(mem[..]), mem[..], done, todo, a, next);
  }

  /** The space pass over a new control block's layout. */
  method GetTotalCbInlineRequirements(lay: Layout, drv: Option<Layout>, ghost slots: seq<Slot>) returns (r: int)
    requires Meets(lay, drv, 0, 0, slots)
    ensures r == CbNeed(slots)
  {
    ghost var todo := slots;
    var i: nat, off: nat := 0, 0;
    r := 0;
    while At(lay, i) != END
      invariant r >= 0 && Meets(lay, drv, i, off, todo) && CbNeed(slots) == Plus(r, CbNeed(todo))
      decreases |lay| - i
    {
      var skip, at, after, rest := NextElement(lay, drv, i, off, todo);
      if skip == 0 {
        return ERROR_INVALID_FORMAT;
      }
      if lay[i] == INLINE_TYPED || lay[i] == INLINE_DRIVER_TYPED {
        var size;
        if lay[i] == INLINE_TYPED {
          size := GetSize(lay, i + 1, false);
        } else {
          size := GetOptionalSize(drv);
        }
        if size < 0 {
          return size;
        }
        r := r + size;
      }
      i, off, todo := i + skip, after, rest;
    }
    MeetsNothing(lay, drv, i, off, todo);
  }

  /** One element of the layout; a layout that has a size has no malformed element. */
  method DealStep(mem: array<Byte>, lay: Layout, drv: Option<Layout>, i: nat, off: nat, cb8: nat, next: nat,
                  ghost d: Deal, ghost slots: seq<Slot>, ghost done: seq<Slot>, ghost todo: seq<Slot>, ghost a: nat)
    returns (status: int, i2: nat, off2: nat, next2: nat, ghost done2: seq<Slot>, ghost todo2: seq<Slot>, ghost a2: nat)
    requires cb8 + d.vis <= mem.Length < 0x1_0000_0000 && d.cb8 == cb8 && At(lay, i) != END && next < 0x1_0000_0000
    requires Meets(lay, drv, i, off, todo) && Dealt(d, mem[..], done, todo, a, next) && OnCourse(d, slots, todo, next)
    modifies mem
    ensures status < 0 ==> status == CbNeed(slots) && mem[..] == old(mem[..])
    ensures status >= 0 ==>
              && status == 0 && Meets(lay, drv, i2, off2, todo2) && Dealt(d, mem[..], done2, todo2, a2, next2)
              && done2 + todo2 == done + todo && OnCourse(d, slots, todo2, next2) && i < i2
  {
    var skip, off1, after, rest := NextElement(lay, drv, i, off, todo);
    assert skip > 0;
    status, i2, off2, next2, done2, todo2, a2 := 0, i + skip, after, next, done, rest, a;
    if IsInlineElement(lay[i]) {
      status, next2 := DealElement(mem, lay, drv, i, off1, cb8, next, d, done, todo, a);
      Shift(done, todo);
      done2, a2 := done + [todo[0]], off1 + WORD;
    }
  }

  /** Deals the inline space of a new control block out to its pointers; the errors are those of the space pass. */
  method InitializeCbInlinePointers(mem: array<Byte>, cb: nat, inlineSpace: nat, lay: Layout, drv: Option<Layout>,
                                    ghost slots: seq<Slot>, ghost vis: nat)
    returns (status: int)
    requires mem.Length < 0x1_0000_0000 && cb + CB + vis <= mem.Length && Meets(lay, drv, 0, 0, slots) && Fit(slots, 0, vis)
    requires inlineSpace + CbSpan(slots) < 0x1_0000_0000
    modifies mem
    ensures status == if CbNeed(slots) < 0 then CbNeed(slots) else 0
    ensures CbNeed(slots) >= 0 ==> Partitioned(mem[..], cb + CB, slots, inlineSpace, inlineSpace + CbNeed(slots))
    ensures OnlyInline(old(mem[..]), mem[..], slots, cb + CB)
  {
    ghost var d := Deal(mem[..], cb + CB, vis, inlineSpace);
    ghost var done, todo, a: nat := [], slots, 0;
    var i: nat, off: nat, next: nat := 0, 0, inlineSpace;
    status := 0;
    while At(lay, i) != END
      invariant status == 0 && Meets(lay, drv, i, off, todo) && slots == done + todo
      invariant Dealt(d, mem[..], done, todo, a, next) && OnCourse(d, slots, todo, next)
      decreases |lay| - i
    {
      OnlyInlineAll(d.m, mem[..], done, todo, cb + CB);
      status, i, off, next, done, todo, a := DealStep(mem, lay, drv, i, off, cb + CB, next, d, slots, done, todo, a);
      if status < 0 {
        return;
      }
    }
    MeetsNothing(lay, drv, i, off, todo);
    assert done == slots;
  }

  /**
   * udi_cb_alloc_sync once the layouts are known: the space pass, the allocation, the pointer pass. `vis` is the
   * cached size of the visible part, `room` whether the block can be allocated, `scratch` the scratch space, if it can.
   */
  method CbAllocSync(mem: array<Byte>, cb: nat, visible: Layout, drv: Option<Layout>, vis: nat, room: bool, scratch: Option<nat>)
    returns (status: int)
    requires mem.Length < 0x1_0000_0000 && LayoutSize(visible, 0, true) == vis
    requires scratch.Some? ==> scratch.value < 0x1_0000_0000
    requires var need := CbNeed(Slots(visible, drv, 0, 0));
             room && need >= 0 ==> cb + CB + vis + need <= mem.Length
    modifies mem
    ensures var slots := Slots(visible, drv, 0, 0);
            && status == (if CbNeed(slots) < 0 then CbNeed(slots) else if !room || scratch.None? then ERROR_MEMORY_NOMEM else 0)
            && if status < 0 then mem[..] == old(mem[..])
               else Allocated(old(mem[..]), mem[..], cb, slots, vis, scratch.value)
                    && InlineLaid(old(mem[..]), mem[..], cb, visible, drv, vis)
  {
    ghost var slots := Slots(visible, drv, 0, 0);
    var need := GetTotalCbInlineRequirements(visible, drv, slots);
    if need < 0 {
      return need;
    }
    if !room || scratch.None? {
      return ERROR_MEMORY_NOMEM;
    }
    SlotsFit(visible, drv, 0, 0);
    SpanIsNeed(slots);
    StorePointer(mem, cb + 8, scratch.value);
    ghost var m1: Memory := mem[..];
    status := InitializeCbInlinePointers(mem, cb, cb + CB + vis, visible, drv, slots, vis);
    AllocatedBy(old(mem[..]), m1, mem[..], cb, slots, vis, scratch.value);
    AllocatedLaid(old(mem[..]), mem[..], cb, visible, drv, vis, scratch.value);
  }
}
