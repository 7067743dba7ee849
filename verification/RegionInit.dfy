/** Device instantiation as a rendezvous: the driver's main thread, its region threads, and one shared request context. */
module RegionInit {
  /** Message queue of the main thread; a reply to a region is its `replied` flag. */
  datatype Message = Info(r: nat) | Sync(r: nat) | Ind(r: nat, ok: bool)

  /** A spawned thread is looked up by its id, which the main thread records in a step of its own. */
  datatype Main = Spawning(next: nat) | Recording(next: nat) | Serving

  /** A region thread, from its entry point over its two continuations to its one report. */
  datatype Region =
    | Unborn
    | Dormant
    | Starting
    | Announcing(replied: bool)
    | AwaitInfo(replied: bool)
    | AwaitSync(replied: bool)
    | Done(ok: bool)

  /**
   * `limit` is how many threads can be spawned. `dormant` is whether a new thread sleeps until it is recorded; the
   * code has the flag and the wakeup commented out, so there it is false. `faulted` records a use of the context
   * after its deletion, `panicked` a failed assertion of a region that its own id is recorded.
   */
  datatype State = State(
    limit: nat, dormant: bool, main: Main, regions: seq<Region>, queue: seq<Message>,
    succeeded: nat, failed: nat, live: bool, faulted: bool, panicked: bool, acks: seq<bool>)

  datatype Step =
    | Spawn
    | Record
    | Enter(r: nat, ok: bool)
    | Announce(r: nat)
    | Continue(r: nat, ok: bool)
    | Finish(r: nat, ok: bool)
    | Handle

  predicate IsRegionStep(step: Step) {
    step.Enter? || step.Announce? || step.Continue? || step.Finish?
  }

  ghost predicate Init(s: State) {
    && s.main == Spawning(0) && s.queue == [] && s.succeeded == s.failed == 0
    && s.live && !s.faulted && !s.panicked && s.acks == []
    && forall r :: 0 <= r < |s.regions| ==> s.regions[r] == Unborn
  }

  /** getRegionInfo finds the thread: ids are recorded in the order of the regions. */
  predicate Recorded(s: State, r: nat) {
    s.main.Serving? || r < s.main.next
  }

  predicate Enabled(s: State, step: Step) {
    && !s.panicked
    && match step
    case Spawn => s.main.Spawning? && s.main.next <= |s.regions|
    case Record => s.main.Recording? && s.main.next < |s.regions|
    case Enter(r, _) => r < |s.regions| && s.regions[r].Starting?
    case Announce(r) => r < |s.regions| && s.regions[r].Announcing?
    case Continue(r, _) => r < |s.regions| && s.regions[r] == AwaitInfo(true)
    case Finish(r, _) => r < |s.regions| && s.regions[r] == AwaitSync(true)
    case Handle => s.main.Serving? && s.queue != [] && s.queue[0].r < |s.regions|
  }

  /** Any use of the context. */
  function Use(s: State): State {
    if s.live then s else s.(faulted := true)
  }

  /** A region asserts that its id is recorded, and goes on. */
  function Lookup(s: State, r: nat): State {
    if Recorded(s, r) then Use(s) else s.(panicked := true)
  }

  /** The acknowledgement deletes the context. */
  function Ack(s: State, ok: bool): State {
    Use(s).(acks := s.acks + [ok], live := false)
  }

  function Replied(region: Region): Region {
    match region
    case Announcing(_) => Announcing(true)
    case AwaitInfo(_) => AwaitInfo(true)
    case AwaitSync(_) => AwaitSync(true)
    case _ => region
  }

  function Woken(region: Region): Region {
    if region.Dormant? then Starting else region
  }

  /** regionInitInd: count the report, and acknowledge once every region has reported. */
  function Report(s: State, ok: bool): State {
    var t := if ok then Use(s).(succeeded := s.succeeded + 1) else Use(s).(failed := s.failed + 1);
    if t.succeeded + t.failed != |s.regions| then t else Ack(t, t.failed == 0)
  }

  function Apply(s: State, step: Step): (t: State)
    requires Enabled(s, step)
    ensures |t.regions| == |s.regions| && t.limit == s.limit && t.dormant == s.dormant
  {
    match step
    case Spawn =>
      if s.main.next == |s.regions| then Use(s).(main := Serving)
      else if s.main.next < s.limit then
        s.(main := Recording(s.main.next), regions := s.regions[s.main.next := if s.dormant then Dormant else Starting])
      else Ack(s, false).(main := Serving)
    case Record =>
      s.(main := Spawning(s.main.next + 1), regions := s.regions[s.main.next := Woken(s.regions[s.main.next])])
    case Enter(r, ok) =>
      if ok then Use(s).(regions := s.regions[r := Announcing(false)], queue := s.queue + [Info(r)])
      else Use(s).(regions := s.regions[r := Done(false)], queue := s.queue + [Ind(r, false)])
    case Announce(r) => Lookup(s, r).(regions := s.regions[r := AwaitInfo(s.regions[r].replied)])
    case Continue(r, ok) =>
      if ok then s.(regions := s.regions[r := AwaitSync(false)], queue := s.queue + [Sync(r)])
      else s.(regions := s.regions[r := Done(false)], queue := s.queue + [Ind(r, false)])
    case Finish(r, ok) =>
      var t := Lookup(s, r);
      if t.panicked then t else t.(regions := s.regions[r := Done(ok)], queue := s.queue + [Ind(r, ok)])
    case Handle =>
      var t := s.(queue := s.queue[1..]);
      match s.queue[0]
      case Ind(_, ok) => Report(t, ok)
      case _ => t.(regions := s.regions[s.queue[0].r := Replied(s.regions[s.queue[0].r])])
  }

  ghost predicate Run(s: State, steps: seq<Step>)
    decreases steps
  {
    steps == [] || (Enabled(s, steps[0]) && Run(Apply(s, steps[0]), steps[1..]))
  }

  function After(s: State, steps: seq<Step>): State
    requires Run(s, steps)
    decreases steps
  {
    if steps == [] then s else After(Apply(s, steps[0]), steps[1..])
  }

  /** Reports posted by regions, and those of them that are good. */
  function Reports(regions: seq<Region>, good: bool): nat {
    if regions == [] then 0
    else Reports(regions[1..], good) + if regions[0].Done? && (good ==> regions[0].ok) then 1 else 0
  }

  /** Reports still in the queue, and those of them that are good. */
  function Pending(queue: seq<Message>, good: bool): nat {
    if queue == [] then 0
    else Pending(queue[1..], good) + if queue[0].Ind? && (good ==> queue[0].ok) then 1 else 0
  }

  lemma {:induction false} PendingAppend(queue: seq<Message>, msg: Message, good: bool)
    ensures Pending(queue + [msg], good) == Pending(queue, good) + if msg.Ind? && (good ==> msg.ok) then 1 else 0
  {
    if queue == [] {
      assert queue + [msg] == [msg] && [msg][1..] == [];
    } else {
      assert (queue + [msg])[0] == queue[0] && (queue + [msg])[1..] == queue[1..] + [msg];
      PendingAppend(queue[1..], msg, good);
    }
  }

  lemma {:induction false} ReportsUpdate(regions: seq<Region>, r: nat, region: Region, good: bool)
    requires r < |regions| && !regions[r].Done?
    ensures Reports(regions[r := region], good) == Reports(regions, good) + if region.Done? && (good ==> region.ok) then 1 else 0
  {
    if r == 0 {
      assert regions[r := region][1..] == regions[1..];
    } else {
      assert regions[r := region][0] == regions[0] && regions[r := region][1..] == regions[1..][r - 1 := region];
      ReportsUpdate(regions[1..], r - 1, region, good);
    }
  }

  lemma {:induction false} ReportsAll(regions: seq<Region>, good: bool)
    ensures Reports(regions, good) <= |regions|
    ensures Reports(regions, good) == |regions| <==> forall r :: 0 <= r < |regions| ==> regions[r].Done? && (good ==> regions[r].ok)
  {
    if regions != [] {
      ReportsAll(regions[1..], good);
      assert forall r :: 0 < r < |regions| ==> regions[r] == regions[1..][r - 1];
    }
  }

  predicate ToSpawn(main: Main, r: nat) {
    match main
    case Spawning(next) => next <= r
    case Recording(next) => next < r
    case Serving => false
  }

  ghost predicate Spawned(s: State) {
    && (!s.main.Serving? ==> s.main.next <= |s.regions| && s.succeeded == s.failed == 0)
    && (s.main.Recording? ==> s.main.next < |s.regions|)
    && (forall r: nat :: r < |s.regions| ==> (s.regions[r].Unborn? <==> ToSpawn(s.main, r)))
    && (forall r: nat :: r < |s.regions| && s.regions[r].Dormant? ==> s.main == Recording(r))
  }

  /** Every report is counted or still in the queue. */
  ghost predicate Counted(s: State) {
    && s.succeeded + s.failed + Pending(s.queue, false) == Reports(s.regions, false)
    && s.succeeded + Pending(s.queue, true) == Reports(s.regions, true)
  }

  ghost predicate Acknowledged(s: State) {
    if |s.regions| > 0 && s.succeeded + s.failed == |s.regions| then s.acks == [s.failed == 0] && !s.live
    else s.acks == [] && s.live
  }

  predicate Asks(s: State, msg: Message) {
    msg in s.queue
  }

  /** A region that waits for a reply has its request in the queue. */
  ghost predicate Served(s: State) {
    && (forall k :: 0 <= k < |s.queue| ==> s.queue[k].r < |s.regions|)
    && (forall r: nat :: r < |s.regions| && s.regions[r] in {Announcing(false), AwaitInfo(false)} ==> Asks(s, Info(r)))
    && (forall r: nat :: r < |s.regions| && s.regions[r] == AwaitSync(false) ==> Asks(s, Sync(r)))
  }

  /** What every step keeps when all threads can be spawned. */
  ghost predicate Inv(s: State) {
    s.limit >= |s.regions| && Spawned(s) && Counted(s) && Acknowledged(s) && Served(s) && !s.faulted
  }

  /** While a region still has work or a report is unread, the request is unacknowledged and the context alive. */
  lemma StillLive(s: State, r: nat)
    requires Spawned(s) && Counted(s) && Acknowledged(s) && r < |s.regions|
    requires !s.regions[r].Done? || Pending(s.queue, false) > 0
    ensures s.live && s.acks == [] && s.succeeded + s.failed < |s.regions|
  {
    ReportsAll(s.regions, false);
  }

  lemma InitInv(s: State)
    requires Init(s) && s.limit >= |s.regions|
    ensures Inv(s)
  {
    NoReports(s.regions);
  }

  lemma {:induction false} NoReports(regions: seq<Region>)
    requires forall r :: 0 <= r < |regions| ==> regions[r] == Unborn
    ensures Reports(regions, false) == Reports(regions, true) == 0
  {
    if regions != [] {
      NoReports(regions[1..]);
    }
  }

  lemma SpawnInv(s: State)
    requires Inv(s) && Enabled(s, Spawn)
    ensures Inv(Apply(s, Spawn))
  {
    if s.main.next < |s.regions| {
      var region := if s.dormant then Dormant else Starting;
      ReportsUpdate(s.regions, s.main.next, region, false);
      ReportsUpdate(s.regions, s.main.next, region, true);
    }
  }

  lemma RecordInv(s: State)
    requires Inv(s) && Enabled(s, Record)
    ensures Inv(Apply(s, Record))
  {
    if s.regions[s.main.next].Dormant? {
      ReportsUpdate(s.regions, s.main.next, Starting, false);
      ReportsUpdate(s.regions, s.main.next, Starting, true);
    } else {
      assert Apply(s, Record).regions == s.regions;
    }
  }

  /** A region's own steps: it moves on, and posts at most one message. */
  lemma RegionInv(s: State, t: State, r: nat, region: Region, post: seq<Message>)
    requires Inv(s) && r < |s.regions| && !s.regions[r].Done? && !s.regions[r].Unborn?
    requires !region.Unborn? && !region.Dormant?
    requires t == s.(regions := s.regions[r := region], queue := s.queue + post, panicked := t.panicked)
    requires |post| <= 1 && (post != [] ==> post[0].r == r)
    requires region.Done? ==> post == [Ind(r, region.ok)]
    requires !region.Done? ==> post == [] || !post[0].Ind?
    requires region in {Announcing(false), AwaitInfo(false)} ==> post == [Info(r)] || Asks(s, Info(r))
    requires region == AwaitSync(false) ==> post == [Sync(r)]
    ensures Inv(t)
  {
    ReportsUpdate(s.regions, r, region, false);
    ReportsUpdate(s.regions, r, region, true);
    if post == [] {
      assert s.queue + post == s.queue;
    } else {
      assert post == [post[0]];
      PendingAppend(s.queue, post[0], false);
      PendingAppend(s.queue, post[0], true);
    }
    assert forall msg :: msg in s.queue ==> msg in t.queue;
    assert forall msg :: msg in post ==> msg in t.queue;
  }

  /** The request just read was one message; every other request is still in the queue. */
  lemma OthersAsk(s: State, t: State)
    requires Served(s) && s.queue != [] && t.queue == s.queue[1..] && |t.regions| == |s.regions|
    ensures forall msg :: Asks(s, msg) && msg != s.queue[0] ==> Asks(t, msg)
  {
  }

  lemma ReportServed(s: State, t: State)
    requires Served(s) && s.queue != [] && s.queue[0].Ind? && t.queue == s.queue[1..] && t.regions == s.regions
    ensures Served(t)
  {
    OthersAsk(s, t);
  }

  lemma ReportInv(s: State)
    requires Inv(s) && Enabled(s, Handle) && s.queue[0].Ind?
    ensures Inv(Apply(s, Handle))
  {
    StillLive(s, s.queue[0].r);
    ReportServed(s, Apply(s, Handle));
  }

  lemma ReplyServed(s: State, t: State)
    requires Served(s) && s.queue != [] && !s.queue[0].Ind? && t.queue == s.queue[1..] && s.queue[0].r < |s.regions|
    requires t.regions == s.regions[s.queue[0].r := Replied(s.regions[s.queue[0].r])]
    ensures Served(t)
  {
    OthersAsk(s, t);
  }

  lemma ReplyInv(s: State)
    requires Inv(s) && Enabled(s, Handle) && !s.queue[0].Ind?
    ensures Inv(Apply(s, Handle))
  {
    var r := s.queue[0].r;
    ReplyServed(s, Apply(s, Handle));
    if s.regions[r].Done? {
      assert Apply(s, Handle).regions == s.regions;
    } else {
      ReportsUpdate(s.regions, r, Replied(s.regions[r]), false);
      ReportsUpdate(s.regions, r, Replied(s.regions[r]), true);
    }
  }

  lemma RegionStepInv(s: State, step: Step)
    requires Inv(s) && Enabled(s, step) && IsRegionStep(step)
    ensures Inv(Apply(s, step))
  {
    StillLive(s, step.r);
    match step
    case Enter(r, ok) =>
      if ok {
        RegionInv(s, Apply(s, step), r, Announcing(false), [Info(r)]);
      } else {
        RegionInv(s, Apply(s, step), r, Done(false), [Ind(r, false)]);
      }
    case Announce(r) =>
      assert s.queue + [] == s.queue;
      RegionInv(s, Apply(s, step), r, AwaitInfo(s.regions[r].replied), []);
    case Continue(r, ok) =>
      if ok {
        RegionInv(s, Apply(s, step), r, AwaitSync(false), [Sync(r)]);
      } else {
        RegionInv(s, Apply(s, step), r, Done(false), [Ind(r, false)]);
      }
    case Finish(r, ok) =>
      if Recorded(s, r) {
        RegionInv(s, Apply(s, step), r, Done(ok), [Ind(r, ok)]);
      }
  }

  lemma StepInv(s: State, step: Step)
    requires Inv(s) && Enabled(s, step)
    ensures Inv(Apply(s, step))
  {
    match step
    case Spawn => SpawnInv(s);
    case Record => RecordInv(s);
    case Handle =>
      if s.queue[0].Ind? {
        ReportInv(s);
      } else {
        ReplyInv(s);
      }
    case _ => RegionStepInv(s, step);
  }

  lemma {:induction false} RunInv(s: State, steps: seq<Step>)
    requires Inv(s) && Run(s, steps)
    ensures Inv(After(s, steps)) && |After(s, steps).regions| == |s.regions|
    decreases steps
  {
    if steps != [] {
      StepInv(s, steps[0]);
      RunInv(Apply(s, steps[0]), steps[1..]);
    }
  }

  ghost predicate Stuck(s: State) {
    forall step :: !Enabled(s, step)
  }

  ghost predicate AllDone(s: State, good: bool) {
    forall r :: 0 <= r < |s.regions| ==> s.regions[r].Done? && (good ==> s.regions[r].ok)
  }

  /** The step in which a region's initialization goes wrong. */
  predicate Failing(step: Step) {
    match step
    case Enter(_, ok) => ok == false
    case Continue(_, ok) => ok == false
    case Finish(_, ok) => ok == false
    case _ => false
  }

  ghost predicate SomeFailed(s: State) {
    exists r :: 0 <= r < |s.regions| && s.regions[r] == Done(false)
  }

  lemma FailedUpdate(s: State, t: State, r: nat)
    requires r < |s.regions| == |t.regions| && !s.regions[r].Done? && t.regions == s.regions[r := t.regions[r]]
    ensures SomeFailed(t) <==> SomeFailed(s) || t.regions[r] == Done(false)
  {
    assert forall i :: 0 <= i < |s.regions| && i != r ==> t.regions[i] == s.regions[i];
  }

  /** A region ends as failed in no step but a failing one. */
  lemma FailedStep(s: State, step: Step)
    requires Spawned(s) && Orderly(s) && Enabled(s, step)
    ensures SomeFailed(Apply(s, step)) <==> SomeFailed(s) || Failing(step)
  {
    var t := Apply(s, step);
    match step
    case Spawn =>
      if s.main.next < |s.regions| {
        FailedUpdate(s, t, s.main.next);
      }
    case Record =>
      if s.regions[s.main.next].Dormant? {
        FailedUpdate(s, t, s.main.next);
      } else {
        assert t.regions == s.regions;
      }
    case Handle =>
      if s.queue[0].Ind? || s.regions[s.queue[0].r].Done? {
        assert t.regions == s.regions;
      } else {
        FailedUpdate(s, t, s.queue[0].r);
      }
    case _ => FailedUpdate(s, t, step.r);
  }

  lemma {:induction false} FailedRun(s: State, steps: seq<Step>)
    requires Inv(s) && Orderly(s) && Run(s, steps)
    ensures SomeFailed(After(s, steps)) <==> SomeFailed(s) || exists i :: 0 <= i < |steps| && Failing(steps[i])
    decreases steps
  {
    if steps != [] {
      var t, rest := Apply(s, steps[0]), steps[1..];
      StepInv(s, steps[0]);
      OrderlyStep(s, steps[0]);
      FailedStep(s, steps[0]);
      FailedRun(t, rest);
      assert forall i :: 0 <= i < |rest| ==> rest[i] == steps[i + 1];
      if i :| 0 <= i < |steps| && Failing(steps[i]) {
        assert i > 0 ==> rest[i - 1] == steps[i];
      }
    }
  }

  /** The request is acknowledged at most once, after every region has reported, with success iff no step has failed. */
  lemma AckedOnce(s: State, steps: seq<Step>)
    requires Init(s) && Run(s, steps) && s.limit >= |s.regions|
    ensures var t := After(s, steps);
            && !t.faulted && |t.acks| <= 1
            && (t.acks != [] ==> AllDone(t, false) && (t.acks[0] <==> AllDone(t, true)))
            && (t.acks != [] ==> (t.acks[0] <==> forall i :: 0 <= i < |steps| ==> !Failing(steps[i])))
  {
    InitInv(s);
    RunInv(s, steps);
    FailedRun(s, steps);
    var t := After(s, steps);
    ReportsAll(t.regions, false);
    ReportsAll(t.regions, true);
    PendingGood(t.queue);
  }

  lemma {:induction false} PendingGood(queue: seq<Message>)
    ensures Pending(queue, true) <= Pending(queue, false)
  {
    if queue != [] {
      PendingGood(queue[1..]);
    }
  }

  /** In every reachable state: only a main thread that serves has replied, and a thread that sleeps is not yet recorded. */
  ghost predicate Orderly(s: State) {
    && (s.panicked ==> !s.main.Serving?)
    && (forall r: nat :: r < |s.regions| && s.regions[r] in {Announcing(true), AwaitInfo(true)} ==> s.main.Serving?)
    && (forall r: nat :: r < |s.regions| && s.regions[r].AwaitSync? ==> s.main.Serving?)
    && (forall r: nat :: r < |s.regions| && s.dormant && s.regions[r].Starting? ==> Recorded(s, r))
    && (forall r: nat :: r < |s.regions| && s.dormant && s.regions[r].Announcing? ==> Recorded(s, r))
  }

  lemma OrderlyStep(s: State, step: Step)
    requires Orderly(s) && Enabled(s, step)
    ensures Orderly(Apply(s, step))
    ensures Apply(s, step).panicked <==> TooEarly(s, step)
    ensures s.dormant ==> !TooEarly(s, step)
  {
    if IsRegionStep(step) {
      OrderlyRegionStep(s, step);
    }
  }

  lemma OrderlyRegionStep(s: State, step: Step)
    requires Orderly(s) && Enabled(s, step) && IsRegionStep(step)
    ensures Orderly(Apply(s, step))
    ensures Apply(s, step).panicked <==> TooEarly(s, step)
    ensures s.dormant ==> !TooEarly(s, step)
  {
  }

  /** A region looks itself up before the main thread has recorded it. */
  predicate TooEarly(s: State, step: Step) {
    step.Announce? && !Recorded(s, step.r)
  }

  ghost predicate Early(s: State, steps: seq<Step>)
    requires Run(s, steps)
    decreases steps
  {
    steps != [] && (TooEarly(s, steps[0]) || Early(Apply(s, steps[0]), steps[1..]))
  }

  lemma {:induction false} OrderlyRun(s: State, steps: seq<Step>)
    requires Orderly(s) && Run(s, steps) && !s.panicked
    ensures Orderly(After(s, steps)) && |After(s, steps).regions| == |s.regions|
    ensures After(s, steps).panicked <==> Early(s, steps)
    ensures s.dormant ==> !Early(s, steps)
    decreases steps
  {
    if steps != [] {
      var t := Apply(s, steps[0]);
      OrderlyStep(s, steps[0]);
      assert t.panicked ==> steps[1..] == [];
      if !t.panicked {
        OrderlyRun(t, steps[1..]);
      }
    }
  }

  /** A run panics exactly when a region looks itself up before it is recorded. */
  lemma PanicsIffEarly(s: State, steps: seq<Step>)
    requires Init(s) && Run(s, steps)
    ensures After(s, steps).panicked <==> Early(s, steps)
  {
    OrderlyRun(s, steps);
  }

  /** A region's second lookup never fails: only a main thread that has recorded every region answers its request. */
  lemma SecondLookupHolds(s: State, steps: seq<Step>, r: nat, ok: bool)
    requires Init(s) && Run(s, steps) && Enabled(After(s, steps), Finish(r, ok))
    ensures Recorded(After(s, steps), r) && !Apply(After(s, steps), Finish(r, ok)).panicked
  {
    OrderlyRun(s, steps);
  }

  /** What a message in the queue says of its region, which does nothing until it is read. */
  predicate Posted(s: State, msg: Message) {
    && msg.r < |s.regions|
    && match msg
    case Info(r) => s.regions[r] in {Announcing(false), AwaitInfo(false)}
    case Sync(r) => s.regions[r] == AwaitSync(false)
    case Ind(r, ok) => s.regions[r] == Done(ok)
  }

  ghost predicate Matched(s: State) {
    && (forall k :: 0 <= k < |s.queue| ==> Posted(s, s.queue[k]))
    && (forall i, j :: 0 <= i < j < |s.queue| ==> s.queue[i].r != s.queue[j].r)
  }

  /** A region with no message in the queue moves on, and posts at most one. */
  lemma MatchedMove(s: State, t: State, r: nat, post: seq<Message>)
    requires Matched(s) && r < |s.regions| == |t.regions|
    requires t.regions == s.regions[r := t.regions[r]] && t.queue == s.queue + post
    requires forall k :: 0 <= k < |s.queue| ==> s.queue[k].r != r
    requires |post| <= 1 && (post != [] ==> post[0].r == r && Posted(t, post[0]))
    ensures Matched(t)
  {
    forall k | 0 <= k < |t.queue|
      ensures Posted(t, t.queue[k]) && (k < |s.queue| ==> t.queue[k] == s.queue[k]) && (k >= |s.queue| ==> t.queue[k].r == r)
    {
      assert t.queue[k] == if k < |s.queue| then s.queue[k] else post[0];
    }
  }

  lemma MatchedRegionStep(s: State, step: Step)
    requires Matched(s) && Orderly(s) && Enabled(s, step) && IsRegionStep(step) && !step.Announce?
    ensures Matched(Apply(s, step))
  {
    var t := Apply(s, step);
    match step
    case Enter(r, ok) => MatchedMove(s, t, r, if ok then [Info(r)] else [Ind(r, false)]);
    case Continue(r, ok) => MatchedMove(s, t, r, if ok then [Sync(r)] else [Ind(r, false)]);
    case Finish(r, ok) => MatchedMove(s, t, r, [Ind(r, ok)]);
  }

  lemma MatchedHandle(s: State)
    requires Matched(s) && Enabled(s, Handle)
    ensures Matched(Apply(s, Handle))
  {
    var t := Apply(s, Handle);
    forall k | 0 <= k < |t.queue|
      ensures Posted(t, t.queue[k])
    {
      assert t.queue[k] == s.queue[k + 1];
    }
    assert forall i :: 0 <= i < |t.queue| ==> t.queue[i] == s.queue[i + 1];
  }

  lemma MatchedStep(s: State, step: Step)
    requires Matched(s) && Spawned(s) && Orderly(s) && Enabled(s, step)
    ensures Matched(Apply(s, step))
  {
    match step
    case Handle => MatchedHandle(s);
    case Spawn =>
      if s.main.next < |s.regions| {
        assert s.queue + [] == s.queue;
        MatchedMove(s, Apply(s, step), s.main.next, []);
      }
    case Record =>
    case Announce(r) =>
    case _ => MatchedRegionStep(s, step);
  }

  lemma {:induction false} MatchedRun(s: State, steps: seq<Step>)
    requires Matched(s) && Inv(s) && Orderly(s) && Run(s, steps)
    ensures Matched(After(s, steps))
    decreases steps
  {
    if steps != [] {
      MatchedStep(s, steps[0]);
      StepInv(s, steps[0]);
      OrderlyStep(s, steps[0]);
      MatchedRun(Apply(s, steps[0]), steps[1..]);
    }
  }

  /** No region moves on while a message it has sent is unread, and each report in the queue is what its region ended as. */
  lemma AnsweredFirst(s: State, steps: seq<Step>, step: Step, k: nat)
    requires Init(s) && Run(s, steps) && s.limit >= |s.regions| && k < |After(s, steps).queue|
    ensures var t := After(s, steps);
            && (Enabled(t, step) && (step.Enter? || step.Continue? || step.Finish?) ==> t.queue[k].r != step.r)
            && (t.queue[k].Ind? ==> t.queue[k].r < |t.regions| && t.regions[t.queue[k].r] == Done(t.queue[k].ok))
            && (forall i :: 0 <= i < |t.queue| && i != k ==> t.queue[i].r != t.queue[k].r)
  {
    InitInv(s);
    MatchedRun(s, steps);
    assert Posted(After(s, steps), After(s, steps).queue[k]);
  }

  ghost predicate Panics(s: State, steps: seq<Step>) {
    Run(s, steps) && After(s, steps).panicked
  }

  /** A thread that runs as soon as it is spawned can get ahead of the main thread. */
  lemma FirstRegionPanics(s: State) returns (steps: seq<Step>)
    requires Init(s) && !s.dormant && s.limit > 0 && s.regions != []
    ensures steps == [Spawn, Enter(0, true), Announce(0)] && Panics(s, steps)
  {
    steps := [];
    RunOn(s, steps, Spawn);
    steps := steps + [Spawn];
    RunOn(s, steps, Enter(0, true));
    steps := steps + [Enter(0, true)];
    RunOn(s, steps, Announce(0));
    steps := steps + [Announce(0)];
  }

  /** No thread is ever spawned. */
  ghost predicate Childless(s: State) {
    && (s.limit == 0 || s.regions == [])
    && (s.main.Spawning? ==> s.main.next == 0) && !s.main.Recording? && s.queue == []
    && (forall r :: 0 <= r < |s.regions| ==> s.regions[r].Unborn?)
  }

  lemma {:induction false} ChildlessRun(s: State, steps: seq<Step>)
    requires Childless(s) && Run(s, steps) && !s.panicked
    ensures !After(s, steps).panicked
    decreases steps
  {
    if steps != [] {
      assert steps[0].Spawn?;
      ChildlessRun(Apply(s, steps[0]), steps[1..]);
    }
  }

  /** No run panics if and only if new threads sleep until they are recorded, or there is none to spawn. */
  lemma SafeIffDormant(s: State)
    requires Init(s)
    ensures (forall steps :: !Panics(s, steps)) <==> (s.dormant || s.limit == 0 || s.regions == [])
  {
    if s.dormant || s.limit == 0 || s.regions == [] {
      forall steps
        ensures !Panics(s, steps)
      {
        if Run(s, steps) {
          if s.dormant {
            OrderlyRun(s, steps);
          } else {
            ChildlessRun(s, steps);
          }
        }
      }
    } else {
      var steps := FirstRegionPanics(s);
    }
  }

  /** With nothing left to do, every region has reported and every report has been read. */
  lemma StuckDone(s: State)
    requires Inv(s) && Stuck(s) && !s.panicked
    ensures AllDone(s, false) && s.queue == []
  {
    assert !Enabled(s, Spawn) && !Enabled(s, Record) && !Enabled(s, Handle);
    forall r: nat | r < |s.regions|
      ensures s.regions[r].Done?
    {
      assert !Enabled(s, Enter(r, true)) && !Enabled(s, Announce(r)) && !Enabled(s, Continue(r, true)) && !Enabled(s, Finish(r, true));
      assert !Asks(s, Info(r)) && !Asks(s, Sync(r));
    }
  }

  /** A run that cannot go on has acknowledged the request exactly once, unless it panicked or the driver has no regions. */
  lemma EventuallyAcked(s: State, steps: seq<Step>)
    requires Init(s) && Run(s, steps) && s.limit >= |s.regions| && Stuck(After(s, steps))
    ensures |After(s, steps).acks| == if s.regions == [] || Early(s, steps) then 0 else 1
  {
    InitInv(s);
    RunInv(s, steps);
    OrderlyRun(s, steps);
    var t := After(s, steps);
    ReportsAll(t.regions, false);
    if !t.panicked {
      StuckDone(t);
    }
  }

  /** Had new threads slept until recorded, every run that cannot go on would have acknowledged exactly once. */
  lemma DormantAcked(s: State, steps: seq<Step>)
    requires Init(s) && Run(s, steps) && s.limit >= |s.regions| > 0 && s.dormant && Stuck(After(s, steps))
    ensures |After(s, steps).acks| == 1
  {
    OrderlyRun(s, steps);
    EventuallyAcked(s, steps);
  }

  function Weight(region: Region): nat {
    match region
    case Unborn => 8
    case Dormant => 8
    case Starting => 8
    case Announcing(_) => 6
    case AwaitInfo(_) => 5
    case AwaitSync(_) => 3
    case Done(_) => 1
  }

  function Weights(regions: seq<Region>): nat {
    if regions == [] then 0 else Weight(regions[0]) + Weights(regions[1..])
  }

  function MainWork(main: Main, count: nat): nat {
    match main
    case Spawning(next) => if next <= count then 2 * (count - next) + 1 else 0
    case Recording(next) => if next <= count then 2 * (count - next) else 0
    case Serving => 0
  }

  /** Steps a state still has in it, at most. */
  function Work(s: State): nat {
    Weights(s.regions) + |s.queue| + MainWork(s.main, |s.regions|) + if s.panicked then 0 else 1
  }

  lemma {:induction false} WeightsUpdate(regions: seq<Region>, r: nat, region: Region)
    requires r < |regions|
    ensures Weights(regions[r := region]) == Weights(regions) - Weight(regions[r]) + Weight(region)
  {
    if r == 0 {
      assert regions[r := region][1..] == regions[1..];
    } else {
      assert regions[r := region][0] == regions[0] && regions[r := region][1..] == regions[1..][r - 1 := region];
      WeightsUpdate(regions[1..], r - 1, region);
    }
  }

  lemma SpawnWork(s: State)
    requires Enabled(s, Spawn) && Spawned(s)
    ensures Work(Apply(s, Spawn)) < Work(s)
  {
    if s.main.next < |s.regions| {
      WeightsUpdate(s.regions, s.main.next, if s.dormant then Dormant else Starting);
    }
  }

  lemma RecordWork(s: State)
    requires Enabled(s, Record)
    ensures Work(Apply(s, Record)) < Work(s)
  {
    WeightsUpdate(s.regions, s.main.next, Woken(s.regions[s.main.next]));
  }

  lemma HandleWork(s: State)
    requires Enabled(s, Handle)
    ensures Work(Apply(s, Handle)) < Work(s)
  {
    WeightsUpdate(s.regions, s.queue[0].r, Replied(s.regions[s.queue[0].r]));
  }

  /** A region's step makes up for the message it posts. */
  lemma RegionWork(s: State, step: Step)
    requires Enabled(s, step) && IsRegionStep(step)
    ensures Work(Apply(s, step)) < Work(s)
  {
    WeightsUpdate(s.regions, step.r, Apply(s, step).regions[step.r]);
  }

  lemma StepWork(s: State, step: Step)
    requires Enabled(s, step) && Spawned(s)
    ensures Work(Apply(s, step)) < Work(s)
  {
    match step
    case Spawn => SpawnWork(s);
    case Record => RecordWork(s);
    case Handle => HandleWork(s);
    case _ => RegionWork(s, step);
  }

  /** Every run is finite: no interleaving can put the acknowledgement off for ever. */
  lemma {:induction false} RunBounded(s: State, steps: seq<Step>)
    requires Inv(s) && Run(s, steps)
    ensures |steps| <= Work(s)
    decreases steps
  {
    if steps != [] {
      StepInv(s, steps[0]);
      StepWork(s, steps[0]);
      RunBounded(Apply(s, steps[0]), steps[1..]);
    }
  }

  lemma {:induction false} RunOn(s: State, steps: seq<Step>, step: Step)
    requires Run(s, steps) && Enabled(After(s, steps), step)
    ensures Run(s, steps + [step]) && After(s, steps + [step]) == Apply(After(s, steps), step)
    decreases steps
  {
    var more := steps + [step];
    if steps == [] {
      assert more == [step] && more[1..] == [];
    } else {
      assert more[0] == steps[0] && more[1..] == steps[1..] + [step];
      RunOn(Apply(s, steps[0]), steps[1..], step);
    }
  }

  lemma {:induction false} SpawnMany(s: State, count: nat) returns (steps: seq<Step>)
    requires Init(s) && count <= s.limit && count <= |s.regions|
    ensures Run(s, steps)
    ensures var t := After(s, steps);
            && t.main == Spawning(count) && t.live && !t.faulted && !t.panicked
            && t.limit == s.limit && t.dormant == s.dormant && |t.regions| == |s.regions|
            && (count > 0 ==> t.regions[0] == Starting)
            && (forall r :: count <= r < |t.regions| ==> t.regions[r] == Unborn)
  {
    steps := [];
    if count > 0 {
      steps := SpawnMany(s, count - 1);
      RunOn(s, steps, Spawn);
      steps := steps + [Spawn];
      RunOn(s, steps, Record);
      steps := steps + [Record];
    }
  }

  /** When the second or a later thread cannot be spawned, a running region is left with a deleted context. */
  lemma FailedSpawnFaults(s: State) returns (steps: seq<Step>)
    requires Init(s) && 0 < s.limit < |s.regions|
    ensures Faults(s, steps)
  {
    steps := SpawnMany(s, s.limit);
    RunOn(s, steps, Spawn);
    steps := steps + [Spawn];
    RunOn(s, steps, Enter(0, true));
    steps := steps + [Enter(0, true)];
  }

  ghost predicate Faults(s: State, steps: seq<Step>) {
    Run(s, steps) && After(s, steps).faulted
  }

  /** With no thread at all, the request is refused once and nothing else happens. */
  ghost predicate Refused(s: State) {
    && !s.faulted && s.limit == 0 < |s.regions| && s.queue == []
    && (forall r :: 0 <= r < |s.regions| ==> s.regions[r].Unborn?)
    && (if s.main.Serving? then s.acks == [false] else s.main == Spawning(0) && s.live && s.acks == [])
  }

  lemma {:induction false} RefusedRun(s: State, steps: seq<Step>)
    requires Refused(s) && Run(s, steps)
    ensures Refused(After(s, steps))
    decreases steps
  {
    if steps != [] {
      assert steps[0].Spawn?;
      RefusedRun(Apply(s, steps[0]), steps[1..]);
    }
  }

  /** No run uses the context after its deletion if and only if all threads can be spawned, or none. */
  lemma SafeIffSpawned(s: State)
    requires Init(s)
    ensures (forall steps :: !Faults(s, steps)) <==> (s.limit >= |s.regions| || s.limit == 0)
  {
    if s.limit >= |s.regions| || s.limit == 0 {
      forall steps
        ensures !Faults(s, steps)
      {
        if Run(s, steps) {
          if s.limit >= |s.regions| {
            AckedOnce(s, steps);
          } else {
            RefusedRun(s, steps);
          }
        }
      }
    } else {
      var steps := FailedSpawnFaults(s);
    }
  }
}
