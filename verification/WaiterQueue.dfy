/** The single-waiter queue as a protocol: any number of producers, one consumer, one lock, step by step. */
module WaiterQueue {
  /** Items are addresses; a NULL item is an address too. */
  type Item = nat
  const NULL: Item := 0

  datatype Lock = Unlocked | ByConsumer | ByProducer(p: nat)

  /**
   * addItem: lock, store at the tail, unlock, then unblock the waiter in three steps: look at its state, mark it
   * runnable, put it in the run queue.
   */
  datatype Producer =
    | Outside
    | Entering(item: Item)
    | Locked(item: Item)
    | Stored
    | Refused
    | Due
    | Waking
    | Queueing

  /**
   * pop: lock, take from the head; with nothing taken, give up or go to sleep: mark itself blocked, leave the run
   * queue, and only then unlock.
   */
  datatype Consumer =
    | Resting
    | Calling(dontBlock: bool)
    | Looking(dontBlock: bool)
    | Got(item: Item)
    | GivingUp
    | FoundNone
    | Marked
    | Parking
    | Parked

  /**
   * `places` is how often the waiter stands in the scheduler's run queue; a running thread stands in it no more.
   * `atomicBlock` is whether marking the waiter blocked and taking it out of the run queue are one step; in the code
   * they are two, with no lock that a waker takes, so there it is false. `started` is whether the waiter has been
   * scheduled at all, and `panicked` records an addItem that found it was not.
   */
  datatype State = State(
    atomicBlock: bool, registered: bool, started: bool, panicked: bool,
    lock: Lock, queue: seq<Item>, blocked: bool, places: nat, consumer: Consumer, producers: seq<Producer>,
    enqueued: seq<Item>, removed: seq<Item>, returned: seq<Item>)

  datatype Step =
    | SetThread
    | Start
    | Enter(p: nat, item: Item)
    | Acquire(p: nat)
    | Store(p: nat, memory: bool)
    | Release(p: nat)
    | Look(p: nat)
    | Wake(p: nat)
    | Insert(p: nat)
    | Pop(dontBlock: bool)
    | PopAcquire
    | Take
    | Leave
    | Mark
    | Unqueue
    | BlockRelease
    | Resume

  ghost predicate Init(s: State) {
    && s.lock == Unlocked && s.queue == s.enqueued == s.removed == s.returned == []
    && !s.blocked && s.places == 0 && s.consumer == Resting && !s.registered && !s.panicked
    && forall p :: 0 <= p < |s.producers| ==> s.producers[p] == Outside
  }

  predicate At(s: State, p: nat, here: Producer) {
    p < |s.producers| && s.producers[p] == here
  }

  predicate Enabled(s: State, step: Step) {
    && !s.panicked
    && match step
    case SetThread => true
    case Start => true
    case Enter(p, _) => At(s, p, Outside)
    case Acquire(p) => p < |s.producers| && s.producers[p].Entering? && s.lock.Unlocked?
    case Store(p, _) => p < |s.producers| && s.producers[p].Locked?
    case Release(p) => At(s, p, Stored) || At(s, p, Refused)
    case Look(p) => At(s, p, Due)
    case Wake(p) => At(s, p, Waking)
    case Insert(p) => At(s, p, Queueing)
    case Pop(_) => s.consumer.Resting? && s.started
    case PopAcquire => s.consumer.Calling? && s.lock.Unlocked?
    case Take => s.consumer.Looking?
    case Leave => s.consumer.Got? || s.consumer.GivingUp?
    case Mark => s.consumer.FoundNone?
    case Unqueue => s.consumer.Marked?
    case BlockRelease => s.consumer.Parking?
    case Resume => s.consumer.Parked? && s.places > 0
  }

  /** Leaving the run queue takes out one entry, if there is one. */
  function OutOfQueue(s: State): State {
    s.(places := if s.places > 0 then s.places - 1 else 0, consumer := Parking)
  }

  function Apply(s: State, step: Step): State
    requires Enabled(s, step)
  {
    match step
    case SetThread => s.(registered := true)
    case Start => s.(started := true)
    case Enter(p, item) => s.(producers := s.producers[p := Entering(item)])
    case Acquire(p) => s.(lock := ByProducer(p), producers := s.producers[p := Locked(s.producers[p].item)])
    case Store(p, memory) =>
      if s.registered && memory then
        var item := s.producers[p].item;
        s.(queue := s.queue + [item], enqueued := s.enqueued + [item], producers := s.producers[p := Stored])
      else s.(producers := s.producers[p := Refused])
    case Release(p) => s.(lock := Unlocked, producers := s.producers[p := if s.producers[p].Stored? then Due else Outside])
    case Look(p) =>
      if !s.started then s.(panicked := true)
      else s.(producers := s.producers[p := if s.blocked then Waking else Outside])
    case Wake(p) => s.(blocked := false, producers := s.producers[p := Queueing])
    case Insert(p) => s.(places := s.places + 1, producers := s.producers[p := Outside])
    case Pop(dontBlock) => s.(consumer := Calling(dontBlock))
    case PopAcquire => s.(lock := ByConsumer, consumer := Looking(s.consumer.dontBlock))
    case Take =>
      var item := if s.queue == [] then NULL else s.queue[0];
      var after := if s.queue == [] then s else s.(queue := s.queue[1..], removed := s.removed + [item]);
      if item != NULL then after.(consumer := Got(item))
      else if s.consumer.dontBlock then after.(consumer := GivingUp)
      else after.(consumer := FoundNone)
    case Leave =>
      s.(lock := Unlocked, consumer := Resting, returned := if s.consumer.Got? then s.returned + [s.consumer.item] else s.returned)
    case Mark => if s.atomicBlock then OutOfQueue(s).(blocked := true) else s.(blocked := true, consumer := Marked)
    case Unqueue => OutOfQueue(s)
    case BlockRelease => s.(lock := Unlocked, consumer := Parked)
    case Resume => s.(blocked := false, places := s.places - 1, consumer := Calling(false))
  }

  /** A run from `s` through `steps`; `items` are the items producers may add. */
  ghost predicate Run(s: State, steps: seq<Step>, items: set<Item>)
    decreases steps
  {
    steps == [] || (
      && Enabled(s, steps[0]) && (steps[0].Enter? ==> steps[0].item in items)
      && Run(Apply(s, steps[0]), steps[1..], items))
  }

  function After(s: State, steps: seq<Step>, items: set<Item>): State
    requires Run(s, steps, items)
    decreases steps
  {
    if steps == [] then s else After(Apply(s, steps[0]), steps[1..], items)
  }

  /** Between storing its item and having put the waiter in the run queue. */
  predicate Owes(s: State, p: nat) {
    At(s, p, Stored) || At(s, p, Due) || At(s, p, Waking) || At(s, p, Queueing)
  }

  /** The waiter is parked outside the run queue, its own queue holds something, and nobody is going to wake it. */
  ghost predicate LostWakeup(s: State) {
    s.queue != [] && s.consumer.Parked? && s.places == 0 && !exists p :: Owes(s, p)
  }

  ghost predicate Loses(s: State, steps: seq<Step>, items: set<Item>) {
    Run(s, steps, items) && LostWakeup(After(s, steps, items))
  }

  predicate HoldsLock(s: State, p: nat) {
    p < |s.producers| && (s.producers[p].Locked? || s.producers[p].Stored? || s.producers[p].Refused?)
  }

  /** On its way to sleep or asleep. */
  predicate Sleeping(c: Consumer) {
    c.Marked? || c.Parking? || c.Parked?
  }

  predicate ConsumerHoldsLock(s: State) {
    s.consumer.Looking? || s.consumer.Got? || s.consumer.GivingUp? || s.consumer.FoundNone? || s.consumer.Marked? || s.consumer.Parking?
  }

  ghost predicate OneHolder(s: State) {
    && (forall p :: HoldsLock(s, p) ==> s.lock == ByProducer(p))
    && (ConsumerHoldsLock(s) ==> s.lock == ByConsumer)
  }

  /** What every step keeps, whatever the items. */
  ghost predicate Exclusive(s: State) {
    && OneHolder(s)
    && (s.blocked ==> Sleeping(s.consumer)) && (s.atomicBlock ==> !s.consumer.Marked?)
    && s.removed + s.queue == s.enqueued
  }

  /** A wakeup that falls between the waiter's marking itself and its leaving the run queue. */
  predicate Untimely(s: State, step: Step) {
    step.Wake? && s.consumer.Marked?
  }

  ghost predicate Timely(s: State, steps: seq<Step>, items: set<Item>)
    requires Run(s, steps, items)
    decreases steps
  {
    steps == [] || (!Untimely(s, steps[0]) && Timely(Apply(s, steps[0]), steps[1..], items))
  }

  ghost predicate Waked(s: State) {
    s.places > 0 || exists p :: At(s, p, Queueing)
  }

  ghost predicate NoNull(s: State) {
    && (forall p :: 0 <= p < |s.producers| && (s.producers[p].Entering? || s.producers[p].Locked?) ==> s.producers[p].item != NULL)
    && NULL !in s.queue
  }

  /** The waiter only goes to sleep on an empty queue, and what it took it hands to its caller. */
  ghost predicate Emptied(s: State) {
    && (s.consumer.FoundNone? || s.consumer.Marked? || s.consumer.Parking? ==> s.queue == [])
    && (s.consumer.Marked? ==> s.blocked)
    && s.removed == s.returned + (if s.consumer.Got? then [s.consumer.item] else [])
  }

  /** What every step keeps when no item is NULL and no wakeup is untimely. */
  ghost predicate Awake(s: State) {
    && NoNull(s) && Emptied(s)
    && ((s.consumer.Parking? || s.consumer.Parked?) && !s.blocked ==> Waked(s))
    && (s.consumer.Parked? && s.queue != [] ==> s.places > 0 || exists p :: Owes(s, p))
  }

  lemma HolderStep(s: State, step: Step)
    requires OneHolder(s) && Enabled(s, step)
    ensures OneHolder(Apply(s, step))
  {
    var t := Apply(s, step);
    assert step.Store? || step.Release? ==> HoldsLock(s, step.p);
    forall p | HoldsLock(t, p)
      ensures t.lock == ByProducer(p)
    {
      assert (step.Acquire? && step.p == p) || HoldsLock(s, p);
    }
  }

  lemma Moved(removed: seq<Item>, queue: seq<Item>, item: Item)
    ensures removed + (queue + [item]) == removed + queue + [item]
    ensures queue != [] ==> removed + [queue[0]] + queue[1..] == removed + queue
  {
  }

  lemma KeptStep(s: State, step: Step)
    requires s.removed + s.queue == s.enqueued && Enabled(s, step)
    ensures var t := Apply(s, step); t.removed + t.queue == t.enqueued
  {
    match step
    case Take => Moved(s.removed, s.queue, NULL);
    case Store(p, _) => Moved(s.removed, s.queue, s.producers[p].item);
    case _ =>
  }

  lemma ExclusiveStep(s: State, step: Step)
    requires Exclusive(s) && Enabled(s, step)
    ensures Exclusive(Apply(s, step))
  {
    HolderStep(s, step);
    KeptStep(s, step);
  }

  /** A producer that owes a wakeup owes it until the waiter is marked awake or stands in the run queue. */
  lemma OwesStep(s: State, step: Step, p: nat)
    requires Exclusive(s) && Enabled(s, step) && Owes(s, p)
    ensures Owes(Apply(s, step), p) || !Apply(s, step).blocked || Apply(s, step).places > 0
  {
  }

  lemma QueueingStays(s: State, step: Step, p: nat)
    requires Enabled(s, step) && At(s, p, Queueing)
    ensures At(Apply(s, step), p, Queueing) || Apply(s, step).places > 0
  {
  }

  /** A waiter marked awake while it parks is in the run queue, or about to be put there. */
  lemma WakedStep(s: State, step: Step)
    requires Emptied(s) && ((s.consumer.Parking? || s.consumer.Parked?) && !s.blocked ==> Waked(s))
    requires Enabled(s, step) && !Untimely(s, step)
    ensures var t := Apply(s, step);
            (t.consumer.Parking? || t.consumer.Parked?) && !t.blocked ==> Waked(t)
  {
    var t := Apply(s, step);
    if (t.consumer.Parking? || t.consumer.Parked?) && !t.blocked && t.places == 0 {
      if step.Wake? {
        assert At(t, step.p, Queueing);
      } else {
        assert Waked(s) && s.places == 0;
        var p :| At(s, p, Queueing);
        QueueingStays(s, step, p);
      }
    }
  }

  /** A parked waiter with something in its queue is in the run queue, or somebody owes it a wakeup. */
  lemma OwedStep(s: State, step: Step)
    requires Exclusive(s) && Awake(s) && Enabled(s, step) && !Untimely(s, step)
    ensures var t := Apply(s, step);
            t.consumer.Parked? && t.queue != [] ==> t.places > 0 || exists p :: Owes(t, p)
  {
    var t := Apply(s, step);
    if t.consumer.Parked? && t.queue != [] && t.places == 0 {
      WakedStep(s, step);
      if !t.blocked {
        var p :| At(t, p, Queueing);
        assert Owes(t, p);
      } else if step.Store? && s.queue == [] {
        assert Owes(t, step.p);
      } else {
        var p :| Owes(s, p);
        OwesStep(s, step, p);
      }
    }
  }

  lemma NoNullStep(s: State, step: Step)
    requires NoNull(s) && Enabled(s, step) && (step.Enter? ==> step.item != NULL)
    ensures NoNull(Apply(s, step))
  {
    match step
    case Store(p, _) =>
      assert s.producers[p].item != NULL;
    case Acquire(p) =>
      assert s.producers[p].item != NULL;
    case _ =>
  }

  lemma EmptiedStep(s: State, step: Step)
    requires OneHolder(s) && NoNull(s) && Emptied(s) && Enabled(s, step) && !Untimely(s, step)
    ensures Emptied(Apply(s, step))
  {
    assert step.Store? ==> HoldsLock(s, step.p);
  }

  lemma AwakeStep(s: State, step: Step)
    requires Exclusive(s) && Awake(s) && Enabled(s, step) && (step.Enter? ==> step.item != NULL) && !Untimely(s, step)
    ensures Awake(Apply(s, step))
  {
    NoNullStep(s, step);
    EmptiedStep(s, step);
    WakedStep(s, step);
    OwedStep(s, step);
  }

  lemma {:induction false} RunKeeps(s: State, steps: seq<Step>, items: set<Item>)
    requires Run(s, steps, items) && Exclusive(s)
    ensures Exclusive(After(s, steps, items))
    ensures NULL !in items && Awake(s) && Timely(s, steps, items) ==> Awake(After(s, steps, items))
    decreases steps
  {
    if steps != [] {
      ExclusiveStep(s, steps[0]);
      if NULL !in items && Awake(s) && Timely(s, steps, items) {
        AwakeStep(s, steps[0]);
      }
      RunKeeps(Apply(s, steps[0]), steps[1..], items);
    }
  }

  /** First in, first out, over every run: what has been removed, followed by the queue, is what was enqueued. */
  lemma Fifo(s: State, steps: seq<Step>, items: set<Item>)
    requires Init(s) && Run(s, steps, items)
    ensures var t := After(s, steps, items);
            t.removed + t.queue == t.enqueued
  {
    RunKeeps(s, steps, items);
  }

  /** Without NULL items and untimely wakeups no run loses a wakeup, and callers get every removed item, once and in order. */
  lemma NoLostWakeup(s: State, steps: seq<Step>, items: set<Item>)
    requires Init(s) && Run(s, steps, items) && NULL !in items && Timely(s, steps, items)
    ensures var t := After(s, steps, items);
            && !LostWakeup(t)
            && t.returned + (if t.consumer.Got? then [t.consumer.item] else []) + t.queue == t.enqueued
  {
    RunKeeps(s, steps, items);
  }

  /** A waiter that goes to sleep in one step leaves no time for an untimely wakeup. */
  lemma {:induction false} AtomicTimely(s: State, steps: seq<Step>, items: set<Item>)
    requires Run(s, steps, items) && Exclusive(s) && s.atomicBlock
    ensures Timely(s, steps, items)
    decreases steps
  {
    if steps != [] {
      ExclusiveStep(s, steps[0]);
      AtomicTimely(Apply(s, steps[0]), steps[1..], items);
    }
  }

  lemma {:induction false} RunOn(s: State, steps: seq<Step>, step: Step, items: set<Item>)
    requires Run(s, steps, items) && Enabled(After(s, steps, items), step) && (step.Enter? ==> step.item in items)
    ensures Run(s, steps + [step], items) && After(s, steps + [step], items) == Apply(After(s, steps, items), step)
    decreases steps
  {
    var more := steps + [step];
    if steps == [] {
      assert more == [step] && more[1..] == [];
    } else {
      assert more[0] == steps[0] && more[1..] == steps[1..] + [step];
      RunOn(Apply(s, steps[0]), steps[1..], step, items);
    }
  }

  /** Steps a producer has before it once it owes a wakeup. */
  function Duty(s: State, p: nat): nat {
    if At(s, p, Stored) then 4 else if At(s, p, Due) then 3 else if At(s, p, Waking) then 2 else 1
  }

  /**
   * A producer that owes a wakeup can always go on to give it, within four of its own steps: the waiter gets one more
   * entry in the run queue. A parked waiter can then resume; one that has yet to leave the run queue can still take
   * that entry out again.
   */
  lemma OwedWakeupArrives(s: State, p: nat) returns (steps: seq<Step>)
    requires Exclusive(s) && s.started && !s.panicked && Owes(s, p) && (s.blocked || At(s, p, Waking) || At(s, p, Queueing))
    ensures |steps| <= Duty(s, p) <= 4 && Run(s, steps, {}) && After(s, steps, {}).places == s.places + 1
    ensures forall i :: 0 <= i < |steps| ==> steps[i] in {Release(p), Look(p), Wake(p), Insert(p)}
    ensures var t := After(s, steps, {});
            && (s.consumer.Parked? ==> Enabled(t, Resume))
            && (s.consumer.Marked? ==> Enabled(t, Unqueue) && Apply(t, Unqueue).places == s.places)
    decreases Duty(s, p)
  {
    var step := if At(s, p, Stored) then Release(p) else if At(s, p, Due) then Look(p) else if At(s, p, Waking) then Wake(p) else Insert(p);
    var t := Apply(s, step);
    ExclusiveStep(s, step);
    if step.Insert? {
      steps := [step];
      assert steps[1..] == [];
    } else {
      var rest := OwedWakeupArrives(t, p);
      steps := [step] + rest;
      assert steps[1..] == rest;
    }
  }

  /** The waiter's thread is set and started. */
  lemma Ready(s: State, items: set<Item>) returns (steps: seq<Step>)
    requires Init(s)
    ensures Run(s, steps, items) && After(s, steps, items) == s.(registered := true, started := true)
  {
    RunOn(s, [], SetThread, items);
    steps := [] + [SetThread];
    RunOn(s, steps, Start, items);
    steps := steps + [Start];
  }

  /** One undisturbed store and unlock. */
  lemma AddItem(s: State, steps: seq<Step>, p: nat, item: Item, items: set<Item>) returns (more: seq<Step>)
    requires Run(s, steps, items) && item in items
    requires var t := After(s, steps, items);
             t.registered && !t.panicked && t.lock.Unlocked? && At(t, p, Outside)
    ensures Run(s, more, items)
    ensures var t := After(s, steps, items);
            After(s, more, items) ==
              t.(queue := t.queue + [item], enqueued := t.enqueued + [item], producers := t.producers[p := Due])
  {
    var t := After(s, steps, items);
    RunOn(s, steps, Enter(p, item), items);
    more := steps + [Enter(p, item)];
    RunOn(s, more, Acquire(p), items);
    more := more + [Acquire(p)];
    RunOn(s, more, Store(p, true), items);
    more := more + [Store(p, true)];
    RunOn(s, more, Release(p), items);
    more := more + [Release(p)];
    assert After(s, more, items).producers == t.producers[p := Due];
  }

  /** A whole addItem that finds the waiter not blocked. */
  lemma AddUnseen(s: State, steps: seq<Step>, item: Item, items: set<Item>) returns (more: seq<Step>)
    requires Run(s, steps, items) && item in items
    requires var t := After(s, steps, items);
             t.registered && t.started && !t.panicked && t.lock.Unlocked? && !t.blocked && At(t, 0, Outside)
    ensures Run(s, more, items)
    ensures var t := After(s, steps, items);
            After(s, more, items) == t.(queue := t.queue + [item], enqueued := t.enqueued + [item])
  {
    var t := After(s, steps, items);
    more := AddItem(s, steps, 0, item, items);
    RunOn(s, more, Look(0), items);
    more := more + [Look(0)];
    assert After(s, more, items).producers == t.producers;
  }

  /** A call of pop, up to what it takes from the head. */
  lemma PopTakes(s: State, steps: seq<Step>, items: set<Item>) returns (more: seq<Step>)
    requires Run(s, steps, items)
    requires var t := After(s, steps, items);
             t.started && !t.panicked && t.lock.Unlocked? && t.consumer.Resting?
    ensures Run(s, more, items)
    ensures var t := After(s, steps, items).(lock := ByConsumer);
            var left := if t.queue == [] then t else t.(queue := t.queue[1..], removed := t.removed + [t.queue[0]]);
            After(s, more, items) ==
              left.(consumer := if t.queue == [] || t.queue[0] == NULL then FoundNone else Got(t.queue[0]))
  {
    RunOn(s, steps, Pop(false), items);
    more := steps + [Pop(false)];
    RunOn(s, more, PopAcquire, items);
    more := more + [PopAcquire];
    RunOn(s, more, Take, items);
    more := more + [Take];
  }

  /** A waiter that found nothing goes to sleep undisturbed. */
  lemma GoToSleep(s: State, steps: seq<Step>, items: set<Item>) returns (more: seq<Step>)
    requires Run(s, steps, items)
    requires var t := After(s, steps, items);
             !t.panicked && t.consumer.FoundNone? && t.places == 0
    ensures Run(s, more, items)
    ensures var t := After(s, steps, items);
            After(s, more, items) == t.(blocked := true, lock := Unlocked, consumer := Parked)
  {
    RunOn(s, steps, Mark, items);
    more := steps + [Mark];
    if !s.atomicBlock {
      AtomicStays(s, steps, items);
      RunOn(s, more, Unqueue, items);
      more := more + [Unqueue];
    } else {
      AtomicStays(s, steps, items);
    }
    RunOn(s, more, BlockRelease, items);
    more := more + [BlockRelease];
  }

  lemma {:induction false} AtomicStays(s: State, steps: seq<Step>, items: set<Item>)
    requires Run(s, steps, items)
    ensures After(s, steps, items).atomicBlock == s.atomicBlock
    decreases steps
  {
    if steps != [] {
      AtomicStays(Apply(s, steps[0]), steps[1..], items);
    }
  }

  /** Two NULL items: the waiter takes the first for an empty queue and goes to sleep on the second. */
  lemma NullLosesWakeup(s: State, items: set<Item>) returns (steps: seq<Step>)
    requires Init(s) && s.producers != [] && NULL in items
    ensures Loses(s, steps, items)
  {
    steps := Ready(s, items);
    steps := AddUnseen(s, steps, NULL, items);
    steps := AddUnseen(s, steps, NULL, items);
    assert After(s, steps, items).queue == [NULL, NULL];
    steps := PopTakes(s, steps, items);
    steps := GoToSleep(s, steps, items);
  }

  /** The waiter takes an item and comes back for more, finding nothing, before the item's producer looks at it. */
  lemma ComesBack(s: State, x: Item, items: set<Item>) returns (steps: seq<Step>)
    requires Init(s) && s.producers != [] && x in items && x != NULL
    ensures Run(s, steps, items)
    ensures var t := After(s, steps, items);
            && t.registered && t.started && !t.panicked && !t.blocked && t.places == 0 && t.queue == []
            && t.consumer.FoundNone? && t.producers == s.producers[0 := Due] && t.atomicBlock == s.atomicBlock
  {
    steps := Ready(s, items);
    steps := AddItem(s, steps, 0, x, items);
    assert After(s, steps, items).queue == [x];
    steps := PopTakes(s, steps, items);
    RunOn(s, steps, Leave, items);
    steps := steps + [Leave];
    steps := PopTakes(s, steps, items);
  }

  /**
   * One producer, no NULL: it wakes the waiter between the waiter's marking itself blocked and its leaving the run
   * queue. The waiter takes the new entry out itself and is parked for good, marked runnable.
   */
  lemma UntimelyStrands(s: State, x: Item, items: set<Item>) returns (steps: seq<Step>)
    requires Init(s) && s.producers != [] && !s.atomicBlock && x in items && x != NULL
    ensures Run(s, steps, items) && Stranded(After(s, steps, items))
    ensures var t := After(s, steps, items);
            t.registered && t.started && !t.panicked && t.lock.Unlocked? && t.queue == [] && t.producers == s.producers
  {
    steps := ComesBack(s, x, items);
    RunOn(s, steps, Mark, items);
    steps := steps + [Mark];
    RunOn(s, steps, Look(0), items);
    steps := steps + [Look(0)];
    RunOn(s, steps, Wake(0), items);
    steps := steps + [Wake(0)];
    RunOn(s, steps, Insert(0), items);
    steps := steps + [Insert(0)];
    RunOn(s, steps, Unqueue, items);
    steps := steps + [Unqueue];
    RunOn(s, steps, BlockRelease, items);
    steps := steps + [BlockRelease];
    assert After(s, steps, items).producers == s.producers;
  }

  /** Parked outside the run queue and marked runnable, so that every later addItem takes the waiter to be awake. */
  ghost predicate Stranded(s: State) {
    && s.consumer.Parked? && s.places == 0 && !s.blocked
    && forall p :: 0 <= p < |s.producers| ==> !s.producers[p].Waking? && !s.producers[p].Queueing?
  }

  /** A stranded waiter never runs again, whatever anybody does. */
  lemma {:induction false} StrandedForever(s: State, steps: seq<Step>, items: set<Item>)
    requires Stranded(s) && Run(s, steps, items)
    ensures Stranded(After(s, steps, items)) && After(s, steps, items).returned == s.returned
    decreases steps
  {
    if steps != [] {
      StrandedForever(Apply(s, steps[0]), steps[1..], items);
    }
  }

  /** The next item is stored and never taken. */
  lemma UntimelyLosesWakeup(s: State, x: Item, items: set<Item>) returns (steps: seq<Step>)
    requires Init(s) && s.producers != [] && !s.atomicBlock && x in items && x != NULL
    ensures Loses(s, steps, items) && Stranded(After(s, steps, items))
  {
    steps := UntimelyStrands(s, x, items);
    steps := AddUnseen(s, steps, x, items);
  }

  /** Without producers, or items for them to add, nothing is ever stored. */
  lemma {:induction false} NothingStored(s: State, steps: seq<Step>, items: set<Item>)
    requires Run(s, steps, items) && (s.producers == [] || items == {}) && s.queue == [] && !s.panicked
    requires forall p :: 0 <= p < |s.producers| ==> s.producers[p] == Outside
    ensures After(s, steps, items).queue == [] && !After(s, steps, items).panicked
    decreases steps
  {
    if steps != [] {
      NothingStored(Apply(s, steps[0]), steps[1..], items);
    }
  }

  /** No run loses a wakeup if and only if nothing can be added, or blocking is one step and no item is NULL. */
  lemma SafeIff(s: State, items: set<Item>)
    requires Init(s)
    ensures (forall steps :: !Loses(s, steps, items)) <==>
              (s.producers == [] || items == {} || (s.atomicBlock && NULL !in items))
  {
    if s.producers == [] || items == {} || (s.atomicBlock && NULL !in items) {
      forall steps
        ensures !Loses(s, steps, items)
      {
        if Run(s, steps, items) {
          if s.producers == [] || items == {} {
            NothingStored(s, steps, items);
          } else {
            AtomicTimely(s, steps, items);
            NoLostWakeup(s, steps, items);
          }
        }
      }
    } else if NULL in items {
      var steps := NullLosesWakeup(s, items);
    } else {
      var x :| x in items;
      var steps := UntimelyLosesWakeup(s, x, items);
    }
  }

  /** Inside a pop that was asked not to block. */
  predicate NotWaiting(c: Consumer) {
    c == Calling(true) || c == Looking(true) || c.Got? || c.GivingUp?
  }

  /** A pop that was asked not to block is not marked blocked, nor parked, at any point before it returns. */
  lemma {:induction false} DontBlockStays(s: State, steps: seq<Step>, items: set<Item>)
    requires Exclusive(s) && NotWaiting(s.consumer) && Run(s, steps, items)
    requires forall i :: 0 <= i < |steps| ==> steps[i] != Leave
    ensures NotWaiting(After(s, steps, items).consumer) && !After(s, steps, items).blocked
    decreases steps
  {
    if steps != [] {
      ExclusiveStep(s, steps[0]);
      assert steps[0] != Leave && NotWaiting(Apply(s, steps[0]).consumer);
      DontBlockStays(Apply(s, steps[0]), steps[1..], items);
    }
  }

  /** Once it gets the lock it returns in two steps: with the head of the queue if that is an item, else with nothing. */
  lemma DontBlockReturns(s: State)
    requires Enabled(s, PopAcquire) && s.consumer == Calling(true)
    ensures Run(s, [PopAcquire, Take, Leave], {})
    ensures var t := After(s, [PopAcquire, Take, Leave], {});
            && t.consumer == Resting && t.lock == Unlocked && t.blocked == s.blocked && t.places == s.places
            && t.queue == (if s.queue == [] then [] else s.queue[1..])
            && t.returned == if s.queue == [] || s.queue[0] == 0 then s.returned else s.returned + [s.queue[0]]
  {
    var steps := [];
    RunOn(s, steps, PopAcquire, {});
    steps := steps + [PopAcquire];
    RunOn(s, steps, Take, {});
    steps := steps + [Take];
    RunOn(s, steps, Leave, {});
    steps := steps + [Leave];
    assert steps == [PopAcquire, Take, Leave];
  }

  /** Inside a pop that may block. */
  predicate MayWait(c: Consumer) {
    c == Calling(false) || c == Looking(false) || (c.Got? && c.item != 0) || c.FoundNone? || Sleeping(c)
  }

  /** A pop that may block, however often it is woken, does not return without an item. */
  lemma {:induction false} BlockingStays(s: State, steps: seq<Step>, items: set<Item>)
    requires MayWait(s.consumer) && Run(s, steps, items)
    requires forall i :: 0 <= i < |steps| ==> steps[i] != Leave
    ensures MayWait(After(s, steps, items).consumer)
    ensures var t := After(s, steps, items);
            Enabled(t, Leave) ==> t.consumer.Got? && Apply(t, Leave).returned == t.returned + [t.consumer.item]
    decreases steps
  {
    if steps != [] {
      assert steps[0] != Leave && MayWait(Apply(s, steps[0]).consumer);
      BlockingStays(Apply(s, steps[0]), steps[1..], items);
    }
  }

  predicate WakesWaiter(step: Step) {
    step.Look? || step.Wake? || step.Insert?
  }

  lemma RefusedStep(s: State, step: Step)
    requires Enabled(s, step) && (forall p :: !Owes(s, p)) && (step.Store? ==> !s.registered || !step.memory)
    ensures !WakesWaiter(step) && forall p :: !Owes(Apply(s, step), p)
  {
    if WakesWaiter(step) {
      assert Owes(s, step.p);
    }
    forall p
      ensures !Owes(Apply(s, step), p)
    {
      assert !Owes(s, p);
    }
  }

  /** An addItem that is refused leaves the waiter alone. */
  lemma {:induction false} RefusedWakesNobody(s: State, steps: seq<Step>, items: set<Item>)
    requires Run(s, steps, items) && forall p :: !Owes(s, p)
    requires || (!s.registered && forall i :: 0 <= i < |steps| ==> steps[i] != SetThread)
             || forall i :: 0 <= i < |steps| && steps[i].Store? ==> !steps[i].memory
    ensures forall i :: 0 <= i < |steps| ==> !WakesWaiter(steps[i])
    decreases steps
  {
    if steps != [] {
      var t, rest := Apply(s, steps[0]), steps[1..];
      RefusedStep(s, steps[0]);
      assert forall i :: 0 <= i < |rest| ==> rest[i] == steps[i + 1];
      RefusedWakesNobody(t, rest, items);
    }
  }

  /** addItem stores nothing while no thread is set, nor when there is no memory for the item. */
  lemma {:induction false} NothingEnqueued(s: State, steps: seq<Step>, items: set<Item>)
    requires Run(s, steps, items)
    requires || (!s.registered && forall i :: 0 <= i < |steps| ==> steps[i] != SetThread)
             || forall i :: 0 <= i < |steps| && steps[i].Store? ==> !steps[i].memory
    ensures After(s, steps, items).enqueued == s.enqueued
    decreases steps
  {
    if steps != [] {
      var t, rest := Apply(s, steps[0]), steps[1..];
      assert forall i :: 0 <= i < |rest| ==> rest[i] == steps[i + 1];
      NothingEnqueued(t, rest, items);
    }
  }

  ghost predicate Panics(s: State, steps: seq<Step>, items: set<Item>) {
    Run(s, steps, items) && After(s, steps, items).panicked
  }

  lemma {:induction false} StartedRun(s: State, steps: seq<Step>, items: set<Item>)
    requires Run(s, steps, items) && s.started && !s.panicked
    ensures !After(s, steps, items).panicked
    decreases steps
  {
    if steps != [] {
      StartedRun(Apply(s, steps[0]), steps[1..], items);
    }
  }

  /** addItem never panics if and only if the waiter is scheduled before anything can be added. */
  lemma PanicFreeIffStarted(s: State, items: set<Item>)
    requires Init(s)
    ensures (forall steps :: !Panics(s, steps, items)) <==> (s.started || s.producers == [] || items == {})
  {
    if s.started || s.producers == [] || items == {} {
      forall steps
        ensures !Panics(s, steps, items)
      {
        if Run(s, steps, items) {
          if s.started {
            StartedRun(s, steps, items);
          } else {
            NothingStored(s, steps, items);
          }
        }
      }
    } else {
      var x :| x in items;
      RunOn(s, [], SetThread, items);
      var steps := AddItem(s, [] + [SetThread], 0, x, items);
      RunOn(s, steps, Look(0), items);
      assert Panics(s, steps + [Look(0)], items);
    }
  }

  /** What every step keeps when there is at most one producer. */
  ghost predicate Alone(s: State) {
    && |s.producers| <= 1 && s.places <= 1 && (s.blocked ==> Sleeping(s.consumer))
    && (s.places > 0 ==> Sleeping(s.consumer) && !s.blocked)
    && (s.producers != [] && s.producers[0].Waking? ==> s.blocked)
    && (s.producers != [] && s.producers[0].Queueing? ==> Sleeping(s.consumer) && !s.blocked && s.places == 0)
  }

  lemma AloneStep(s: State, step: Step)
    requires Alone(s) && Enabled(s, step)
    ensures Alone(Apply(s, step))
  {
    match step
    case Look(_) =>
    case Wake(_) =>
    case Insert(_) =>
    case _ =>
  }

  lemma {:induction false} AloneRun(s: State, steps: seq<Step>, items: set<Item>)
    requires Alone(s) && Run(s, steps, items)
    ensures Alone(After(s, steps, items))
    decreases steps
  {
    if steps != [] {
      AloneStep(s, steps[0]);
      AloneRun(Apply(s, steps[0]), steps[1..], items);
    }
  }

  ghost predicate Doubles(s: State, steps: seq<Step>, items: set<Item>) {
    Run(s, steps, items) && After(s, steps, items).places > 1
  }

  /** Producer `p` adds an item and sees that the waiter is blocked. */
  lemma AddAndLook(s: State, steps: seq<Step>, p: nat, item: Item, items: set<Item>) returns (more: seq<Step>)
    requires Run(s, steps, items) && item in items
    requires var t := After(s, steps, items);
             t.registered && t.started && !t.panicked && t.lock.Unlocked? && t.blocked && At(t, p, Outside)
    ensures Run(s, more, items)
    ensures var t := After(s, steps, items);
            After(s, more, items) ==
              t.(queue := t.queue + [item], enqueued := t.enqueued + [item], producers := t.producers[p := Waking])
  {
    more := AddItem(s, steps, p, item, items);
    RunOn(s, more, Look(p), items);
    more := more + [Look(p)];
    assert After(s, more, items).producers == After(s, steps, items).producers[p := Waking];
  }

  /** Two producers that both saw the waiter blocked both put it in the run queue. */
  lemma TwoWakersDouble(s: State, items: set<Item>, item: Item) returns (steps: seq<Step>)
    requires Init(s) && |s.producers| >= 2 && item in items
    ensures Doubles(s, steps, items)
  {
    steps := Ready(s, items);
    steps := PopTakes(s, steps, items);
    steps := GoToSleep(s, steps, items);
    steps := AddAndLook(s, steps, 0, item, items);
    steps := AddAndLook(s, steps, 1, item, items);
    RunOn(s, steps, Wake(0), items);
    steps := steps + [Wake(0)];
    RunOn(s, steps, Wake(1), items);
    steps := steps + [Wake(1)];
    RunOn(s, steps, Insert(0), items);
    steps := steps + [Insert(0)];
    RunOn(s, steps, Insert(1), items);
    steps := steps + [Insert(1)];
  }

  /** The waiter never stands in the run queue twice if and only if there is at most one producer. */
  lemma QueuedOnceIffOneProducer(s: State, items: set<Item>)
    requires Init(s) && items != {}
    ensures (forall steps :: !Doubles(s, steps, items)) <==> |s.producers| <= 1
  {
    if |s.producers| <= 1 {
      forall steps
        ensures !Doubles(s, steps, items)
      {
        if Run(s, steps, items) {
          AloneRun(s, steps, items);
        }
      }
    } else {
      var item :| item in items;
      var steps := TwoWakersDouble(s, items, item);
    }
  }
}
