/** croutine.c as it is written: loops over the lists, each of whose runs is a run of atomic steps. */
module CoRoutines {
  import opened KernelList
  import opened Wrappers
  import opened CoRoutineKernel
  import opened CoRoutineRuns

  class Scheduler {
    const levels: nat
    var crs: seq<Crcb>
    var lists: map<Where, Items>
    var delayed: Where
    var overflow: Where
    var top: nat
    var tick: Tick
    var lastTick: Tick
    var current: Id
    var arrivals: nat
    /** The events interrupts will signal, one entry for each coming point where they are enabled. */
    var signals: seq<seq<nat>>
    ghost var phase: Phase
    /** The steps made since the start. */
    ghost const start: Kernel
    ghost var run: seq<Step>

    ghost function K(): Kernel
      reads this
    {
      Kernel(levels, crs, lists, delayed == Delay2, top, tick, current, phase, arrivals)
    }

    /** The state is one that a run of the atomic steps reaches. pxCurrentCoRoutine is set by the first
        creation. */
    ghost predicate Valid()
      reads this
    {
      && Inv(K()) && Reaches(start, run, K())
      && (delayed == Delay1 || delayed == Delay2) && overflow == K().Overflow()
      && (current == 0 || current < |crs|)
    }

    /** prvInitialiseCoRoutineLists */
    constructor (levels: nat, events: nat, signals: seq<seq<nat>>)
      requires 0 < levels
      ensures Valid() && start == K() == Initial(levels, events) && run == [] && lastTick == tick
    {
      hide Inv, StartLists;
      this.levels := levels;
      crs, delayed, overflow, top, tick, lastTick, current, arrivals, phase := [], Delay1, Delay2, 0, 0, 0, 0, 0, Idle;
      lists := StartLists(levels, events);
      this.signals := signals;
      start, run := Initial(levels, events), [];
      new;
      InitialInv(levels, events);
    }

    /** uxListRemove */
    method RemoveItem(x: Id, generic: bool)
      requires x < |crs| && Container(crs[x], generic) in lists && x in lists[Container(crs[x], generic)].ids
      modifies this`crs, this`lists
      ensures K() == Take(old(K()), x, generic)
    {
      var w := Container(crs[x], generic);
      lists := lists[w := TakenOut(lists[w], x)];
      crs := crs[x := SetContainer(crs[x], generic, Nowhere)];
    }

    /** prvAddCoRoutineToReadyQueue */
    method AddToReadyQueue(x: Id)
      requires x < |crs| && Ready(crs[x].priority) in lists
      requires lists[Ready(crs[x].priority)].at <= |lists[Ready(crs[x].priority)].ids|
      modifies this`crs, this`lists, this`top
      ensures K() == AddReady(old(K()), x)
    {
      var p := crs[x].priority;
      if p > top {
        top := p;
      }
      lists := lists[Ready(p) := PutIn(lists[Ready(p)], EndPlace(|lists[Ready(p)].ids|, lists[Ready(p)].at), x)];
      crs := crs[x := crs[x].(generic := Ready(p))];
    }

    /** xCoRoutineCreate, once memory has been found. */
    method Create(priority: nat)
      requires Valid()
      modifies this`crs, this`lists, this`top, this`run
      ensures Valid() && K() == CoRoutineKernel.Create(old(K()), priority) && run == old(run) + [Creates(priority)]
    {
      hide Inv, Lists, Linked, Reaches;
      ghost var k := K();
      StepTaken(start, run, k, Creates(priority));
      run := run + [Creates(priority)];
      NewIsReady(k, priority);
      var p := if priority >= levels then levels - 1 else priority;
      crs := crs + [Crcb(p, 0, Nowhere, Nowhere, 0)];
      AddToReadyQueue(|crs| - 1);
    }

    /** vCoRoutineAddToDelayedList, its first part */
    method JoinDelayList(ticks: Tick)
      requires Valid() && phase == Running
      modifies this`crs, this`lists
      ensures K() == ToDelayList(old(K()), ticks)
    {
      hide Inv, Lists, Linked, TakenOut, Put, WakeTimes, Place, PutByWake;
      ghost var k := K();
      InvPhase(k);
      InvAt(k, current);
      TakeLists(k, current, true);
      var wake := (tick + ticks) % TICKS;
      RemoveItem(current, true);
      var w := if wake < tick then overflow else delayed;
      InsertByWake(w, wake);
    }

    /** The value is set and vListInsert called. */
    method InsertByWake(w: Where, wake: Tick)
      requires current < |crs| && w in lists && ForGeneric(w)
      modifies this`crs, this`lists
      ensures K() == PutByWake(old(K()), current, w, wake)
    {
      hide Inv, WakeTimes, Place, PutIn;
      ghost var k := K();
      crs := crs[current := crs[current].(wake := wake)];
      ghost var k1 := k.(crs := crs);
      ghost var i := Place(WakeTimes(crs, lists[w].ids), wake);
      lists := lists[w := PutIn(lists[w], Place(WakeTimes(crs, lists[w].ids), wake), current)];
      crs := crs[current := SetContainer(crs[current], true, w)];
      assert K() == Put(k1, current, w, i);
    }

    method JoinEventList(e: nat)
      requires current < |crs| && Event(e) in lists
      modifies this`crs, this`lists, this`arrivals
      ensures K() == ToEventList(old(K()), current, e)
    {
      var w := Event(e);
      var i := Place(EventValues(crs, levels, lists[w].ids), EventValue(crs[current], levels));
      crs := crs[current := crs[current].(arrival := arrivals)];
      arrivals := arrivals + 1;
      lists := lists[w := PutIn(lists[w], i, current)];
      crs := crs[current := crs[current].(event := w)];
    }

    /** vCoRoutineAddToDelayedList */
    method AddToDelayedList(ticks: Tick, event: Option<nat>)
      requires Valid() && phase == Running && 0 < ticks && levels <= MAX_DELAY
      requires event.Some? ==> Event(event.value) in lists
      modifies this`crs, this`lists, this`arrivals, this`phase, this`run
      ensures Valid() && K() == Delay(old(K()), ticks, event) && run == old(run) + [Delays(ticks, event)]
    {
      hide Inv, Lists, Linked, ToDelayList, ToEventList, Reaches;
      ghost var k := K();
      StepTaken(start, run, k, Delays(ticks, event));
      InvPhase(k);
      ToDelayListLists(k, ticks);
      JoinDelayList(ticks);
      if event.Some? {
        JoinEventList(event.value);
      }
      phase := Idle;
      run := run + [Delays(ticks, event)];
      DelaySize(k, ticks, event);
    }

    /** xCoRoutineRemoveFromEventList, for an event list that is not empty; it reports whether the
        woken co-routine has at least the priority of the current one. */
    method RemoveFromEventList(e: nat) returns (atLeast: bool)
      requires Valid() && Event(e) in lists && lists[Event(e)].ids != []
      modifies this`crs, this`lists, this`run
      ensures Valid() && K() == Wake(old(K()), e) && run == old(run) + [Wakes(e)] && OnlyWakes(old(K()), K())
      ensures var x := old(lists[Event(e)].ids[0]);
              x < |crs| && current < |crs| && (atLeast <==> crs[x].priority >= crs[current].priority)
    {
      hide Inv, Lists, Linked, Reaches, Wake;
      ghost var k := K();
      StepTaken(start, run, k, Wakes(e));
      run := run + [Wakes(e)];
      WakesOnly(k, e);
      var x := lists[Event(e)].ids[0];
      InvPhase(k);
      MoveToPending(e, x);
      atLeast := crs[x].priority >= crs[current].priority;
    }

    /** The head x of the event list e is removed and goes to the end of the pending list. */
    method MoveToPending(e: nat, x: Id)
      requires Inv(K()) && Event(e) in lists && lists[Event(e)].ids != [] && x == lists[Event(e)].ids[0]
      modifies this`crs, this`lists
      ensures K() == Wake(old(K()), e) && x < |crs|
    {
      hide Inv, Lists, Linked, TakenOut;
      ghost var k := K();
      InvPhase(k);
      LinkedAt(k.crs, k.lists, Event(e), x);
      RemoveItem(x, false);
      lists := lists[Pending := PutIn(lists[Pending], EndPlace(|lists[Pending].ids|, lists[Pending].at), x)];
      crs := crs[x := crs[x].(event := Pending)];
    }

    /** A point where interrupts are enabled: those that come now signal their events. */
    method Interrupt()
      requires Valid()
      modifies this`crs, this`lists, this`signals, this`run
      ensures Valid() && OnlyWakes(old(K()), K()) && Continues(old(run), run, 0)
    {
      hide Inv, Lists, Reaches, Wake, Continues;
      ghost var k, r := K(), run;
      InvPhase(k);
      ContinuesSelf(r);
      if signals != [] {
        var now := signals[0];
        signals := signals[1..];
        for i := 0 to |now|
          invariant Valid() && OnlyWakes(k, K()) && Continues(r, run, 0)
        {
          if Event(now[i]) in lists && lists[Event(now[i])].ids != [] {
            ghost var k1 := K();
            ContinuesStep(r, run, 0, Wakes(now[i]));
            var _ := RemoveFromEventList(now[i]);
            OnlyWakesTwice(k, k1, K());
          }
        }
      }
    }

    /** prvCheckPendingReadyList, its critical section */
    method TakePending() returns (x: Id)
      requires Valid() && phase == Idle && lists[Pending].ids != []
      modifies this`crs, this`lists, this`phase, this`run
      ensures Valid() && K() == PendingTake(old(K())) && phase == Moving(x) && run == old(run) + [PendingTakes]
    {
      hide Inv, Lists, Linked, TakenOut, Reaches;
      ghost var k := K();
      StepTaken(start, run, k, PendingTakes);
      run := run + [PendingTakes];
      InvPhase(k);
      x := lists[Pending].ids[0];
      LinkedAt(k.crs, k.lists, Pending, x);
      RemoveItem(x, false);
      phase := Moving(x);
    }

    method MakeReady(x: Id)
      requires Valid() && phase == Moving(x)
      modifies this`crs, this`lists, this`top, this`phase, this`run
      ensures Valid() && phase == Idle && K() == PendingMove(old(K())) && run == old(run) + [PendingMoves]
    {
      hide Inv, Lists, Linked, TakenOut, Reaches, AddReady;
      ghost var k := K();
      StepTaken(start, run, k, PendingMoves);
      run := run + [PendingMoves];
      InvPhase(k);
      InvAt(k, x);
      TakeLists(k, x, true);
      AddReadyLists(Take(k, x, true), x);
      RemoveItem(x, true);
      AddToReadyQueue(x);
      phase := Idle;
    }

    /** prvCheckPendingReadyList: afterwards nothing is pending. */
    method CheckPendingReadyList()
      requires Valid() && phase == Idle
      modifies this`crs, this`lists, this`top, this`phase, this`run, this`signals
      ensures Valid() && phase == Idle && Continues(old(run), run, 0)
      ensures Pending in lists && lists[Pending].ids == []
    {
      hide Inv, Lists, Reaches, Continues, Blocked;
      ContinuesSelf(run);
      InvPhase(K());
      while lists[Pending].ids != []
        invariant Valid() && phase == Idle && Continues(old(run), run, 0) && Pending in lists
        decreases Blocked(K())
      {
        MoveFirstPending(old(run));
        InvPhase(K());
      }
    }

    method MoveFirstPending(ghost r: seq<Step>)
      requires Valid() && phase == Idle && Pending in lists && lists[Pending].ids != [] && Continues(r, run, 0)
      modifies this`crs, this`lists, this`top, this`phase, this`run, this`signals
      ensures Valid() && phase == Idle && Continues(r, run, 0) && Blocked(K()) < Blocked(old(K()))
    {
      hide Inv, Lists, Reaches, Continues, Blocked, PendingTake, PendingMove;
      ghost var k, r1 := K(), run;
      Interrupt();
      BlockedAfterWakes(k, K());
      ContinuesTwice(r, r1, run, 0, 0);
      BlockedAfterTake(K());
      ContinuesStep(r, run, 0, PendingTakes);
      var x := TakePending();
      ghost var k2, r2 := K(), run;
      Interrupt();
      BlockedAfterWakes(k2, K());
      ContinuesTwice(r, r2, run, 0, 0);
      BlockedAfterMove(K());
      ContinuesStep(r, run, 0, PendingMoves);
      MakeReady(x);
    }

    /** prvCheckDelayedList: the tick counter is brought up to now, one tick at a time. */
    method CheckDelayedList(now: Tick)
      requires Valid() && phase == Idle && lastTick == tick
      modifies this
      ensures Valid() && phase == Idle && lastTick == tick == now
      ensures Continues(old(run), run, (now - old(tick)) % TICKS)
    {
      hide Inv, Lists, Reaches, Continues;
      var passed := (now - lastTick) % TICKS;
      ghost var total, r := passed, run;
      ContinuesSelf(r);
      while passed != 0
        invariant 0 <= passed <= total && Valid() && phase == Idle
        invariant tick + passed == now || tick + passed == now + TICKS
        invariant Continues(r, run, total - passed)
      {
        ghost var r0 := run;
        Interrupt();
        ContinuesTwice(r, r0, run, total - passed, 0);
        ContinuesStep(r, run, total - passed, Ticks);
        NextTick();
        passed := passed - 1;
        ghost var r1 := run;
        ExpireDelays();
        ContinuesTwice(r, r1, run, total - passed, 0);
      }
      lastTick := tick;
    }

    method NextTick()
      requires Valid() && phase == Idle
      modifies this`tick, this`delayed, this`overflow, this`phase, this`run
      ensures Valid() && phase == Ticking && tick == (if old(tick) == MAX_DELAY then 0 else old(tick) + 1)
                && run == old(run) + [Ticks]
    {
      hide Inv, Reaches;
      ghost var k := K();
      StepTaken(start, run, k, Ticks);
      run := run + [Ticks];
      phase := Ticking;
      tick := (tick + 1) % TICKS;
      if tick == 0 {
        delayed, overflow := overflow, delayed;
      }
    }

    /** The inner loop of prvCheckDelayedList: all whose time has come are made ready. */
    method ExpireDelays()
      requires Valid() && phase == Ticking
      modifies this`crs, this`lists, this`top, this`phase, this`run, this`signals
      ensures Valid() && phase == Idle && Continues(old(run), run, 0)
    {
      hide Inv, Lists, Reaches, Continues, Blocked;
      ghost var r := run;
      Interrupt();
      DelayedKnown(K());
      while lists[delayed].ids != [] && !(tick < crs[lists[delayed].ids[0]].wake)
        invariant Valid() && phase == Ticking && Continues(r, run, 0)
        invariant delayed in lists && forall i | 0 <= i < |lists[delayed].ids| :: lists[delayed].ids[i] < |crs|
        decreases Blocked(K())
      {
        ExpireFirst(r);
        DelayedKnown(K());
      }
      StepTaken(start, run, K(), TickEnds);
      ContinuesStep(r, run, 0, TickEnds);
      run := run + [TickEnds];
      phase := Idle;
    }

    method ExpireFirst(ghost r: seq<Step>)
      requires Valid() && phase == Ticking && Continues(r, run, 0)
      requires delayed in lists && forall i | 0 <= i < |lists[delayed].ids| :: lists[delayed].ids[i] < |crs|
      requires Due(K())
      modifies this`crs, this`lists, this`top, this`phase, this`run, this`signals
      ensures Valid() && phase == Ticking && Continues(r, run, 0) && Blocked(K()) < Blocked(old(K()))
    {
      hide Inv, Lists, Reaches, Continues, Blocked, ExpireTake, ExpireMove;
      ghost var k, r1 := K(), run;
      Interrupt();
      BlockedAfterWakes(k, K());
      ContinuesTwice(r, r1, run, 0, 0);
      DueAfterWakes(k, K());
      BlockedAfterExpire(K());
      ContinuesStep(r, run, 0, ExpireTakes);
      var x := TakeExpired();
      ghost var k2, r2 := K(), run;
      Interrupt();
      BlockedAfterWakes(k2, K());
      ContinuesTwice(r, r2, run, 0, 0);
      BlockedAfterReady(K());
      ContinuesStep(r, run, 0, ExpireMoves);
      MakeExpiredReady(x);
    }

    /** prvCheckDelayedList, its critical section */
    method TakeExpired() returns (x: Id)
      requires Valid() && phase == Ticking
      requires delayed in lists && forall i | 0 <= i < |lists[delayed].ids| :: lists[delayed].ids[i] < |crs|
      requires Due(K())
      modifies this`crs, this`lists, this`phase, this`run
      ensures Valid() && K() == ExpireTake(old(K())) && phase == Expired(x) && run == old(run) + [ExpireTakes]
    {
      hide Inv, Lists, Linked, TakenOut, Reaches;
      ghost var k := K();
      StepTaken(start, run, k, ExpireTakes);
      run := run + [ExpireTakes];
      x := lists[delayed].ids[0];
      InvPhase(k);
      LinkedAt(k.crs, k.lists, delayed, x);
      TakeLists(k, x, true);
      RemoveItem(x, true);
      if crs[x].event != Nowhere {
        TakeLists(K(), x, false);
        RemoveItem(x, false);
      }
      phase := Expired(x);
    }

    method MakeExpiredReady(x: Id)
      requires Valid() && phase == Expired(x)
      modifies this`crs, this`lists, this`top, this`phase, this`run
      ensures Valid() && phase == Ticking && K() == ExpireMove(old(K())) && run == old(run) + [ExpireMoves]
    {
      hide Inv, Lists, Linked, Reaches, AddReady;
      ghost var k := K();
      StepTaken(start, run, k, ExpireMoves);
      run := run + [ExpireMoves];
      InvPhase(k);
      InvAt(k, x);
      AddReadyLists(k, x);
      AddToReadyQueue(x);
      phase := Ticking;
    }

    /** The loop of vCoRoutineSchedule over the ready lists */
    method FindReady() returns (found: bool)
      requires forall p: nat | p <= top :: Ready(p) in lists
      modifies this`top
      ensures top == TopReady(old(K()), old(top)) && (found <==> lists[Ready(top)].ids != [])
    {
      ghost var k := K();
      while lists[Ready(top)].ids == []
        invariant top <= k.top && TopReady(k, top) == TopReady(k, k.top)
        decreases top
      {
        if top == 0 {
          return false;
        }
        top := top - 1;
      }
      return true;
    }

    /** vCoRoutineSchedule, its last part */
    method PickNext()
      requires Valid() && phase == Idle
      modifies this`top, this`lists, this`current, this`phase, this`run
      ensures Valid() && K() == Pick(old(K())) && run == old(run) + [Picks]
    {
      hide Inv, Lists, Linked, Reaches, Pick;
      ghost var k := K();
      StepTaken(start, run, k, Picks);
      run := run + [Picks];
      PickCurrent(k);
      ChooseCurrent();
    }

    /** pxCurrentCoRoutine is set to the next co-routine of the highest ready list that is not empty. */
    method ChooseCurrent()
      requires Inv(K()) && phase == Idle
      modifies this`top, this`lists, this`current, this`phase
      ensures K() == Pick(old(K()))
    {
      hide Inv, Lists, Linked, TopReady;
      ghost var k := K();
      InvPhase(k);
      ReadyLists(k);
      var found := FindReady();
      if found {
        var l := lists[Ready(top)];
        var at := NextPlace(|l.ids|, l.at);
        lists := lists[Ready(top) := l.(at := at)];
        current := l.ids[at - 1];
        phase := Running;
      }
    }

    /** vCoRoutineSchedule, up to the call of the co-routine chosen: nothing is pending from before,
        all delays that have run out have ended, and the co-routine chosen is of the highest priority
        of all that are ready. */
    method Schedule(now: Tick)
      requires Valid() && phase == Idle && lastTick == tick
      modifies this
      ensures Valid() && lastTick == tick == now && Continues(old(run), run, (now - old(tick)) % TICKS)
      ensures phase == Running <==> exists x | 0 <= x < |crs| :: crs[x].generic.Ready?
      ensures phase == Running ==>
                && current < |crs| && crs[current].generic.Ready?
                && forall x | 0 <= x < |crs| && crs[x].generic.Ready? :: crs[x].priority <= crs[current].priority
      ensures phase == Running || phase == Idle
    {
      hide Inv, Reaches, Continues, Pick;
      ghost var r := run;
      CheckPendingReadyList();
      ghost var r1 := run;
      CheckDelayedList(now);
      ContinuesTwice(r, r1, run, 0, (now - old(tick)) % TICKS);
      ghost var r2 := run;
      Interrupt();
      ContinuesTwice(r, r2, run, (now - old(tick)) % TICKS, 0);
      ContinuesStep(r, run, (now - old(tick)) % TICKS, Picks);
      PickIsHighest(K());
      PickPhase(K());
      PickNext();
    }

    /** A co-routine comes back without blocking. */
    method ReturnToScheduler()
      requires Valid() && phase == Running
      modifies this`phase, this`run
      ensures Valid() && K() == Return(old(K())) && run == old(run) + [Returns]
    {
      hide Inv, Reaches;
      StepTaken(start, run, K(), Returns);
      run := run + [Returns];
      phase := Idle;
    }
  }

  /** How many co-routines are on the delay lists: what the loops of the scheduler run down. */
  ghost function Blocked(k: Kernel): nat {
    (if Delay1 in k.lists then |k.lists[Delay1].ids| else 0) + (if Delay2 in k.lists then |k.lists[Delay2].ids| else 0)
  }

  lemma BlockedAfterWakes(k: Kernel, k': Kernel)
    requires Inv(k) && OnlyWakes(k, k')
    ensures Blocked(k') == Blocked(k)
  {
    hide Inv, Lists;
    InvPhase(k);
  }

  lemma BlockedAfterTake(k: Kernel)
    requires Inv(k) && k.phase == Idle && k.lists[Pending].ids != []
    ensures Blocked(PendingTake(k)) == Blocked(k)
  {
    hide Inv, Lists, Linked, TakenOut;
    InvPhase(k);
    LinkedAt(k.crs, k.lists, Pending, k.lists[Pending].ids[0]);
  }

  lemma BlockedAfterMove(k: Kernel)
    requires Inv(k) && k.phase.Moving?
    ensures Blocked(PendingMove(k)) < Blocked(k)
  {
    hide Inv, Lists, Linked;
    InvPhase(k);
    var x := k.phase.id;
    InvAt(k, x);
    TakeLists(k, x, true);
    var k1 := Take(k, x, true);
    AddReadyLists(k1, x);
  }

  lemma BlockedAfterExpire(k: Kernel)
    requires Inv(k) && k.phase == Ticking && Due(k)
    ensures Blocked(ExpireTake(k)) < Blocked(k)
  {
    hide Inv, Lists, Linked;
    InvPhase(k);
    var x := k.lists[k.Delayed()].ids[0];
    LinkedAt(k.crs, k.lists, k.Delayed(), x);
    InvAt(k, x);
    TakeLists(k, x, true);
  }

  lemma BlockedAfterReady(k: Kernel)
    requires Inv(k) && k.phase.Expired?
    ensures Blocked(ExpireMove(k)) == Blocked(k)
  {
    hide Inv, Lists, Linked, PutIn;
    InvPhase(k);
    InvAt(k, k.phase.id);
    AddReadyLists(k, k.phase.id);
  }

  lemma DueAfterWakes(k: Kernel, k': Kernel)
    requires k.Delayed() in k.lists && forall i | 0 <= i < |k.lists[k.Delayed()].ids| ::
               k.lists[k.Delayed()].ids[i] < |k.crs|
    requires Due(k) && OnlyWakes(k, k')
    ensures k.Delayed() in k'.lists && k'.lists[k.Delayed()] == k.lists[k.Delayed()] && |k'.crs| == |k.crs|
    ensures Due(k')
  {
    var x := k.lists[k.Delayed()].ids[0];
    assert k'.crs[x].(event := Nowhere) == k.crs[x].(event := Nowhere);
  }

  lemma PickCurrent(k: Kernel)
    requires Inv(k) && k.phase == Idle
    ensures Pick(k).current == k.current || Pick(k).current < |k.crs|
  {
    hide Inv, Lists, Linked;
    InvPhase(k);
    ReadyLists(k);
    var t := TopReady(k, k.top);
    if k.lists[Ready(t)].ids != [] {
      LinkedAt(k.crs, k.lists, Ready(t), Pick(k).current);
    }
  }

  lemma PickPhase(k: Kernel)
    requires Inv(k) && k.phase == Idle
    ensures Pick(k).phase == Running || Pick(k).phase == Idle
  {
    hide Inv, Lists;
    InvPhase(k);
    ReadyLists(k);
  }

  ghost predicate Continues(r: seq<Step>, r': seq<Step>, n: nat) {
    |r| <= |r'| && r'[..|r|] == r && TicksIn(r') == TicksIn(r) + n
  }

  lemma ContinuesSelf(r: seq<Step>)
    ensures Continues(r, r, 0)
  {
  }

  lemma ContinuesStep(r: seq<Step>, r': seq<Step>, n: nat, s: Step)
    requires Continues(r, r', n)
    ensures Continues(r, r' + [s], if s.Ticks? then n + 1 else n)
  {
    TicksInFurther(r', s);
  }

  lemma ContinuesTwice(r: seq<Step>, r1: seq<Step>, r2: seq<Step>, n: nat, m: nat)
    requires Continues(r, r1, n) && Continues(r1, r2, m)
    ensures Continues(r, r2, n + m)
  {
    assert r2[..|r1|][..|r|] == r2[..|r|];
  }

  lemma StepTaken(start: Kernel, run: seq<Step>, k: Kernel, s: Step)
    requires Inv(k) && Reaches(start, run, k) && Enabled(k, s)
    ensures Inv(Apply(k, s)) && Reaches(start, run + [s], Apply(k, s))
  {
    hide Inv, Reaches, Apply, Enabled;
    StepInv(k, s);
    ReachesFurther(start, run, k, s);
  }

  lemma {:induction false} TicksInFurther(run: seq<Step>, s: Step)
    ensures TicksIn(run + [s]) == TicksIn(run) + if s.Ticks? then 1 else 0
  {
    if run != [] {
      TicksInFurther(run[1..], s);
      assert (run + [s])[1..] == run[1..] + [s];
    }
  }

  lemma NewIsReady(k: Kernel, priority: nat)
    requires Inv(k)
    ensures var p := if priority >= k.levels then k.levels - 1 else priority;
            p >= 0 && Ready(p) in k.lists && k.lists[Ready(p)].at <= |k.lists[Ready(p)].ids|
  {
  }

  /** Wake-ups change nothing the scheduler's loops look at, except that the pending list grows. */
  ghost predicate OnlyWakes(k: Kernel, k': Kernel) {
    && k' == k.(crs := k'.crs, lists := k'.lists) && |k'.crs| == |k.crs|
    && (forall x | 0 <= x < |k.crs| :: k'.crs[x].(event := Nowhere) == k.crs[x].(event := Nowhere))
    && (forall w | w in k.lists && !w.Event? && w != Pending :: w in k'.lists && k'.lists[w] == k.lists[w])
    && Pending in k.lists && Pending in k'.lists && (k.lists[Pending].ids != [] ==> k'.lists[Pending].ids != [])
  }

  lemma OnlyWakesTwice(k: Kernel, k1: Kernel, k2: Kernel)
    requires OnlyWakes(k, k1) && OnlyWakes(k1, k2)
    ensures OnlyWakes(k, k2)
  {
    assert forall x | 0 <= x < |k.crs| :: k1.crs[x].(event := Nowhere) == k2.crs[x].(event := Nowhere);
  }

  lemma DelaySize(k: Kernel, ticks: Tick, event: Option<nat>)
    requires Inv(k) && k.phase == Running && (event.Some? ==> Event(event.value) in k.lists)
    ensures |Delay(k, ticks, event).crs| == |k.crs|
  {
    hide Inv, Lists, ToDelayList;
    InvPhase(k);
    ToDelayListLists(k, ticks);
  }

  lemma WakesOnly(k: Kernel, e: nat)
    requires Inv(k) && Event(e) in k.lists && k.lists[Event(e)].ids != []
    ensures OnlyWakes(k, Wake(k, e))
  {
    hide Inv, Lists, Linked, TakenOut;
    WakeInv(k, e);
    InvPhase(k);
    LinkedAt(k.crs, k.lists, Event(e), k.lists[Event(e)].ids[0]);
  }
}
