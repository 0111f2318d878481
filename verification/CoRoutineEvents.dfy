/** How a co-routine that waits for an event gets on the event list, and from there to its ready list. */
module CoRoutineEvents {
  import opened KernelList
  import opened Wrappers
  import opened CoRoutineKernel
  import opened CoRoutineRuns
  import opened CoRoutineTurns

  /** A co-routine that waits for event e goes behind every one of the same or a higher priority and in front of
      those of a lower one; no other event list changes. Without an event none does. */
  lemma DelayJoins(k: Kernel, ticks: Tick, event: Option<nat>) returns (i: nat)
    requires Inv(k) && Enabled(k, Delays(ticks, event))
    ensures var k', x := Apply(k, Delays(ticks, event)), k.current;
            && x < |k.crs| == |k'.crs| && k'.crs[x].event == (if event.Some? then Event(event.value) else Nowhere)
            && (forall y: nat | Event(y) in k.lists && event != Some(y) ::
                  Event(y) in k'.lists && k'.lists[Event(y)] == k.lists[Event(y)])
    ensures event.Some? ==>
              var w := Event(event.value);
              var ids, x, k' := k.lists[w].ids, k.current, Apply(k, Delays(ticks, event));
              && i <= |ids| && w in k'.lists && k'.lists[w].ids == ids[..i] + [x] + ids[i..]
              && (forall j | 0 <= j < |ids| :: ids[j] < |k.crs|)
              && (forall j | 0 <= j < i :: k.crs[ids[j]].priority >= k.crs[x].priority)
              && (forall j | i <= j < |ids| :: k.crs[ids[j]].priority < k.crs[x].priority)
  {
    hide Inv, Lists, Linked, ToDelayList, PutIn, Place, EventValues, EventValue;
    InvPhase(k);
    var x := k.current;
    InvAt(k, x);
    ToDelayListLists(k, ticks);
    DelayListOnly(k, ticks);
    i := 0;
    if event.Some? {
      var k1 := ToDelayList(k, ticks);
      i := EventPlace(k, k1, x, event.value);
      PutInIs(k1.lists[Event(event.value)], i, x);
    }
  }

  lemma PutInIs(l: Items, i: nat, x: Id)
    requires i <= |l.ids|
    ensures PutIn(l, i, x).ids == l.ids[..i] + [x] + l.ids[i..]
  {
  }

  /** Event lists stay as they are while the generic item moves. */
  lemma DelayListOnly(k: Kernel, ticks: Tick)
    requires Inv(k) && k.phase == Running
    ensures forall e: nat | Event(e) in k.lists ::
              Event(e) in ToDelayList(k, ticks).lists && ToDelayList(k, ticks).lists[Event(e)] == k.lists[Event(e)]
  {
    hide Inv, Lists, Linked, TakenOut, PutIn, Place, WakeTimes;
    InvPhase(k);
    InvAt(k, k.current);
    TakeLists(k, k.current, true);
  }

  lemma EventPlace(k: Kernel, k1: Kernel, x: Id, e: nat) returns (i: nat)
    requires Inv(k) && x < |k.crs| && Event(e) in k.lists && k.levels <= MAX_DELAY
    requires k1.levels == k.levels && |k1.crs| == |k.crs| && Event(e) in k1.lists
    requires k1.lists[Event(e)] == k.lists[Event(e)]
    requires forall y | 0 <= y < |k.crs| :: k1.crs[y].priority == k.crs[y].priority
    ensures var ids := k.lists[Event(e)].ids;
            && i == Place(EventValues(k1.crs, k1.levels, ids), EventValue(k1.crs[x], k1.levels)) <= |ids|
            && (forall j | 0 <= j < |ids| :: ids[j] < |k.crs|)
            && (forall j | 0 <= j < i :: k.crs[ids[j]].priority >= k.crs[x].priority)
            && (forall j | i <= j < |ids| :: k.crs[ids[j]].priority < k.crs[x].priority)
  {
    hide Inv, Lists, Place;
    var ids := k.lists[Event(e)].ids;
    InvPhase(k);
    InvAt(k, x);
    EventListOrder(k, e);
    forall j | 0 <= j < |ids|
      ensures ids[j] < |k.crs| && k.crs[ids[j]].priority < k.levels
    {
      LinkedAt(k.crs, k.lists, Event(e), ids[j]);
      InvAt(k, ids[j]);
    }
    var v := EventValues(k1.crs, k1.levels, ids);
    assert forall j | 0 <= j < |ids| :: v[j] == k.levels - k.crs[ids[j]].priority;
    i := Place(v, EventValue(k1.crs[x], k1.levels));
    hide Linked, EventValues, EventValue;
    forall j | i <= j < |ids|
      ensures k.crs[ids[j]].priority < k.crs[x].priority
    {
      assert i < j ==> Precedes(k.crs[ids[i]], k.crs[ids[j]]);
      assert v[i] > k.levels - k.crs[x].priority;
    }
    forall j | 0 <= j < i
      ensures k.crs[ids[j]].priority >= k.crs[x].priority
    {
      assert v[j] <= k.levels - k.crs[x].priority;
    }
  }

  // ---------- from the event list to the ready list ----------

  /** The one that precedes all others that wait for the event is the head of the list. */
  lemma BestIsHead(k: Kernel, e: nat, x: Id)
    requires Inv(k) && x < |k.crs| && k.crs[x].event == Event(e)
    requires forall y | 0 <= y < |k.crs| && k.crs[y].event == Event(e) && y != x :: Precedes(k.crs[x], k.crs[y])
    ensures Enabled(k, Wakes(e)) && k.lists[Event(e)].ids[0] == x
  {
    hide Inv, Lists, Linked;
    InvPhase(k);
    OnItsList(k.crs, k.lists, x, false);
    EventListOrder(k, e);
    var ids := k.lists[Event(e)].ids;
    var i :| 0 <= i < |ids| && ids[i] == x;
    LinkedAt(k.crs, k.lists, Event(e), ids[0]);
    assert i > 0 ==> Precedes(k.crs[ids[0]], k.crs[x]);
    hide Enabled;
    EnabledWake(k, e);
  }

  lemma EnabledWake(k: Kernel, e: nat)
    requires Inv(k) && Event(e) in k.lists && k.lists[Event(e)].ids != []
    ensures Enabled(k, Wakes(e))
  {
  }

  /** The head goes behind those that are pending already. */
  lemma WakeAppends(k: Kernel, e: nat)
    requires Inv(k) && Enabled(k, Wakes(e))
    ensures var k', x := Apply(k, Wakes(e)), k.lists[Event(e)].ids[0];
            && x < |k.crs| && k'.crs == k.crs[x := k.crs[x].(event := Pending)]
            && k'.lists == k.lists[Event(e) := k'.lists[Event(e)]][Pending := k'.lists[Pending]]
            && Event(e) in k'.lists && k'.lists[Event(e)].ids == k.lists[Event(e)].ids[1..]
            && Pending in k.lists && Pending in k'.lists && k'.lists[Pending].ids == k.lists[Pending].ids + [x]
  {
    hide Inv, Lists, Linked;
    InvPhase(k);
    WakeIsHead(k, e);
    NoIndex(k);
    var ids, x := k.lists[Event(e)].ids, k.lists[Event(e)].ids[0];
    assert TakenOut(k.lists[Event(e)], x).ids == ids[1..];
    hide TakenOut;
    WakeHeadIs(k, e);
  }

  lemma NoIndex(k: Kernel)
    requires Inv(k)
    ensures forall w | w in k.lists && !w.Ready? :: k.lists[w].at == 0
  {
  }

  ghost predicate IsReady(k: Kernel, x: Id) { x < |k.crs| && k.crs[x].generic == Ready(k.crs[x].priority) }

  /** x has been woken or its delay has ended, and it is being made ready. */
  ghost predicate OnItsWay(k: Kernel, x: Id) {
    x < |k.crs| && (k.crs[x].event == Pending || k.phase == Moving(x) || k.phase == Expired(x))
  }

  lemma WayStep(k: Kernel, s: Step, x: Id)
    requires Inv(k) && Enabled(k, s) && OnItsWay(k, x)
    ensures OnItsWay(Apply(k, s), x) || IsReady(Apply(k, s), x)
  {
    hide Inv, Lists, Linked, TakenOut, AddReady, PutIn, ToDelayList, ToEventList;
    InvPhase(k);
    InvAt(k, x);
    match s
    case PendingTakes => LinkedAt(k.crs, k.lists, Pending, k.lists[Pending].ids[0]);
    case PendingMoves => PendingMoveWay(k, x);
    case Ticks =>
    case ExpireTakes => ExpireTakeWay(k, x);
    case ExpireMoves => ExpireMoveWay(k, x);
    case TickEnds =>
    case Picks =>
    case Returns =>
    case Delays(ticks, event) => DelayKeeps(k, ticks, event, x);
    case Creates(priority) => CreateKeeps(k, priority, x);
    case Wakes(e) =>
      LinkedAt(k.crs, k.lists, Event(e), k.lists[Event(e)].ids[0]);
      WakeInv(k, e);
  }

  lemma PendingMoveWay(k: Kernel, x: Id)
    requires Inv(k) && k.phase.Moving? && OnItsWay(k, x)
    ensures OnItsWay(PendingMove(k), x) || IsReady(PendingMove(k), x)
  {
    hide Inv, Lists, Linked, TakenOut, AddReady;
    InvPhase(k);
    var y := k.phase.id;
    InvAt(k, y);
    TakeLists(k, y, true);
    AddReadyLists(Take(k, y, true), y);
  }

  lemma ExpireTakeWay(k: Kernel, x: Id)
    requires Inv(k) && k.phase == Ticking && Due(k) && OnItsWay(k, x)
    ensures OnItsWay(ExpireTake(k), x)
  {
    hide Inv, Lists, Linked, TakenOut;
    InvPhase(k);
    var y := k.lists[k.Delayed()].ids[0];
    LinkedAt(k.crs, k.lists, k.Delayed(), y);
    TakeLists(k, y, true);
  }

  lemma ExpireMoveWay(k: Kernel, x: Id)
    requires Inv(k) && k.phase.Expired? && OnItsWay(k, x)
    ensures OnItsWay(ExpireMove(k), x) || IsReady(ExpireMove(k), x)
  {
    hide Inv, Lists, AddReady;
    InvPhase(k);
    InvAt(k, k.phase.id);
    AddReadyLists(k, k.phase.id);
  }

  /** x is ready in some state of the run. */
  ghost predicate BecomesReady(k: Kernel, run: seq<Step>, x: Id)
    decreases |run|
  {
    IsReady(k, x) || (run != [] && Inv(k) && Enabled(k, run[0]) && BecomesReady(Apply(k, run[0]), run[1..], x))
  }

  lemma {:induction false} WayRun(k: Kernel, run: seq<Step>, k': Kernel, x: Id)
    requires Inv(k) && Reaches(k, run, k') && OnItsWay(k, x)
    ensures BecomesReady(k, run, x) || OnItsWay(k', x)
    decreases |run|
  {
    hide Inv, Apply, Enabled, OnItsWay;
    if run != [] {
      StepInv(k, run[0]);
      WayStep(k, run[0], x);
      if OnItsWay(Apply(k, run[0]), x) {
        WayRun(Apply(k, run[0]), run[1..], k', x);
      }
    }
  }

  /** An interrupt that signals the event makes the best waiter pending, and in every run from there, at the
      latest when the scheduler has nothing pending, it has become ready. */
  lemma WokenGetsReady(k: Kernel, e: nat, x: Id, run: seq<Step>, k': Kernel)
    requires Inv(k) && x < |k.crs| && k.crs[x].event == Event(e)
    requires forall y | 0 <= y < |k.crs| && k.crs[y].event == Event(e) && y != x :: Precedes(k.crs[x], k.crs[y])
    ensures Enabled(k, Wakes(e)) && Apply(k, Wakes(e)).crs == k.crs[x := k.crs[x].(event := Pending)]
    ensures Reaches(Apply(k, Wakes(e)), run, k') && k'.phase == Idle && Pending in k'.lists
            && k'.lists[Pending].ids == [] ==>
              BecomesReady(Apply(k, Wakes(e)), run, x)
  {
    hide Inv, Lists, Linked, Reaches, BecomesReady, Apply, Enabled;
    BestIsHead(k, e, x);
    WakeAppends(k, e);
    var k1 := Apply(k, Wakes(e));
    StepInv(k, Wakes(e));
    if Reaches(k1, run, k') && k'.phase == Idle && Pending in k'.lists && k'.lists[Pending].ids == [] {
      WayRun(k1, run, k', x);
      RunInv(k1, run, k');
      InvPhase(k');
      if OnItsWay(k', x) {
        OnItsList(k'.crs, k'.lists, x, false);
      }
    }
  }

  // ---------- in the order they were woken ----------

  /** x is pending, and y, if it is pending too, was woken later. */
  ghost predicate WokenBefore(ids: seq<Id>, x: Id, y: Id) {
    x in ids && x != y && (y in ids ==> IndexOf(ids, x) < IndexOf(ids, y))
  }

  /** What a step does to the pending list: one is taken off, the first when it is to be made ready, or one is
      put behind the others. */
  ghost predicate PendingChanges(ids: seq<Id>, ids': seq<Id>) {
    || ids' == ids || (exists i: nat | i < |ids| :: ids' == Removed(ids, i))
    || (exists z | z !in ids :: ids' == ids + [z])
  }

  lemma OrderKept(ids: seq<Id>, ids': seq<Id>, x: Id, y: Id)
    requires Distinct(ids) && PendingChanges(ids, ids') && WokenBefore(ids, x, y) && x in ids'
    ensures WokenBefore(ids', x, y)
  {
    hide Distinct, Removed, IndexOf;
    if ids' != ids {
      if i: nat :| i < |ids| && ids' == Removed(ids, i) {
        RemovedIds(ids, ids[i]);
        IndexIs(ids, i);
        if y in ids' {
          IndexOfRemoved(ids, i, x);
          IndexOfRemoved(ids, i, y);
        }
      } else {
        var z :| z !in ids && ids' == ids + [z];
        AppendedIndex(ids, z, x);
        AppendedIndex(ids, z, y);
      }
    }
  }

  lemma AppendedIndex(ids: seq<Id>, z: Id, x: Id)
    requires Distinct(ids) && z !in ids
    ensures var r := ids + [z];
            && (x in ids ==> x in r && IndexOf(r, x) == IndexOf(ids, x))
            && (x == z ==> x in r && IndexOf(r, x) == |ids|)
  {
    var r := ids + [z];
    assert Distinct(r);
    hide IndexOf;
    if x in ids {
      assert r[IndexOf(ids, x)] == x;
      IndexIs(r, IndexOf(ids, x));
    }
    if x == z {
      assert r[|ids|] == x;
      IndexIs(r, |ids|);
    }
  }

  lemma PendingStep(k: Kernel, s: Step)
    requires Inv(k) && Enabled(k, s)
    ensures Pending in k.lists && Pending in Apply(k, s).lists && Distinct(k.lists[Pending].ids)
    ensures PendingChanges(k.lists[Pending].ids, Apply(k, s).lists[Pending].ids)
    ensures s.PendingTakes? ==> k.lists[Pending].ids != [] && Apply(k, s).phase == Moving(k.lists[Pending].ids[0])
    ensures Apply(k, s).phase.Moving? ==> s.PendingTakes? || Apply(k, s).phase == k.phase
  {
    hide Inv, Lists, Linked, AddReady, ToDelayList, PutIn, PendingChanges;
    InvPhase(k);
    PendingDistinct(k);
    SameIsChange(k.lists[Pending].ids);
    match s
    case PendingTakes =>
      var x := k.lists[Pending].ids[0];
      LinkedAt(k.crs, k.lists, Pending, x);
      TakenIsChange(k.lists[Pending], x);
      hide TakenOut;
    case PendingMoves => PendingMovePending(k);
    case Ticks =>
    case ExpireTakes => ExpireTakePending(k);
    case ExpireMoves => ExpireMovePending(k);
    case TickEnds =>
    case Picks => ReadyLists(k);
    case Returns =>
    case Delays(ticks, event) => DelayPending(k, ticks, event);
    case Creates(priority) => CreatePending(k, priority);
    case Wakes(e) =>
      WakeAppends(k, e);
      WakeInv(k, e);
      WakePending(k, e);
      AppendIsChange(k.lists[Pending].ids, k.lists[Event(e)].ids[0]);
  }

  lemma PendingDistinct(k: Kernel)
    requires Inv(k)
    ensures Distinct(k.lists[Pending].ids)
  {
  }

  lemma SameIsChange(ids: seq<Id>)
    ensures PendingChanges(ids, ids)
  {
  }

  lemma TakenIsChange(l: Items, x: Id)
    requires x in l.ids
    ensures PendingChanges(l.ids, TakenOut(l, x).ids)
  {
    var i: nat := IndexOf(l.ids, x);
    assert i < |l.ids| && TakenOut(l, x).ids == Removed(l.ids, i);
  }

  lemma AppendIsChange(ids: seq<Id>, z: Id)
    requires z !in ids
    ensures PendingChanges(ids, ids + [z])
  {
  }

  /** The head of an event list is not pending already. */
  lemma WakePending(k: Kernel, e: nat)
    requires Inv(k) && Event(e) in k.lists && k.lists[Event(e)].ids != []
    ensures Pending in k.lists && k.lists[Event(e)].ids[0] !in k.lists[Pending].ids
  {
    hide Inv, Lists, Linked;
    InvPhase(k);
    var x := k.lists[Event(e)].ids[0];
    LinkedAt(k.crs, k.lists, Event(e), x);
    if x in k.lists[Pending].ids {
      LinkedAt(k.crs, k.lists, Pending, x);
    }
  }

  lemma PendingMovePending(k: Kernel)
    requires Inv(k) && k.phase.Moving?
    ensures Pending in k.lists && Pending in PendingMove(k).lists && PendingMove(k).phase == Idle
    ensures PendingMove(k).lists[Pending] == k.lists[Pending]
  {
    hide Inv, Lists, Linked, TakenOut, PutIn;
    InvPhase(k);
    InvAt(k, k.phase.id);
    TakeLists(k, k.phase.id, true);
  }

  lemma ExpireMovePending(k: Kernel)
    requires Inv(k) && k.phase.Expired?
    ensures Pending in k.lists && Pending in ExpireMove(k).lists && ExpireMove(k).phase == Ticking
    ensures ExpireMove(k).lists[Pending] == k.lists[Pending]
  {
    hide Inv, Lists, Linked, TakenOut, PutIn;
    InvPhase(k);
    InvAt(k, k.phase.id);
  }

  lemma ExpireTakePending(k: Kernel)
    requires Inv(k) && k.phase == Ticking && Due(k)
    ensures Pending in k.lists && Pending in ExpireTake(k).lists && ExpireTake(k).phase.Expired?
    ensures PendingChanges(k.lists[Pending].ids, ExpireTake(k).lists[Pending].ids)
  {
    hide Inv, Lists, Linked, TakenOut, PendingChanges;
    InvPhase(k);
    var x := k.lists[k.Delayed()].ids[0];
    LinkedAt(k.crs, k.lists, k.Delayed(), x);
    TakeLists(k, x, true);
    var k1 := Take(k, x, true);
    SameIsChange(k.lists[Pending].ids);
    if k1.crs[x].event != Nowhere {
      TakeLists(k1, x, false);
      if k1.crs[x].event == Pending {
        TakenIsChange(k.lists[Pending], x);
      }
    }
  }

  lemma DelayPending(k: Kernel, ticks: Tick, event: Option<nat>)
    requires Inv(k) && Enabled(k, Delays(ticks, event))
    ensures Pending in k.lists && Pending in Delay(k, ticks, event).lists && Delay(k, ticks, event).phase == Idle
    ensures Delay(k, ticks, event).lists[Pending] == k.lists[Pending]
  {
    hide Inv, Lists, Linked, TakenOut, PutIn, Place, WakeTimes, EventValues, EventValue;
    InvPhase(k);
    InvAt(k, k.current);
    TakeLists(k, k.current, true);
  }

  lemma CreatePending(k: Kernel, priority: nat)
    requires Inv(k)
    ensures Pending in k.lists && Pending in Create(k, priority).lists && Create(k, priority).phase == k.phase
    ensures Create(k, priority).lists[Pending] == k.lists[Pending]
  {
    hide Inv, Lists, Linked, PutIn;
    InvPhase(k);
    var p := if priority >= k.levels then k.levels - 1 else priority;
    NewLists(k, Crcb(p, 0, Nowhere, Nowhere, 0));
  }

  /** x is pending in every state of the run. */
  ghost predicate StaysPending(k: Kernel, run: seq<Step>, x: Id)
    decreases |run|
  {
    && Pending in k.lists && x in k.lists[Pending].ids
    && (run != [] && Inv(k) && Enabled(k, run[0]) ==> StaysPending(Apply(k, run[0]), run[1..], x))
  }

  /** As long as one that has been woken is pending, none that was woken later is taken off the pending list to
      be made ready: they are taken in the order they were woken. */
  lemma {:induction false} WokenInOrder(k: Kernel, run: seq<Step>, k': Kernel, x: Id, y: Id)
    requires Inv(k) && Reaches(k, run, k') && StaysPending(k, run, x) && WokenBefore(k.lists[Pending].ids, x, y)
    requires k.phase != Moving(y)
    ensures k'.phase != Moving(y)
    decreases |run|
  {
    hide Inv, Apply, Enabled, WokenBefore, PendingChanges;
    if run != [] {
      var k1 := Apply(k, run[0]);
      StepInv(k, run[0]);
      PendingStep(k, run[0]);
      assert StaysPending(k1, run[1..], x);
      OrderKept(k.lists[Pending].ids, k1.lists[Pending].ids, x, y);
      NotFirst(k.lists[Pending].ids, x, y);
      WokenInOrder(k1, run[1..], k', x, y);
    }
  }

  lemma NotFirst(ids: seq<Id>, x: Id, y: Id)
    requires WokenBefore(ids, x, y)
    ensures ids != [] && ids[0] != y
  {
  }
}
