/** The co-routine scheduler (croutine.c) as a state and the atomic steps its critical sections leave
    visible to interrupts. Its lists behave as KernelList proves the list code to behave. */
module CoRoutineKernel {
  import opened KernelList
  import opened Wrappers

  const TICKS: int := MAX_DELAY + 1

  type Id = nat

  /** The lists a co-routine's two list items can be on; Nowhere is a NULL pxContainer. */
  datatype Where = Nowhere | Ready(priority: nat) | Delay1 | Delay2 | Event(number: nat) | Pending

  predicate ForGeneric(w: Where) { w.Ready? || w.Delay1? || w.Delay2? }

  /** CRCB_t: wake is the value of the generic item, generic and event are the containers of the two
      items. arrival numbers the waits for events in order. */
  datatype Crcb = Crcb(priority: nat, wake: Tick, generic: Where, event: Where, arrival: nat)

  /** A List_t: the owners of its items in order, and the place of pxIndex. */
  datatype Items = Items(ids: seq<Id>, at: nat)

  /** Where the scheduler's own thread is between two atomic steps. */
  datatype Phase =
    | Idle
    | Moving(id: Id)   // taken off the pending list, to be made ready
    | Ticking          // a tick is being processed
    | Expired(id: Id)  // taken off the delayed list, to be made ready
    | Running

  /** levels is configMAX_CO_ROUTINE_PRIORITIES. */
  datatype Kernel = Kernel(levels: nat, crs: seq<Crcb>, lists: map<Where, Items>, flipped: bool, top: nat, tick: Tick,
                           current: Id, phase: Phase, clock: nat)
  {
    /** pxDelayedCoRoutineList and pxOverflowDelayedCoRoutineList */
    function Delayed(): Where { if flipped then Delay2 else Delay1 }

    function Overflow(): Where { if flipped then Delay1 else Delay2 }
  }

  function IndexOf(s: seq<Id>, x: Id): (i: nat)
    requires x in s
    ensures i < |s| && s[i] == x
  {
    if s[0] == x then 0 else 1 + IndexOf(s[1..], x)
  }

  // ---------- list items and their containers ----------

  function Container(c: Crcb, generic: bool): Where { if generic then c.generic else c.event }

  /** The container of the item of x that belongs on lists like w is w. */
  predicate Sits(crs: seq<Crcb>, w: Where, x: Id) {
    x < |crs| && Container(crs[x], ForGeneric(w)) == w
  }

  /** Both list items of every co-routine are on the list their container names and on no other, once. */
  ghost predicate Linked(crs: seq<Crcb>, lists: map<Where, Items>) {
    && (forall w | w in lists :: w != Nowhere && Distinct(lists[w].ids) && lists[w].at <= |lists[w].ids|)
    && (forall w, x | w in lists && x in lists[w].ids :: Sits(crs, w, x))
    && (forall x | 0 <= x < |crs| && crs[x].generic != Nowhere ::
          ForGeneric(crs[x].generic) && crs[x].generic in lists && x in lists[crs[x].generic].ids)
    && (forall x | 0 <= x < |crs| && crs[x].event != Nowhere ::
          !ForGeneric(crs[x].event) && crs[x].event in lists && x in lists[crs[x].event].ids)
  }

  lemma LinkedAt(crs: seq<Crcb>, lists: map<Where, Items>, w: Where, x: Id)
    requires Linked(crs, lists) && w in lists && x in lists[w].ids
    ensures x < |crs| && Container(crs[x], ForGeneric(w)) == w
  {
  }

  lemma OnItsList(crs: seq<Crcb>, lists: map<Where, Items>, x: Id, generic: bool)
    requires Linked(crs, lists) && x < |crs| && Container(crs[x], generic) != Nowhere
    ensures var w := Container(crs[x], generic); ForGeneric(w) == generic && w in lists && x in lists[w].ids
  {
  }

  lemma LinkedIf(crs: seq<Crcb>, lists: map<Where, Items>)
    requires forall w | w in lists :: w != Nowhere && Distinct(lists[w].ids) && lists[w].at <= |lists[w].ids|
    requires forall w, x | w in lists && x in lists[w].ids :: Sits(crs, w, x)
    requires forall x, g | 0 <= x < |crs| && Container(crs[x], g) != Nowhere ::
               && ForGeneric(Container(crs[x], g)) == g
               && Container(crs[x], g) in lists && x in lists[Container(crs[x], g)].ids
    ensures Linked(crs, lists)
  {
    assert forall x | 0 <= x < |crs| ::
             Container(crs[x], true) == crs[x].generic && Container(crs[x], false) == crs[x].event;
  }

  /** uxListRemove */
  function TakenOut(l: Items, x: Id): Items
    requires x in l.ids
  {
    var i := IndexOf(l.ids, x);
    Items(Removed(l.ids, i), AtRemoved(l.at, i))
  }

  function PutIn(l: Items, i: nat, x: Id): Items
    requires i <= |l.ids|
  {
    Items(Inserted(l.ids, i, x), AtInserted(l.at, i))
  }

  function SetContainer(c: Crcb, generic: bool, w: Where): Crcb {
    if generic then c.(generic := w) else c.(event := w)
  }

  lemma RemovedIds(s: seq<Id>, x: Id)
    requires Distinct(s) && x in s
    ensures var r := Removed(s, IndexOf(s, x));
            Distinct(r) && x !in r && forall y :: y in r <==> y in s && y != x
  {
    var i := IndexOf(s, x);
    var r := Removed(s, i);
    forall y | y in s && y != x
      ensures y in r
    {
      var j :| 0 <= j < |s| && s[j] == y;
      assert r[if j < i then j else j - 1] == y;
    }
    assert forall j | 0 <= j < |r| :: r[j] == s[if j < i then j else j + 1];
  }

  lemma InsertedIds(s: seq<Id>, i: nat, x: Id)
    requires Distinct(s) && x !in s && i <= |s|
    ensures var r := Inserted(s, i, x);
            Distinct(r) && forall y :: y in r <==> y in s || y == x
  {
    var r := Inserted(s, i, x);
    forall y | y in s
      ensures y in r
    {
      var j :| 0 <= j < |s| && s[j] == y;
      assert r[if j < i then j else j + 1] == y;
    }
    assert forall j | 0 <= j < |r| && j != i :: r[j] == s[if j < i then j else j - 1];
    assert r[i] == x;
  }

  /** Taking an item off its list keeps every item where its container says. */
  lemma TakeLinked(crs: seq<Crcb>, lists: map<Where, Items>, x: Id, generic: bool)
    requires Linked(crs, lists) && x < |crs| && Container(crs[x], generic) != Nowhere
    ensures var w := Container(crs[x], generic);
            && w in lists && x in lists[w].ids
            && Linked(crs[x := SetContainer(crs[x], generic, Nowhere)], lists[w := TakenOut(lists[w], x)])
  {
    var w := Container(crs[x], generic);
    RemovedIds(lists[w].ids, x);
    var crs', lists' := crs[x := SetContainer(crs[x], generic, Nowhere)], lists[w := TakenOut(lists[w], x)];
    forall v, y | v in lists' && y in lists'[v].ids
      ensures Sits(crs', v, y)
    {
      assert v in lists && y in lists[v].ids;
      LinkedAt(crs, lists, v, y);
    }
    forall y, g | 0 <= y < |crs'| && Container(crs'[y], g) != Nowhere
      ensures ForGeneric(Container(crs'[y], g)) == g
      ensures Container(crs'[y], g) in lists' && y in lists'[Container(crs'[y], g)].ids
    {
      assert Container(crs[y], g) == Container(crs'[y], g);
      OnItsList(crs, lists, y, g);
    }
    LinkedIf(crs', lists');
  }

  /** So does putting a free item on a list, in any position. */
  lemma PutLinked(crs: seq<Crcb>, lists: map<Where, Items>, x: Id, w: Where, i: nat)
    requires Linked(crs, lists) && x < |crs| && w in lists
    requires Container(crs[x], ForGeneric(w)) == Nowhere && i <= |lists[w].ids|
    ensures x !in lists[w].ids
    ensures Linked(crs[x := SetContainer(crs[x], ForGeneric(w), w)],
                   lists[w := PutIn(lists[w], i, x)])
  {
    InsertedIds(lists[w].ids, i, x);
    var crs', lists' := crs[x := SetContainer(crs[x], ForGeneric(w), w)],
                        lists[w := PutIn(lists[w], i, x)];
    forall v, y | v in lists' && y in lists'[v].ids
      ensures Sits(crs', v, y)
    {
      if v == w && y == x {
      } else {
        assert v in lists && y in lists[v].ids;
        LinkedAt(crs, lists, v, y);
      }
    }
    forall y, g | 0 <= y < |crs'| && Container(crs'[y], g) != Nowhere
      ensures ForGeneric(Container(crs'[y], g)) == g
      ensures Container(crs'[y], g) in lists' && y in lists'[Container(crs'[y], g)].ids
    {
      if y != x || g != ForGeneric(w) {
        assert Container(crs[y], g) == Container(crs'[y], g);
        OnItsList(crs, lists, y, g);
      }
    }
    LinkedIf(crs', lists');
  }

  // ---------- what holds between any two steps ----------

  ghost predicate HasLists(k: Kernel) {
    && 0 < k.levels
    && (forall p: nat :: Ready(p) in k.lists <==> p < k.levels)
    && Delay1 in k.lists && Delay2 in k.lists && Pending in k.lists
    && (forall w | w in k.lists && !w.Ready? :: k.lists[w].at == 0)
  }

  /** A co-routine is ready at its own priority or delayed, unless it is being made ready just now;
      only a delayed one waits for an event or has had one. */
  ghost predicate Settled(k: Kernel, x: Id)
    requires x < |k.crs|
  {
    var c := k.crs[x];
    && c.priority < k.levels
    && (c.generic.Ready? ==> c.generic.priority == c.priority)
    && (c.generic == Nowhere <==> k.phase == Expired(x))
    && (c.event != Nowhere ==> c.generic == Delay1 || c.generic == Delay2)
    && (c.event.Event? ==> c.arrival < k.clock)
    && (k.phase == Moving(x) ==> c.event == Nowhere && (c.generic == Delay1 || c.generic == Delay2))
    && (k.phase == Running && k.current == x ==> c.generic.Ready?)
  }

  /** Delay lists are in order of wake time. */
  ghost predicate Sorted(crs: seq<Crcb>, ids: seq<Id>) {
    && (forall i | 0 <= i < |ids| :: ids[i] < |crs|)
    && forall i, j | 0 <= i < j < |ids| :: crs[ids[i]].wake <= crs[ids[j]].wake
  }

  /** The current delayed list holds what is due later in this round of the tick counter, the
      overflow list what is due in the next. */
  ghost predicate Timed(k: Kernel, x: Id)
    requires x < |k.crs|
  {
    var c := k.crs[x];
    && (c.generic == k.Delayed() ==> c.wake > k.tick || (c.wake == k.tick && (k.phase.Ticking? || k.phase.Expired?)))
    && (c.generic == k.Overflow() ==> c.wake < k.tick)
  }

  /** x has a higher priority than y, or the same and has waited longer. */
  predicate Precedes(x: Crcb, y: Crcb) {
    x.priority > y.priority || (x.priority == y.priority && x.arrival < y.arrival)
  }

  /** Event lists are in order of priority and, among equals, of arrival. */
  ghost predicate Queued(crs: seq<Crcb>, ids: seq<Id>) {
    && (forall i | 0 <= i < |ids| :: ids[i] < |crs|)
    && forall i, j | 0 <= i < j < |ids| :: Precedes(crs[ids[i]], crs[ids[j]])
  }

  /** uxTopCoRoutineReadyPriority bounds the ready priorities from above. */
  ghost predicate TopBounds(k: Kernel) {
    k.top < k.levels && forall p | k.top < p < k.levels :: Ready(p) in k.lists && k.lists[Ready(p)].ids == []
  }

  ghost predicate InOrder(crs: seq<Crcb>, lists: map<Where, Items>) {
    forall w | w in lists ::
      && (w == Delay1 || w == Delay2 ==> Sorted(crs, lists[w].ids))
      && (w.Event? ==> Queued(crs, lists[w].ids))
  }

  /** What every list operation keeps. */
  ghost predicate Lists(k: Kernel) {
    HasLists(k) && Linked(k.crs, k.lists) && TopBounds(k) && InOrder(k.crs, k.lists)
  }

  ghost predicate Inv(k: Kernel) {
    && Lists(k)
    && (k.phase.Moving? || k.phase.Expired? ==> k.phase.id < |k.crs|)
    && (k.phase == Running ==> k.current < |k.crs|)
    && forall x | 0 <= x < |k.crs| :: Settled(k, x) && Timed(k, x)
  }

  // ---------- the atomic steps ----------

  /** uxListRemove of one of the two items of x. */
  function Take(k: Kernel, x: Id, generic: bool): Kernel
    requires x < |k.crs| && Container(k.crs[x], generic) in k.lists
    requires x in k.lists[Container(k.crs[x], generic)].ids
  {
    var w := Container(k.crs[x], generic);
    k.(crs := k.crs[x := SetContainer(k.crs[x], generic, Nowhere)], lists := k.lists[w := TakenOut(k.lists[w], x)])
  }

  function Put(k: Kernel, x: Id, w: Where, i: nat): Kernel
    requires x < |k.crs| && w in k.lists && i <= |k.lists[w].ids|
  {
    k.(crs := k.crs[x := SetContainer(k.crs[x], ForGeneric(w), w)], lists := k.lists[w := PutIn(k.lists[w], i, x)])
  }

  /** vListInsertEnd */
  function PutEnd(k: Kernel, x: Id, w: Where): Kernel
    requires x < |k.crs| && w in k.lists && k.lists[w].at <= |k.lists[w].ids|
  {
    Put(k, x, w, EndPlace(|k.lists[w].ids|, k.lists[w].at))
  }

  /** The values of the items of a delay list, 0 standing for what is no co-routine. */
  function WakeTimes(crs: seq<Crcb>, ids: seq<Id>): (v: seq<Tick>)
    ensures |v| == |ids| && forall i | 0 <= i < |ids| && ids[i] < |crs| :: v[i] == crs[ids[i]].wake
  {
    seq(|ids|, i requires 0 <= i < |ids| => if ids[i] < |crs| then crs[ids[i]].wake else 0)
  }

  /** The value of an event item is set so that vListInsert puts high priorities first. */
  function EventValue(c: Crcb, levels: nat): Tick {
    if c.priority <= levels <= MAX_DELAY then levels - c.priority else 0
  }

  function EventValues(crs: seq<Crcb>, levels: nat, ids: seq<Id>): (v: seq<Tick>)
    ensures |v| == |ids| && forall i | 0 <= i < |ids| && ids[i] < |crs| :: v[i] == EventValue(crs[ids[i]], levels)
  {
    seq(|ids|, i requires 0 <= i < |ids| => if ids[i] < |crs| then EventValue(crs[ids[i]], levels) else 0)
  }

  /** prvAddCoRoutineToReadyQueue */
  function AddReady(k: Kernel, x: Id): Kernel
    requires x < |k.crs| && Ready(k.crs[x].priority) in k.lists
    requires k.lists[Ready(k.crs[x].priority)].at <= |k.lists[Ready(k.crs[x].priority)].ids|
  {
    var p := k.crs[x].priority;
    PutEnd(if p > k.top then k.(top := p) else k, x, Ready(p))
  }

  /** prvCheckPendingReadyList, its critical section: the head of the pending list is taken off. */
  function PendingTake(k: Kernel): Kernel
    requires Inv(k) && k.phase == Idle && k.lists[Pending].ids != []
  {
    var x := k.lists[Pending].ids[0];
    LinkedAt(k.crs, k.lists, Pending, x);
    Take(k, x, false).(phase := Moving(x))
  }

  /** prvCheckPendingReadyList, after it: the co-routine moves from its delay list to its ready list. */
  function PendingMove(k: Kernel): Kernel
    requires Inv(k) && k.phase.Moving?
  {
    var x := k.phase.id;
    assert Settled(k, x);
    TakeLinked(k.crs, k.lists, x, true);
    AddReady(Take(k, x, true), x).(phase := Idle)
  }

  /** prvCheckDelayedList: the tick counter moves on; when it overflows the delay lists swap. */
  function Tick1(k: Kernel): Kernel
    requires k.phase == Idle
  {
    var tick := (k.tick + 1) % TICKS;
    k.(tick := tick, flipped := if tick == 0 then !k.flipped else k.flipped, phase := Ticking)
  }

  lemma Tick1Is(k: Kernel)
    requires k.phase == Idle
    ensures Tick1(k) == k.(tick := if k.tick == MAX_DELAY then 0 else k.tick + 1,
                           flipped := if k.tick == MAX_DELAY then !k.flipped else k.flipped, phase := Ticking)
  {
  }

  predicate Due(k: Kernel)
    requires k.Delayed() in k.lists
    requires forall i | 0 <= i < |k.lists[k.Delayed()].ids| :: k.lists[k.Delayed()].ids[i] < |k.crs|
  {
    var ids := k.lists[k.Delayed()].ids;
    ids != [] && !(k.tick < k.crs[ids[0]].wake)
  }

  /** prvCheckDelayedList, its critical section: a co-routine whose time has come leaves its delay list
      and whatever list its event item is on. */
  function ExpireTake(k: Kernel): Kernel
    requires Inv(k) && k.phase == Ticking && Due(k)
  {
    var x := k.lists[k.Delayed()].ids[0];
    LinkedAt(k.crs, k.lists, k.Delayed(), x);
    TakeLinked(k.crs, k.lists, x, true);
    var k1 := Take(k, x, true);
    (if k1.crs[x].event != Nowhere then Take(k1, x, false) else k1).(phase := Expired(x))
  }

  function ExpireMove(k: Kernel): Kernel
    requires Inv(k) && k.phase.Expired?
  {
    assert Settled(k, k.phase.id);
    AddReady(k, k.phase.id).(phase := Ticking)
  }

  function TickDone(k: Kernel): Kernel
    requires k.phase == Ticking
  {
    k.(phase := Idle)
  }

  /** vCoRoutineSchedule looks for the highest ready list that is not empty. */
  function TopReady(k: Kernel, top: nat): (t: nat)
    requires forall p: nat | p <= top :: Ready(p) in k.lists
    ensures t <= top && forall p | t < p <= top :: k.lists[Ready(p)].ids == []
    ensures t == 0 || k.lists[Ready(t)].ids != []
  {
    if top == 0 || k.lists[Ready(top)].ids != [] then top else TopReady(k, top - 1)
  }

  /** vCoRoutineSchedule, its last part: the next co-routine of that list is run. */
  function Pick(k: Kernel): Kernel
    requires Inv(k) && k.phase == Idle
  {
    var t := TopReady(k, k.top);
    var l := k.lists[Ready(t)];
    if l.ids == [] then k.(top := t)
    else
      var at := NextPlace(|l.ids|, l.at);
      k.(top := t, lists := k.lists[Ready(t) := l.(at := at)], current := l.ids[at - 1], phase := Running)
  }

  /** A co-routine comes back to the scheduler without blocking. */
  function Return(k: Kernel): Kernel
    requires k.phase == Running
  {
    k.(phase := Idle)
  }

  /** vListInsert into a delay list. */
  function PutByWake(k: Kernel, x: Id, w: Where, wake: Tick): Kernel
    requires x < |k.crs| && w in k.lists
  {
    var crs := k.crs[x := k.crs[x].(wake := wake)];
    Put(k.(crs := crs), x, w, Place(WakeTimes(crs, k.lists[w].ids), wake))
  }

  /** The running co-routine leaves its ready list for the delay list its wake time belongs on. */
  function ToDelayList(k: Kernel, ticks: Tick): Kernel
    requires Inv(k) && k.phase == Running
  {
    var x := k.current;
    assert Settled(k, x);
    TakeLinked(k.crs, k.lists, x, true);
    var k1 := Take(k, x, true);
    var wake := (k.tick + ticks) % TICKS;
    var w := if wake < k.tick then k.Overflow() else k.Delayed();
    PutByWake(k1, x, w, wake)
  }

  /** The event item of x joins event list e. */
  function ToEventList(k: Kernel, x: Id, e: nat): Kernel
    requires Event(e) in k.lists && x < |k.crs|
  {
    var i := Place(EventValues(k.crs, k.levels, k.lists[Event(e)].ids), EventValue(k.crs[x], k.levels));
    Put(k.(crs := k.crs[x := k.crs[x].(arrival := k.clock)], clock := k.clock + 1), x, Event(e), i)
  }

  /** vCoRoutineAddToDelayedList, called by the running co-routine for at least one tick. */
  function Delay(k: Kernel, ticks: Tick, event: Option<nat>): Kernel
    requires Inv(k) && k.phase == Running
    requires event.Some? ==> Event(event.value) in k.lists
  {
    var k' := ToDelayList(k, ticks);
    (match event
     case None => k'
     case Some(e) => ToEventList(k', k.current, e)).(phase := Idle)
  }

  /** xCoRoutineCreate, once memory has been found. */
  function Create(k: Kernel, priority: nat): Kernel
    requires Inv(k)
  {
    var p := if priority >= k.levels then k.levels - 1 else priority;
    AddReady(k.(crs := k.crs + [Crcb(p, 0, Nowhere, Nowhere, 0)]), |k.crs|)
  }

  /** xCoRoutineRemoveFromEventList: the head of the event list becomes pending ready. */
  function Wake(k: Kernel, e: nat): Kernel
    requires Inv(k) && Event(e) in k.lists && k.lists[Event(e)].ids != []
  {
    var x := k.lists[Event(e)].ids[0];
    LinkedAt(k.crs, k.lists, Event(e), x);
    PutEnd(Take(k, x, false), x, Pending)
  }

  // ---------- interrupts within a step ----------

  /** A wake-up needs no more than the lists it works on, whatever the scheduler has under way. */
  predicate HasHead(k: Kernel, e: nat) {
    && Event(e) in k.lists && k.lists[Event(e)].ids != []
    && k.lists[Event(e)].ids[0] < |k.crs| && k.crs[k.lists[Event(e)].ids[0]].event == Event(e)
    && Pending in k.lists && k.lists[Pending].at <= |k.lists[Pending].ids|
  }

  function WakeHead(k: Kernel, e: nat): Kernel
    requires HasHead(k, e)
  {
    var x := k.lists[Event(e)].ids[0];
    PutEnd(Take(k, x, false), x, Pending)
  }

  lemma WakeIsHead(k: Kernel, e: nat)
    requires Inv(k) && Event(e) in k.lists && k.lists[Event(e)].ids != []
    ensures HasHead(k, e) && Wake(k, e) == WakeHead(k, e)
  {
    LinkedAt(k.crs, k.lists, Event(e), k.lists[Event(e)].ids[0]);
  }

  lemma WakeHeadIs(k: Kernel, e: nat)
    requires HasHead(k, e)
    ensures var x, l := k.lists[Event(e)].ids[0], k.lists[Pending];
            WakeHead(k, e) == k.(crs := k.crs[x := k.crs[x].(event := Pending)],
                                 lists := k.lists[Event(e) := TakenOut(k.lists[Event(e)], x)]
                                            [Pending := PutIn(l, EndPlace(|l.ids|, l.at), x)])
  {
    hide TakenOut, PutIn, EndPlace;
  }

  lemma GenericCommutes(crs: seq<Crcb>, x: Id, y: Id, w: Where)
    requires x < |crs| && y < |crs|
    ensures var c1, c2 := crs[x := crs[x].(event := Pending)], crs[y := crs[y].(generic := w)];
            c1[y := c1[y].(generic := w)] == c2[x := c2[x].(event := Pending)]
  {
  }

  lemma ListsCommute(lists: map<Where, Items>, e: Where, l1: Items, l2: Items, w: Where, l3: Items)
    requires w != e && w != Pending
    ensures lists[e := l1][Pending := l2][w := l3] == lists[w := l3][e := l1][Pending := l2]
  {
  }

  /** Outside its critical sections the scheduler takes items from ready and delay lists and puts them there. A
      wake-up before such an operation has the same effect as one after it, so it does not matter between which
      of the list operations of a step an interrupt comes. */
  lemma WakeCommutesTake(k: Kernel, e: nat, y: Id)
    requires HasHead(k, e) && y < |k.crs| && ForGeneric(k.crs[y].generic) && k.crs[y].generic in k.lists
    requires y in k.lists[k.crs[y].generic].ids
    ensures HasHead(Take(k, y, true), e)
    ensures var w := k.crs[y].generic;
            && w in WakeHead(k, e).lists && y in WakeHead(k, e).lists[w].ids && WakeHead(k, e).crs[y].generic == w
            && WakeHead(Take(k, y, true), e) == Take(WakeHead(k, e), y, true)
  {
    hide TakenOut, PutIn, WakeHead;
    var w, x, l := k.crs[y].generic, k.lists[Event(e)].ids[0], k.lists[Pending];
    WakeHeadIs(k, e);
    WakeHeadIs(Take(k, y, true), e);
    GenericCommutes(k.crs, x, y, Nowhere);
    ListsCommute(k.lists, Event(e), TakenOut(k.lists[Event(e)], x), PutIn(l, EndPlace(|l.ids|, l.at), x),
                 w, TakenOut(k.lists[w], y));
  }

  lemma WakeCommutesPut(k: Kernel, e: nat, y: Id, w: Where, i: nat)
    requires HasHead(k, e) && y < |k.crs| && ForGeneric(w) && w in k.lists && i <= |k.lists[w].ids|
    ensures HasHead(Put(k, y, w, i), e) && w in WakeHead(k, e).lists && WakeHead(k, e).lists[w] == k.lists[w]
    ensures WakeHead(Put(k, y, w, i), e) == Put(WakeHead(k, e), y, w, i)
  {
    hide TakenOut, PutIn, WakeHead;
    var x, l := k.lists[Event(e)].ids[0], k.lists[Pending];
    WakeHeadIs(k, e);
    WakeHeadIs(Put(k, y, w, i), e);
    GenericCommutes(k.crs, x, y, w);
    ListsCommute(k.lists, Event(e), TakenOut(k.lists[Event(e)], x), PutIn(l, EndPlace(|l.ids|, l.at), x),
                 w, PutIn(k.lists[w], i, y));
  }

  // ---------- every step keeps the lists in order ----------

  lemma SortedRemoved(crs: seq<Crcb>, ids: seq<Id>, i: nat)
    requires i < |ids|
    ensures Sorted(crs, ids) ==> Sorted(crs, Removed(ids, i))
    ensures Queued(crs, ids) ==> Queued(crs, Removed(ids, i))
  {
    var r := Removed(ids, i);
    assert forall j | 0 <= j < |r| :: r[j] == ids[if j < i then j else j + 1];
  }

  /** Only wake times, or priorities and arrivals, of the co-routines on the list matter. */
  lemma OrderFrame(crs: seq<Crcb>, crs': seq<Crcb>, ids: seq<Id>)
    requires |crs| <= |crs'|
    ensures Sorted(crs, ids) && (forall i | 0 <= i < |ids| :: crs'[ids[i]].wake == crs[ids[i]].wake)
            ==> Sorted(crs', ids)
    ensures Queued(crs, ids)
            && (forall i | 0 <= i < |ids| ::
                  crs'[ids[i]].priority == crs[ids[i]].priority && crs'[ids[i]].arrival == crs[ids[i]].arrival)
            ==> Queued(crs', ids)
  {
  }

  lemma ContainerFrame(crs: seq<Crcb>, crs': seq<Crcb>, ids: seq<Id>)
    requires |crs| <= |crs'|
    requires forall y | 0 <= y < |crs| ::
               crs'[y].(generic := Nowhere, event := Nowhere) == crs[y].(generic := Nowhere, event := Nowhere)
    ensures Sorted(crs, ids) ==> Sorted(crs', ids)
    ensures Queued(crs, ids) ==> Queued(crs', ids)
  {
    assert forall y | 0 <= y < |crs| ::
             && crs'[y].wake == crs[y].wake && crs'[y].priority == crs[y].priority
             && crs'[y].arrival == crs[y].arrival;
  }

  lemma SortedInserted(crs: seq<Crcb>, ids: seq<Id>, x: Id)
    requires Sorted(crs, ids) && x < |crs|
    ensures Sorted(crs, Inserted(ids, Place(WakeTimes(crs, ids), crs[x].wake), x))
  {
    var v := WakeTimes(crs, ids);
    var i := Place(v, crs[x].wake);
    assert forall j | 0 <= j < |ids| :: v[j] == crs[ids[j]].wake;
    hide Place, WakeTimes;
    forall j | i <= j < |ids|
      ensures crs[x].wake <= crs[ids[j]].wake
    {
      assert v[i] <= v[j];
    }
    forall j | 0 <= j < i
      ensures crs[ids[j]].wake <= crs[x].wake
    {
      assert v[j] <= crs[x].wake;
    }
    hide Inserted;
    SortedWith(crs, ids, i, x);
  }

  lemma SortedWith(crs: seq<Crcb>, ids: seq<Id>, i: int, x: Id)
    requires Sorted(crs, ids) && x < |crs| && 0 <= i <= |ids|
    requires forall j | i <= j < |ids| :: crs[x].wake <= crs[ids[j]].wake
    requires forall j | 0 <= j < i :: crs[ids[j]].wake <= crs[x].wake
    ensures Sorted(crs, Inserted(ids, i, x))
  {
    InsertedAt(ids, i, x);
    hide Inserted;
  }

  lemma QueuedInserted(crs: seq<Crcb>, levels: nat, ids: seq<Id>, x: Id)
    requires Queued(crs, ids) && x < |crs| && levels <= MAX_DELAY
    requires crs[x].priority < levels && forall i | 0 <= i < |ids| :: crs[ids[i]].priority < levels
    requires forall i | 0 <= i < |ids| :: crs[ids[i]].arrival < crs[x].arrival
    ensures Queued(crs, Inserted(ids, Place(EventValues(crs, levels, ids), EventValue(crs[x], levels)), x))
  {
    var v := EventValues(crs, levels, ids);
    var i := Place(v, EventValue(crs[x], levels));
    assert EventValue(crs[x], levels) == levels - crs[x].priority;
    assert forall j | 0 <= j < |ids| :: v[j] == levels - crs[ids[j]].priority;
    hide Place, EventValues, EventValue;
    forall j | i <= j < |ids|
      ensures Precedes(crs[x], crs[ids[j]])
    {
      assert levels - crs[x].priority < v[i];
      assert i < j ==> Precedes(crs[ids[i]], crs[ids[j]]);
    }
    forall j | 0 <= j < i
      ensures Precedes(crs[ids[j]], crs[x])
    {
      assert v[j] <= levels - crs[x].priority;
    }
    QueuedWith(crs, ids, i, x);
  }

  lemma QueuedWith(crs: seq<Crcb>, ids: seq<Id>, i: int, x: Id)
    requires Queued(crs, ids) && x < |crs| && 0 <= i <= |ids|
    requires forall j | i <= j < |ids| :: Precedes(crs[x], crs[ids[j]])
    requires forall j | 0 <= j < i :: Precedes(crs[ids[j]], crs[x])
    ensures Queued(crs, Inserted(ids, i, x))
  {
    InsertedAt(ids, i, x);
    hide Inserted, Precedes;
  }

  lemma TakeShape(k: Kernel, x: Id, generic: bool)
    requires HasLists(k) && TopBounds(k) && x < |k.crs|
    requires Container(k.crs[x], generic) in k.lists && x in k.lists[Container(k.crs[x], generic)].ids
    ensures HasLists(Take(k, x, generic)) && TopBounds(Take(k, x, generic))
  {
  }

  lemma TakeOrder(k: Kernel, x: Id, generic: bool)
    requires InOrder(k.crs, k.lists) && x < |k.crs|
    requires Container(k.crs[x], generic) in k.lists && x in k.lists[Container(k.crs[x], generic)].ids
    ensures InOrder(Take(k, x, generic).crs, Take(k, x, generic).lists)
  {
    hide Sorted, Queued;
    var w := Container(k.crs[x], generic);
    var k' := Take(k, x, generic);
    SortedRemoved(k.crs, k.lists[w].ids, IndexOf(k.lists[w].ids, x));
    forall v | v in k'.lists
      ensures v == Delay1 || v == Delay2 ==> Sorted(k'.crs, k'.lists[v].ids)
      ensures v.Event? ==> Queued(k'.crs, k'.lists[v].ids)
    {
      ContainerFrame(k.crs, k'.crs, k'.lists[v].ids);
    }
  }

  lemma TakeLists(k: Kernel, x: Id, generic: bool)
    requires Lists(k) && x < |k.crs| && Container(k.crs[x], generic) != Nowhere
    ensures Container(k.crs[x], generic) in k.lists && x in k.lists[Container(k.crs[x], generic)].ids
    ensures Lists(Take(k, x, generic))
  {
    hide Linked, InOrder, HasLists, TopBounds;
    TakeLinked(k.crs, k.lists, x, generic);
    TakeShape(k, x, generic);
    TakeOrder(k, x, generic);
  }

  lemma PutOrder(k: Kernel, x: Id, w: Where, i: nat)
    requires InOrder(k.crs, k.lists) && x < |k.crs| && w in k.lists && i <= |k.lists[w].ids|
    requires w == Delay1 || w == Delay2 ==> Sorted(k.crs, Inserted(k.lists[w].ids, i, x))
    requires w.Event? ==> Queued(k.crs, Inserted(k.lists[w].ids, i, x))
    ensures InOrder(Put(k, x, w, i).crs, Put(k, x, w, i).lists)
  {
    hide Sorted, Queued;
    var k' := Put(k, x, w, i);
    forall v | v in k'.lists
      ensures v == Delay1 || v == Delay2 ==> Sorted(k'.crs, k'.lists[v].ids)
      ensures v.Event? ==> Queued(k'.crs, k'.lists[v].ids)
    {
      ContainerFrame(k.crs, k'.crs, k'.lists[v].ids);
    }
  }

  lemma PutShape(k: Kernel, x: Id, w: Where, i: nat)
    requires HasLists(k) && TopBounds(k) && x < |k.crs| && w in k.lists && i <= |k.lists[w].ids|
    requires w.Ready? ==> w.priority <= k.top
    ensures HasLists(Put(k, x, w, i)) && TopBounds(Put(k, x, w, i))
  {
  }

  lemma PutLists(k: Kernel, x: Id, w: Where, i: nat)
    requires Lists(k) && x < |k.crs| && w in k.lists && i <= |k.lists[w].ids|
    requires Container(k.crs[x], ForGeneric(w)) == Nowhere
    requires w == Delay1 || w == Delay2 ==> Sorted(k.crs, Inserted(k.lists[w].ids, i, x))
    requires w.Event? ==> Queued(k.crs, Inserted(k.lists[w].ids, i, x))
    requires w.Ready? ==> w.priority <= k.top
    ensures x !in k.lists[w].ids && Lists(Put(k, x, w, i))
  {
    hide Linked, InOrder, HasLists, TopBounds, Sorted, Queued;
    PutLinked(k.crs, k.lists, x, w, i);
    PutShape(k, x, w, i);
    PutOrder(k, x, w, i);
  }

  lemma AddReadyLists(k: Kernel, x: Id)
    requires Lists(k) && x < |k.crs| && k.crs[x].generic == Nowhere && k.crs[x].priority < k.levels
    ensures var w := Ready(k.crs[x].priority);
            && w in k.lists && k.lists[w].at <= |k.lists[w].ids| && Lists(AddReady(k, x))
            && AddReady(k, x) == k.(crs := k.crs[x := k.crs[x].(generic := w)], lists := AddReady(k, x).lists,
                top := AddReady(k, x).top)
  {
    var p := k.crs[x].priority;
    var k' := if p > k.top then k.(top := p) else k;
    assert HasLists(k') && TopBounds(k');
    PutLists(k', x, Ready(p), EndPlace(|k.lists[Ready(p)].ids|, k.lists[Ready(p)].at));
  }

  /** The lists do not depend on the phase, the current co-routine, the clock or the tick counter. */
  lemma SameLists(k: Kernel, k': Kernel)
    requires Lists(k) && k'.levels == k.levels && k'.crs == k.crs && k'.lists == k.lists && k'.top == k.top
    ensures Lists(k')
  {
  }

  /** A step that touches only the co-routine x. */
  ghost predicate Touches(k: Kernel, k': Kernel, x: Id) {
    && k'.levels == k.levels && k'.flipped == k.flipped && k'.tick == k.tick && k'.clock >= k.clock
    && x < |k.crs| == |k'.crs| && (forall y | 0 <= y < |k.crs| && y != x :: k'.crs[y] == k.crs[y])
    && k'.phase != Running
    && (k'.phase.Moving? || k'.phase.Expired? ==> k'.phase.id == x)
    && (k.phase.Expired? ==> k.phase.id == x)
    && (k.phase.Ticking? || k.phase.Expired? ==> k'.phase.Ticking? || k'.phase.Expired?)
  }

  lemma TouchInv(k: Kernel, k': Kernel, x: Id)
    requires Inv(k) && Touches(k, k', x) && Lists(k') && Settled(k', x) && Timed(k', x)
    ensures Inv(k')
  {
    hide Lists;
    forall y | 0 <= y < |k'.crs|
      ensures Settled(k', y) && Timed(k', y)
    {
      assert Settled(k, y) && Timed(k, y);
    }
  }

  lemma InvAt(k: Kernel, x: Id)
    requires Inv(k) && x < |k.crs|
    ensures Lists(k) && Settled(k, x) && Timed(k, x)
  {
  }

  lemma InvPhase(k: Kernel)
    requires Inv(k)
    ensures 0 < k.levels && Lists(k) && Linked(k.crs, k.lists) && Delay1 in k.lists && Delay2 in k.lists
              && Pending in k.lists
    ensures k.phase.Moving? || k.phase.Expired? ==> k.phase.id < |k.crs|
    ensures k.phase == Running ==> k.current < |k.crs|
  {
  }

  lemma PendingTakeInv(k: Kernel)
    requires Inv(k) && k.phase == Idle && k.lists[Pending].ids != []
    ensures Inv(PendingTake(k))
  {
    hide Inv, Lists, Linked, TakenOut;
    InvPhase(k);
    var x := k.lists[Pending].ids[0];
    LinkedAt(k.crs, k.lists, Pending, x);
    InvAt(k, x);
    TakeLists(k, x, false);
    SameLists(Take(k, x, false), PendingTake(k));
    TouchInv(k, PendingTake(k), x);
  }

  lemma PendingMoveInv(k: Kernel)
    requires Inv(k) && k.phase.Moving?
    ensures Inv(PendingMove(k))
  {
    hide Inv, Lists, Linked, TakenOut, AddReady;
    InvPhase(k);
    var x := k.phase.id;
    InvAt(k, x);
    TakeLists(k, x, true);
    var k1 := Take(k, x, true);
    AddReadyLists(k1, x);
    SameLists(AddReady(k1, x), PendingMove(k));
    TouchInv(k, PendingMove(k), x);
  }

  lemma Tick1Inv(k: Kernel)
    requires Inv(k) && k.phase == Idle
    ensures Inv(Tick1(k))
  {
    hide Lists;
    var k' := Tick1(k);
    SameLists(k, k');
    forall y | 0 <= y < |k'.crs|
      ensures Settled(k', y) && Timed(k', y)
    {
      assert Settled(k, y) && Timed(k, y);
    }
  }

  lemma ExpireTakeInv(k: Kernel)
    requires Inv(k) && k.phase == Ticking && Due(k)
    ensures Inv(ExpireTake(k))
  {
    hide Inv, Lists, Linked, TakenOut;
    InvPhase(k);
    var x := k.lists[k.Delayed()].ids[0];
    LinkedAt(k.crs, k.lists, k.Delayed(), x);
    InvAt(k, x);
    TakeLists(k, x, true);
    var k1 := Take(k, x, true);
    var k2 := k1;
    if k1.crs[x].event != Nowhere {
      TakeLists(k1, x, false);
      k2 := Take(k1, x, false);
    }
    SameLists(k2, ExpireTake(k));
    TouchInv(k, ExpireTake(k), x);
  }

  lemma ExpireMoveInv(k: Kernel)
    requires Inv(k) && k.phase.Expired?
    ensures Inv(ExpireMove(k))
  {
    hide Inv, Lists, Linked, AddReady;
    InvPhase(k);
    var x := k.phase.id;
    InvAt(k, x);
    AddReadyLists(k, x);
    SameLists(AddReady(k, x), ExpireMove(k));
    TouchInv(k, ExpireMove(k), x);
  }

  /** The head of a sorted delay list is the first to be due. */
  lemma TickDoneInv(k: Kernel)
    requires Inv(k) && k.phase == Ticking && !Due(k)
    ensures Inv(TickDone(k))
  {
    var k' := TickDone(k);
    SameLists(k, k');
    hide Lists;
    forall y | 0 <= y < |k'.crs|
      ensures Settled(k', y) && Timed(k', y)
    {
      InvAt(k, y);
      if k.crs[y].generic == k.Delayed() {
        NotDue(k, y);
      }
    }
  }

  lemma NotDue(k: Kernel, y: Id)
    requires Lists(k) && k.phase == Ticking && !Due(k)
    requires y < |k.crs| && k.crs[y].generic == k.Delayed()
    ensures k.crs[y].wake > k.tick
  {
    var ids := k.lists[k.Delayed()].ids;
    var i :| 0 <= i < |ids| && ids[i] == y;
    assert Sorted(k.crs, ids);
  }

  lemma PickLists(k: Kernel, t: nat, at: nat)
    requires Lists(k) && t <= k.top && forall p | t < p <= k.top :: Ready(p) in k.lists && k.lists[Ready(p)].ids == []
    requires Ready(t) in k.lists && at <= |k.lists[Ready(t)].ids|
    ensures Lists(k.(top := t, lists := k.lists[Ready(t) := k.lists[Ready(t)].(at := at)]))
  {
    hide Sorted, Queued, Distinct;
    var k' := k.(top := t, lists := k.lists[Ready(t) := k.lists[Ready(t)].(at := at)]);
    assert forall w | w in k'.lists :: w in k.lists && k'.lists[w].ids == k.lists[w].ids;
  }

  lemma ReadyLists(k: Kernel)
    requires Lists(k)
    ensures forall p: nat | p <= k.top :: Ready(p) in k.lists
    ensures forall w | w in k.lists :: k.lists[w].at <= |k.lists[w].ids|
  {
  }

  lemma PickInv(k: Kernel)
    requires Inv(k) && k.phase == Idle
    ensures Inv(Pick(k))
  {
    hide Inv, Lists, Linked;
    InvPhase(k);
    ReadyLists(k);
    var t := TopReady(k, k.top);
    var l := k.lists[Ready(t)];
    var k' := Pick(k);
    PickLists(k, t, k'.lists[Ready(t)].at);
    if l.ids != [] {
      LinkedAt(k.crs, k.lists, Ready(t), k'.current);
    }
    SameLists(k.(top := t, lists := k.lists[Ready(t) := l.(at := k'.lists[Ready(t)].at)]), k');
    PhaseInv(k, k');
  }

  /** A step from Idle to Running or back that moves no co-routine. */
  lemma PhaseInv(k: Kernel, k': Kernel)
    requires Inv(k) && Lists(k')
    requires k'.crs == k.crs && k'.levels == k.levels && k'.tick == k.tick && k'.flipped == k.flipped
               && k'.clock == k.clock
    requires (k.phase == Idle || k.phase == Running) && (k'.phase == Idle || k'.phase == Running)
    requires k'.phase == Running ==> k'.current < |k.crs| && k.crs[k'.current].generic.Ready?
    ensures Inv(k')
  {
    hide Lists;
    forall y | 0 <= y < |k'.crs|
      ensures Settled(k', y) && Timed(k', y)
    {
      InvAt(k, y);
    }
  }

  lemma ReturnInv(k: Kernel)
    requires Inv(k) && k.phase == Running
    ensures Inv(Return(k))
  {
    hide Inv, Lists;
    InvPhase(k);
    SameLists(k, Return(k));
    PhaseInv(k, Return(k));
  }

  lemma LinkedFrame(crs: seq<Crcb>, crs': seq<Crcb>, lists: map<Where, Items>)
    requires Linked(crs, lists) && |crs'| >= |crs|
    requires forall y | 0 <= y < |crs| :: crs'[y].generic == crs[y].generic && crs'[y].event == crs[y].event
    requires forall y | |crs| <= y < |crs'| :: crs'[y].generic == Nowhere && crs'[y].event == Nowhere
    ensures Linked(crs', lists)
  {
    forall w, y | w in lists && y in lists[w].ids
      ensures Sits(crs', w, y)
    {
      LinkedAt(crs, lists, w, y);
    }
    forall y, g | 0 <= y < |crs'| && Container(crs'[y], g) != Nowhere
      ensures ForGeneric(Container(crs'[y], g)) == g
      ensures Container(crs'[y], g) in lists && y in lists[Container(crs'[y], g)].ids
    {
      OnItsList(crs, lists, y, g);
    }
    LinkedIf(crs', lists);
  }

  /** The wake time of a co-routine that is on no delay list, and the arrival of one that is on no
      event list, may change. */
  lemma ValueChange(k: Kernel, x: Id, wake: Tick, arrival: nat)
    requires Lists(k) && x < |k.crs|
    requires k.crs[x].wake == wake || k.crs[x].generic == Nowhere
    requires k.crs[x].arrival == arrival || k.crs[x].event == Nowhere
    ensures Lists(k.(crs := k.crs[x := k.crs[x].(wake := wake, arrival := arrival)]))
  {
    var crs' := k.crs[x := k.crs[x].(wake := wake, arrival := arrival)];
    LinkedFrame(k.crs, crs', k.lists);
    hide HasLists, TopBounds, Distinct;
    forall w | w in k.lists
      ensures w == Delay1 || w == Delay2 ==> Sorted(crs', k.lists[w].ids)
      ensures w.Event? ==> Queued(crs', k.lists[w].ids)
    {
      if x in k.lists[w].ids {
        LinkedAt(k.crs, k.lists, w, x);
      }
      hide Linked;
      OrderFrame(k.crs, crs', k.lists[w].ids);
    }
  }

  lemma DelayListOrder(k: Kernel, w: Where)
    requires Lists(k) && (w == Delay1 || w == Delay2)
    ensures w in k.lists && Sorted(k.crs, k.lists[w].ids)
  {
  }

  lemma EventListOrder(k: Kernel, e: nat)
    requires Lists(k) && Event(e) in k.lists
    ensures Queued(k.crs, k.lists[Event(e)].ids)
    ensures forall i | 0 <= i < |k.lists[Event(e)].ids| :: k.crs[k.lists[Event(e)].ids[i]].event == Event(e)
  {
    forall i | 0 <= i < |k.lists[Event(e)].ids|
      ensures k.crs[k.lists[Event(e)].ids[i]].event == Event(e)
    {
      LinkedAt(k.crs, k.lists, Event(e), k.lists[Event(e)].ids[i]);
    }
  }

  lemma PutByWakeLists(k: Kernel, x: Id, w: Where, wake: Tick)
    requires Lists(k) && x < |k.crs| && k.crs[x].generic == Nowhere && (w == Delay1 || w == Delay2)
    ensures w in k.lists && Lists(PutByWake(k, x, w, wake))
    ensures var k' := PutByWake(k, x, w, wake);
            k' == k.(crs := k.crs[x := k.crs[x].(wake := wake, generic := w)], lists := k'.lists)
                && k'.lists.Keys == k.lists.Keys
  {
    hide Lists, Linked, PutIn, Sorted, WakeTimes;
    ValueChange(k, x, wake, k.crs[x].arrival);
    var k2 := k.(crs := k.crs[x := k.crs[x].(wake := wake)]);
    DelayListOrder(k2, w);
    SortedInserted(k2.crs, k2.lists[w].ids, x);
    PutLists(k2, x, w, Place(WakeTimes(k2.crs, k2.lists[w].ids), wake));
  }

  lemma ToDelayListLists(k: Kernel, ticks: Tick)
    requires Inv(k) && k.phase == Running
    ensures var wake := (k.tick + ticks) % TICKS;
            var w := if wake < k.tick then k.Overflow() else k.Delayed();
            var k' := ToDelayList(k, ticks);
            && Lists(k') && k' == k.(crs := k.crs[k.current := k.crs[k.current].(wake := wake, generic := w)],
                lists := k'.lists)
            && k'.lists.Keys == k.lists.Keys
  {
    hide Inv, Lists, Linked, TakenOut, PutByWake;
    InvPhase(k);
    var x := k.current;
    InvAt(k, x);
    TakeLists(k, x, true);
    var wake := (k.tick + ticks) % TICKS;
    PutByWakeLists(Take(k, x, true), x, if wake < k.tick then k.Overflow() else k.Delayed(), wake);
  }

  lemma ToEventListLists(k: Kernel, x: Id, e: nat)
    requires Lists(k) && x < |k.crs| && Event(e) in k.lists && k.levels <= MAX_DELAY
    requires k.crs[x].event == Nowhere
    requires forall y | 0 <= y < |k.crs| :: k.crs[y].priority < k.levels
               && (k.crs[y].event.Event? ==> k.crs[y].arrival < k.clock)
    ensures var k' := ToEventList(k, x, e);
            && Lists(k')
            && k' == k.(crs := k.crs[x := k.crs[x].(event := Event(e), arrival := k.clock)], lists := k'.lists,
                clock := k.clock + 1)
  {
    hide Lists, Queued, PutIn, EventValues, EventValue, Place, Inserted;
    ValueChange(k, x, k.crs[x].wake, k.clock);
    var k1 := k.(crs := k.crs[x := k.crs[x].(arrival := k.clock)], clock := k.clock + 1);
    SameLists(k.(crs := k1.crs), k1);
    EventValuesKept(k, k1, x, e);
    EventListOrder(k1, e);
    QueuedInserted(k1.crs, k.levels, k.lists[Event(e)].ids, x);
    PutLists(k1, x, Event(e),
        Place(EventValues(k1.crs, k.levels, k.lists[Event(e)].ids), EventValue(k1.crs[x], k.levels)));
  }

  lemma EventValuesKept(k: Kernel, k1: Kernel, x: Id, e: nat)
    requires Lists(k) && Event(e) in k.lists && x < |k.crs| && k.crs[x].event == Nowhere
    requires k1.crs == k.crs[x := k.crs[x].(arrival := k.clock)]
    requires forall y | 0 <= y < |k.crs| :: k.crs[y].priority < k.levels
               && (k.crs[y].event.Event? ==> k.crs[y].arrival < k.clock)
    ensures var ids := k.lists[Event(e)].ids;
            && EventValues(k.crs, k.levels, ids) == EventValues(k1.crs, k.levels, ids)
            && EventValue(k.crs[x], k.levels) == EventValue(k1.crs[x], k.levels)
            && forall i | 0 <= i < |ids| ::
                 ids[i] < |k.crs| && k1.crs[ids[i]].priority < k.levels && k1.crs[ids[i]].arrival < k.clock
  {
    EventListOrder(k, e);
    hide Lists;
    var ids := k.lists[Event(e)].ids;
    assert EventValues(k.crs, k.levels, ids) == EventValues(k1.crs, k.levels, ids);
  }

  lemma DelayInv(k: Kernel, ticks: Tick, event: Option<nat>)
    requires Inv(k) && k.phase == Running && 0 < ticks && k.levels <= MAX_DELAY
    requires event.Some? ==> Event(event.value) in k.lists
    ensures Inv(Delay(k, ticks, event))
  {
    hide Inv, Lists, ToDelayList, ToEventList;
    InvPhase(k);
    var x := k.current;
    InvAt(k, x);
    ToDelayListLists(k, ticks);
    var k1 := ToDelayList(k, ticks);
    forall y | 0 <= y < |k.crs|
      ensures k1.crs[y].priority < k.levels && (k1.crs[y].event.Event? ==> k1.crs[y].arrival < k.clock)
    {
      InvAt(k, y);
    }
    var k2 := k1;
    if event.Some? {
      ToEventListLists(k1, x, event.value);
      k2 := ToEventList(k1, x, event.value);
    }
    SameLists(k2, Delay(k, ticks, event));
    TouchInv(k, Delay(k, ticks, event), x);
  }

  lemma CreateInv(k: Kernel, priority: nat)
    requires Inv(k)
    ensures Inv(Create(k, priority))
  {
    hide Lists, AddReady;
    InvPhase(k);
    var p := if priority >= k.levels then k.levels - 1 else priority;
    var x := |k.crs|;
    NewLists(k, Crcb(p, 0, Nowhere, Nowhere, 0));
    var k1 := k.(crs := k.crs + [Crcb(p, 0, Nowhere, Nowhere, 0)]);
    AddReadyLists(k1, x);
    var k' := Create(k, priority);
    forall y | 0 <= y < |k'.crs|
      ensures Settled(k', y) && Timed(k', y)
    {
      if y < x {
        InvAt(k, y);
      }
    }
  }

  lemma NewLists(k: Kernel, c: Crcb)
    requires Lists(k) && c.generic == Nowhere && c.event == Nowhere
    ensures Lists(k.(crs := k.crs + [c])) && 0 < k.levels
  {
    var crs' := k.crs + [c];
    LinkedFrame(k.crs, crs', k.lists);
    hide Linked;
    forall w | w in k.lists
      ensures w == Delay1 || w == Delay2 ==> Sorted(crs', k.lists[w].ids)
      ensures w.Event? ==> Queued(crs', k.lists[w].ids)
    {
      ContainerFrame(k.crs, crs', k.lists[w].ids);
    }
  }

  lemma WakeInv(k: Kernel, e: nat)
    requires Inv(k) && Event(e) in k.lists && k.lists[Event(e)].ids != []
    ensures Inv(Wake(k, e))
    ensures Wake(k, e) == k.(crs := Wake(k, e).crs, lists := Wake(k, e).lists)
    ensures var x := k.lists[Event(e)].ids[0]; x < |k.crs| && Wake(k, e).crs == k.crs[x := k.crs[x].(event := Pending)]
  {
    hide Inv, Lists, Linked, TakenOut, PutIn;
    InvPhase(k);
    var x := k.lists[Event(e)].ids[0];
    LinkedAt(k.crs, k.lists, Event(e), x);
    TakeLists(k, x, false);
    var k1 := Take(k, x, false);
    ReadyLists(k1);
    PutLists(k1, x, Pending, EndPlace(|k1.lists[Pending].ids|, k1.lists[Pending].at));
    var k' := Wake(k, e);
    forall y | 0 <= y < |k'.crs|
      ensures Settled(k', y) && Timed(k', y)
    {
      InvAt(k, y);
    }
    WokenInv(k, k');
  }

  lemma WokenInv(k: Kernel, k': Kernel)
    requires Inv(k) && Lists(k') && k'.phase == k.phase && k'.current == k.current && |k'.crs| == |k.crs|
    requires forall y | 0 <= y < |k'.crs| :: Settled(k', y) && Timed(k', y)
    ensures Inv(k')
  {
  }
}
