/** Whose turn it is among ready co-routines of one priority, over whole runs. */
module CoRoutineTurns {
  import opened KernelList
  import opened Wrappers
  import opened CoRoutineKernel
  import opened CoRoutineRuns

  // ---------- one ready list ----------

  /** What a step does to a ready list. */
  datatype Change =
    | Same
    | Picked(id: Id)
    | Left(id: Id)    // the one pxIndex stands on is removed
    | Joined(id: Id)

  ghost predicate Proper(l: Items) { Distinct(l.ids) && l.at <= |l.ids| }

  ghost predicate Changes(l: Items, l': Items, c: Change)
    requires Proper(l)
  {
    var n := |l.ids|;
    match c
    case Same => l' == l
    case Picked(x) => n > 0 && l'.ids == l.ids && l'.at == NextPlace(n, l.at) && x == l.ids[l'.at - 1]
    case Left(x) => 0 < l.at && x == l.ids[l.at - 1] && l' == Items(Removed(l.ids, l.at - 1), l.at - 1)
    case Joined(x) => x !in l.ids && l' == PutIn(l, EndPlace(n, l.at), x)
  }

  /** How many others of the list come before x. */
  function Turn(l: Items, x: Id): int
    requires x in l.ids
  {
    var i := IndexOf(l.ids, x);
    if i >= l.at then i - l.at else i - l.at + |l.ids|
  }

  lemma IndexIs(s: seq<Id>, i: nat)
    requires Distinct(s) && i < |s|
    ensures IndexOf(s, s[i]) == i
  {
  }

  lemma TurnRange(l: Items, x: Id, y: Id)
    requires Proper(l) && x in l.ids && y in l.ids
    ensures 0 <= Turn(l, x) < |l.ids| && (Turn(l, x) == Turn(l, y) ==> x == y)
  {
  }

  lemma ChangeKeepsProper(l: Items, l': Items, c: Change)
    requires Proper(l) && Changes(l, l', c)
    ensures Proper(l')
    ensures forall y :: y in l'.ids <==> (y in l.ids && c != Left(y)) || c == Joined(y)
  {
    match c
    case Same =>
    case Picked(x) =>
    case Left(x) =>
      IndexIs(l.ids, l.at - 1);
      RemovedIds(l.ids, x);
    case Joined(x) => InsertedIds(l.ids, EndPlace(|l.ids|, l.at), x);
  }

  /** Where y stands afterwards. */
  lemma IndexAfter(l: Items, l': Items, c: Change, y: Id)
    requires Proper(l) && Changes(l, l', c) && y in l.ids && c != Left(y)
    ensures y in l'.ids
    ensures var i, i' := IndexOf(l.ids, y), IndexOf(l'.ids, y);
            match c
            case Left(_) => i != l.at - 1 && i' == (if i < l.at then i else i - 1)
            case Joined(_) => i' == if i < EndPlace(|l.ids|, l.at) then i else i + 1
            case _ => i' == i
  {
    hide Distinct, Removed, Inserted, IndexOf;
    match c
    case Left(x) => IndexOfRemoved(l.ids, l.at - 1, y);
    case Joined(x) => IndexOfInserted(l.ids, EndPlace(|l.ids|, l.at), x, y);
    case _ =>
  }

  lemma IndexOfRemoved(s: seq<Id>, k: nat, y: Id)
    requires Distinct(s) && k < |s| && y in s && y != s[k]
    ensures var i, r := IndexOf(s, y), Removed(s, k);
            i != k && y in r && IndexOf(r, y) == if i < k then i else i - 1
  {
    var i, r := IndexOf(s, y), Removed(s, k);
    IndexIs(s, k);
    RemovedIds(s, s[k]);
    var j := if i < k then i else i - 1;
    assert r[j] == y;
    IndexIs(r, j);
  }

  lemma IndexOfInserted(s: seq<Id>, k: nat, x: Id, y: Id)
    requires Distinct(s) && k <= |s| && x !in s && y in s
    ensures var i, r := IndexOf(s, y), Inserted(s, k, x);
            y in r && IndexOf(r, y) == if i < k then i else i + 1
  {
    var i, r := IndexOf(s, y), Inserted(s, k, x);
    InsertedIds(s, k, x);
    InsertedAt(s, k, x);
    hide Inserted, Distinct;
    var j := if i < k then i else i + 1;
    assert r[j] == y;
    IndexIs(r, j);
  }

  lemma IndexJoined(l: Items, l': Items, x: Id)
    requires Proper(l) && Changes(l, l', Joined(x))
    ensures x in l'.ids && IndexOf(l'.ids, x) == EndPlace(|l.ids|, l.at)
  {
    ChangeKeepsProper(l, l', Joined(x));
    InsertedAt(l.ids, EndPlace(|l.ids|, l.at), x);
    IndexIs(l'.ids, EndPlace(|l.ids|, l.at));
  }

  /** The one picked was next and is last then. */
  lemma PickedTurn(l: Items, l': Items, x: Id)
    requires Proper(l) && Changes(l, l', Picked(x))
    ensures x in l.ids && x in l'.ids && Turn(l, x) == 0 && Turn(l', x) == |l.ids| - 1
  {
    IndexIs(l.ids, l'.at - 1);
  }

  /** Of two that are on the list before and after, the one whose turn is first stays first, except that the
      one picked is then last. */
  lemma TurnsKept(l: Items, l': Items, c: Change, x: Id, y: Id)
    requires Proper(l) && Changes(l, l', c) && x in l.ids && y in l.ids && x in l'.ids && y in l'.ids
    requires c != Left(x) && c != Left(y) && c != Picked(y) && Turn(l, y) < Turn(l, x)
    ensures c != Picked(x) && Turn(l', y) < Turn(l', x)
  {
    IndexAfter(l, l', c, x);
    IndexAfter(l, l', c, y);
    TurnRange(l, x, y);
    hide Distinct, Removed, Inserted, IndexOf;
    match c
    case Same =>
    case Picked(z) => PickedTurn(l, l', z);
    case Left(z) =>
    case Joined(z) =>
  }

  /** A newcomer comes after all the others, except the one pxIndex stands on. */
  lemma NewcomerTurn(l: Items, l': Items, x: Id, y: Id)
    requires Proper(l) && Changes(l, l', Joined(x)) && y in l.ids
    ensures x in l'.ids && y in l'.ids
    ensures Turn(l', y) < Turn(l', x) <==> !(l.at > 0 && l.ids[l.at - 1] == y)
  {
    IndexAfter(l, l', Joined(x), y);
    IndexJoined(l, l', x);
    if l.at > 0 && l.ids[l.at - 1] == y {
      IndexIs(l.ids, l.at - 1);
    }
  }

  /** How often x can be picked before y is. */
  ghost function Credit(l: Items, x: Id, y: Id): nat
    requires y in l.ids
  {
    if IndexOf(l.ids, y) >= l.at then
      if x in l.ids && l.at <= IndexOf(l.ids, x) < IndexOf(l.ids, y) then 1 else 0
    else if x in l.ids && l.at <= IndexOf(l.ids, x) then 2 else 1
  }

  lemma CreditKept(l: Items, l': Items, c: Change, x: Id, y: Id)
    requires Proper(l) && Changes(l, l', c) && y in l.ids && y in l'.ids && x != y && c != Left(y) && c != Picked(y)
    ensures Credit(l', x, y) + (if c == Picked(x) then 1 else 0) <= Credit(l, x, y)
  {
    hide Distinct, Removed, Inserted, IndexOf;
    ChangeKeepsProper(l, l', c);
    IndexAfter(l, l', c, y);
    match c
    case Same =>
    case Picked(z) => IndexIs(l.ids, l'.at - 1);
    case Left(z) =>
      if z == x {
        IndexIs(l.ids, l.at - 1);
      } else if x in l.ids {
        IndexAfter(l, l', c, x);
      }
    case Joined(z) =>
      if z == x {
        IndexJoined(l, l', x);
      } else if x in l.ids {
        IndexAfter(l, l', c, x);
      }
  }

  // ---------- what each step does to the ready list of a priority ----------

  /** While a co-routine runs, pxIndex of its ready list stands on it. */
  ghost predicate OnTurn(k: Kernel) {
    k.phase == Running ==>
      && k.current < |k.crs| && Ready(k.crs[k.current].priority) in k.lists
      && var l := k.lists[Ready(k.crs[k.current].priority)];
         0 < l.at <= |l.ids| && l.ids[l.at - 1] == k.current
  }

  lemma ReadyProper(k: Kernel, p: nat)
    requires Lists(k) && p < k.levels
    ensures Ready(p) in k.lists && Proper(k.lists[Ready(p)])
    ensures forall x: Id :: x in k.lists[Ready(p)].ids <==> x < |k.crs| && k.crs[x].generic == Ready(p)
  {
    forall x: Id
      ensures x in k.lists[Ready(p)].ids <==> x < |k.crs| && k.crs[x].generic == Ready(p)
    {
      if x in k.lists[Ready(p)].ids {
        LinkedAt(k.crs, k.lists, Ready(p), x);
      }
    }
  }

  /** Only a pick makes the scheduler run a co-routine, and only when it finds one. */
  ghost predicate PicksFrom(k: Kernel, s: Step, p: nat)
    requires Inv(k) && Enabled(k, s)
  {
    var k' := Apply(k, s);
    s.Picks? && k'.phase == Running && k'.current < |k'.crs| && k'.crs[k'.current].priority == p
  }

  ghost predicate Does(k: Kernel, s: Step, p: nat, c: Change)
    requires Inv(k) && Enabled(k, s)
  {
    var k' := Apply(k, s);
    && Ready(p) in k.lists && Ready(p) in k'.lists && Proper(k.lists[Ready(p)])
    && Changes(k.lists[Ready(p)], k'.lists[Ready(p)], c)
    && (c.Picked? <==> PicksFrom(k, s, p)) && (c.Picked? ==> c.id == k'.current)
    && (c.Left? <==> s.Delays? && k.crs[k.current].priority == p) && (c.Left? ==> c.id == k.current)
  }

  /** The scheduler makes x ready. */
  lemma AddReadyChange(k: Kernel, x: Id, p: nat) returns (c: Change)
    requires Lists(k) && x < |k.crs| && k.crs[x].generic == Nowhere && k.crs[x].priority < k.levels && p < k.levels
    ensures Ready(p) in k.lists && Proper(k.lists[Ready(p)]) && Ready(k.crs[x].priority) in k.lists
    ensures k.lists[Ready(k.crs[x].priority)].at <= |k.lists[Ready(k.crs[x].priority)].ids|
    ensures Ready(p) in AddReady(k, x).lists
    ensures Changes(k.lists[Ready(p)], AddReady(k, x).lists[Ready(p)], c)
    ensures c == if k.crs[x].priority == p then Joined(x) else Same
  {
    ReadyProper(k, p);
    AddReadyLists(k, x);
    hide Lists;
    c := if k.crs[x].priority == p then Joined(x) else Same;
  }

  lemma PendingMoveChange(k: Kernel, p: nat) returns (c: Change)
    requires Inv(k) && k.phase.Moving? && p < k.levels
    ensures Does(k, PendingMoves, p, c) && PendingMove(k).phase == Idle
    ensures c == if k.crs[k.phase.id].priority == p then Joined(k.phase.id) else Same
  {
    hide Inv, Lists, Linked, TakenOut, AddReady, Changes;
    InvPhase(k);
    var x := k.phase.id;
    InvAt(k, x);
    ReadyProper(k, p);
    TakeLists(k, x, true);
    c := AddReadyChange(Take(k, x, true), x, p);
  }

  lemma ExpireMoveChange(k: Kernel, p: nat) returns (c: Change)
    requires Inv(k) && k.phase.Expired? && p < k.levels
    ensures Does(k, ExpireMoves, p, c) && ExpireMove(k).phase == Ticking
    ensures c == if k.crs[k.phase.id].priority == p then Joined(k.phase.id) else Same
  {
    hide Inv, Lists, Linked, TakenOut, AddReady, Changes;
    InvPhase(k);
    var x := k.phase.id;
    InvAt(k, x);
    c := AddReadyChange(k, x, p);
  }

  lemma ExpireTakeChange(k: Kernel, p: nat)
    requires Inv(k) && k.phase == Ticking && Due(k) && p < k.levels
    ensures Does(k, ExpireTakes, p, Same) && ExpireTake(k).phase.Expired?
  {
    hide Inv, Lists, Linked, TakenOut;
    InvPhase(k);
    ReadyProper(k, p);
    var x := k.lists[k.Delayed()].ids[0];
    LinkedAt(k.crs, k.lists, k.Delayed(), x);
    TakeLists(k, x, true);
    var k1 := Take(k, x, true);
    if k1.crs[x].event != Nowhere {
      TakeLists(k1, x, false);
    }
    InvAt(k, x);
  }

  lemma CreateChange(k: Kernel, priority: nat, p: nat) returns (c: Change)
    requires Inv(k) && p < k.levels
    ensures Does(k, Creates(priority), p, c) && Create(k, priority).phase == k.phase
    ensures c == Same || c == Joined(|k.crs|)
  {
    hide Inv, Lists, Linked, AddReady, Changes;
    InvPhase(k);
    var q := if priority >= k.levels then k.levels - 1 else priority;
    var k1 := k.(crs := k.crs + [Crcb(q, 0, Nowhere, Nowhere, 0)]);
    NewLists(k, Crcb(q, 0, Nowhere, Nowhere, 0));
    AddReadyLists(k1, |k.crs|);
    c := AddReadyChange(k1, |k.crs|, p);
  }

  lemma PickChange(k: Kernel, p: nat) returns (c: Change)
    requires Inv(k) && k.phase == Idle && p < k.levels
    ensures Does(k, Picks, p, c) && OnTurn(Pick(k))
  {
    hide Inv, Lists, Linked;
    InvPhase(k);
    ReadyLists(k);
    ReadyProper(k, p);
    var t, k' := TopReady(k, k.top), Pick(k);
    if k.lists[Ready(t)].ids != [] {
      LinkedAt(k.crs, k.lists, Ready(t), k'.current);
      InvAt(k, k'.current);
    }
    c := if k'.phase == Running && t == p then Picked(k'.current) else Same;
  }

  lemma WakeChange(k: Kernel, e: nat, p: nat)
    requires Inv(k) && Event(e) in k.lists && k.lists[Event(e)].ids != [] && p < k.levels
    ensures Does(k, Wakes(e), p, Same) && Wake(k, e).phase == k.phase
  {
    hide Inv, Lists, Linked, TakenOut, PutIn;
    InvPhase(k);
    ReadyProper(k, p);
    WakeInv(k, e);
    LinkedAt(k.crs, k.lists, Event(e), k.lists[Event(e)].ids[0]);
  }

  lemma DelayChange(k: Kernel, ticks: Tick, event: Option<nat>, p: nat) returns (c: Change)
    requires Inv(k) && Enabled(k, Delays(ticks, event)) && OnTurn(k) && p < k.levels
    ensures Does(k, Delays(ticks, event), p, c) && Delay(k, ticks, event).phase == Idle
  {
    hide Inv, Lists, Linked, PutIn, Place, WakeTimes, EventValues, EventValue;
    InvPhase(k);
    var x := k.current;
    InvAt(k, x);
    ReadyProper(k, p);
    ReadyProper(k, k.crs[x].priority);
    TakeLists(k, x, true);
    var q := k.crs[x].priority;
    IndexIs(k.lists[Ready(q)].ids, k.lists[Ready(q)].at - 1);
    ToDelayListLists(k, ticks);
    c := if k.crs[x].priority == p then Left(x) else Same;
  }

  lemma ListChange(k: Kernel, s: Step, p: nat) returns (c: Change)
    requires Inv(k) && Enabled(k, s) && OnTurn(k) && p < k.levels
    ensures Does(k, s, p, c) && OnTurn(Apply(k, s)) && Inv(Apply(k, s)) && Apply(k, s).levels == k.levels
  {
    hide Inv, Lists, Linked, Changes, AddReady, ToDelayList, ToEventList;
    StepInv(k, s);
    LevelsKept(k, s);
    InvPhase(k);
    ReadyProper(k, p);
    c := Same;
    match s
    case PendingTakes =>
      LinkedAt(k.crs, k.lists, Pending, k.lists[Pending].ids[0]);
      SameChange(k.lists[Ready(p)]);
    case PendingMoves => c := PendingMoveChange(k, p);
    case Ticks => SameChange(k.lists[Ready(p)]);
    case ExpireTakes => ExpireTakeChange(k, p);
    case ExpireMoves => c := ExpireMoveChange(k, p);
    case TickEnds => SameChange(k.lists[Ready(p)]);
    case Picks => c := PickChange(k, p);
    case Returns => SameChange(k.lists[Ready(p)]);
    case Delays(ticks, event) => c := DelayChange(k, ticks, event, p);
    case Creates(priority) =>
      c := CreateChange(k, priority, p);
      CreateOnTurn(k, priority);
    case Wakes(e) =>
      WakeChange(k, e, p);
      WakeOnTurn(k, e);
  }

  lemma SameChange(l: Items)
    requires Proper(l)
    ensures Changes(l, l, Same)
  {
  }

  /** A newcomer goes in front of the one that runs. */
  lemma StillOnTurn(k: Kernel, k': Kernel, c: Change)
    requires OnTurn(k) && k.phase == k'.phase == Running && k'.current == k.current && k.current < |k'.crs|
    requires k'.crs[k.current].priority == k.crs[k.current].priority
    requires var w := Ready(k.crs[k.current].priority);
             && w in k'.lists && Proper(k.lists[w]) && Changes(k.lists[w], k'.lists[w], c)
             && (c.Same? || c.Joined?)
    ensures OnTurn(k')
  {
    var l := k.lists[Ready(k.crs[k.current].priority)];
    InsertedAt(l.ids, l.at - 1, if c.Joined? then c.id else 0);
  }

  lemma CreateOnTurn(k: Kernel, priority: nat)
    requires Inv(k) && OnTurn(k)
    ensures OnTurn(Create(k, priority))
  {
    hide Inv, Lists, Linked, AddReady, Changes;
    InvPhase(k);
    if k.phase == Running {
      InvAt(k, k.current);
      CreateKeeps(k, priority, k.current);
      CreateCurrent(k, priority);
      var c := CreateChange(k, priority, k.crs[k.current].priority);
      StillOnTurn(k, Create(k, priority), c);
    } else {
      var c := CreateChange(k, priority, 0);
    }
  }

  lemma CreateCurrent(k: Kernel, priority: nat)
    requires Inv(k)
    ensures Create(k, priority).current == k.current && Create(k, priority).levels == k.levels
  {
    hide Inv, Lists;
    InvPhase(k);
    var q := if priority >= k.levels then k.levels - 1 else priority;
    NewLists(k, Crcb(q, 0, Nowhere, Nowhere, 0));
  }

  lemma WakeOnTurn(k: Kernel, e: nat)
    requires Inv(k) && Event(e) in k.lists && k.lists[Event(e)].ids != [] && OnTurn(k)
    ensures OnTurn(Wake(k, e))
  {
    hide Inv, Lists, Linked, Changes, Wake;
    InvPhase(k);
    WakeInv(k, e);
    if k.phase == Running {
      InvAt(k, k.current);
      WakeChange(k, e, k.crs[k.current].priority);
      StillOnTurn(k, Wake(k, e), Same);
    }
  }

  lemma LevelsKept(k: Kernel, s: Step)
    requires Inv(k) && Enabled(k, s)
    ensures Apply(k, s).levels == k.levels
  {
    hide Inv, Lists, Linked, ToDelayList, TakenOut, PutIn;
    InvPhase(k);
    match s
    case PendingMoves => InvAt(k, k.phase.id);
    case ExpireMoves => InvAt(k, k.phase.id);
    case Delays(ticks, event) => ToDelayListLists(k, ticks);
    case Creates(priority) => CreateCurrent(k, priority);
    case _ =>
  }

  // ---------- over whole runs ----------

  /** The co-routines of priority p that the scheduler runs, in order. */
  ghost function Chosen(k: Kernel, run: seq<Step>, p: nat): seq<Id>
    decreases |run|
  {
    if run == [] || !Inv(k) || !Enabled(k, run[0]) then []
    else
      var k' := Apply(k, run[0]);
      (if run[0].Picks? && k'.phase == Running && k'.current < |k'.crs| && k'.crs[k'.current].priority == p
       then [k'.current] else []) + Chosen(k', run[1..], p)
  }

  ghost predicate ReadyAt(k: Kernel, x: Id, p: nat) { x < |k.crs| && k.crs[x].generic == Ready(p) }

  /** x is ready at priority p in every state of the run. */
  ghost predicate StaysReady(k: Kernel, run: seq<Step>, x: Id, p: nat)
    decreases |run|
  {
    && ReadyAt(k, x, p)
    && (run != [] && Inv(k) && Enabled(k, run[0]) ==> StaysReady(Apply(k, run[0]), run[1..], x, p))
  }

  /** The turn of y is before that of x. */
  ghost predicate Earlier(k: Kernel, y: Id, x: Id, p: nat) {
    && Ready(p) in k.lists && Proper(k.lists[Ready(p)])
    && x in k.lists[Ready(p)].ids && y in k.lists[Ready(p)].ids
    && Turn(k.lists[Ready(p)], y) < Turn(k.lists[Ready(p)], x)
  }

  lemma ReadyLevel(k: Kernel, x: Id, p: nat)
    requires Inv(k) && ReadyAt(k, x, p)
    ensures p == k.crs[x].priority < k.levels && Ready(p) in k.lists && Proper(k.lists[Ready(p)])
    ensures x in k.lists[Ready(p)].ids
  {
    hide Lists;
    InvAt(k, x);
    ReadyProper(k, k.crs[x].priority);
  }

  lemma EarlierStep(k: Kernel, s: Step, p: nat, x: Id, y: Id)
    requires Inv(k) && Enabled(k, s) && OnTurn(k) && Earlier(k, y, x, p)
    requires ReadyAt(k, x, p) && ReadyAt(Apply(k, s), x, p) && ReadyAt(k, y, p) && ReadyAt(Apply(k, s), y, p)
    requires PicksFrom(k, s, p) ==> Apply(k, s).current != y
    ensures PicksFrom(k, s, p) ==> Apply(k, s).current != x
    ensures Earlier(Apply(k, s), y, x, p)
  {
    hide Inv, Apply, Enabled, Changes, Turn, Proper, PicksFrom;
    ReadyLevel(k, x, p);
    var c := ListChange(k, s, p);
    var k' := Apply(k, s);
    ReadyLevel(k', x, p);
    ReadyLevel(k', y, p);
    var l, l' := k.lists[Ready(p)], k'.lists[Ready(p)];
    ChangeKeepsProper(l, l', c);
    LeftIsGone(l, l', c, x);
    LeftIsGone(l, l', c, y);
    TurnsKept(l, l', c, x, y);
  }

  lemma LeftIsGone(l: Items, l': Items, c: Change, x: Id)
    requires Proper(l) && Changes(l, l', c) && x in l'.ids
    ensures c != Left(x)
  {
    ChangeKeepsProper(l, l', c);
  }

  lemma {:induction false} FirstTurn(k: Kernel, run: seq<Step>, k': Kernel, p: nat, x: Id, y: Id)
    requires Inv(k) && OnTurn(k) && Reaches(k, run, k')
    requires StaysReady(k, run, x, p) && StaysReady(k, run, y, p) && Earlier(k, y, x, p)
    ensures x in Chosen(k, run, p) ==> y in Chosen(k, run, p)
    decreases |run|
  {
    hide Inv, Apply, Enabled, OnTurn, Earlier;
    if run != [] && y !in Chosen(k, run, p) {
      var k1 := Apply(k, run[0]);
      ReadyLevel(k, x, p);
      var c := ListChange(k, run[0], p);
      assert StaysReady(k1, run[1..], x, p) && StaysReady(k1, run[1..], y, p);
      EarlierStep(k, run[0], p, x, y);
      FirstTurn(k1, run[1..], k', p, x, y);
    }
  }

  /** Once x has been picked, every other one of its priority comes before it is picked again, in any run in
      which both stay ready: they have equal shares. */
  lemma EqualShare(k0: Kernel, k: Kernel, run: seq<Step>, k': Kernel, p: nat, x: Id, y: Id)
    requires Inv(k0) && k0.phase == Idle && k == Apply(k0, Picks) && k.phase == Running && k.current == x != y
    requires Reaches(k, run, k') && StaysReady(k, run, x, p) && StaysReady(k, run, y, p)
    ensures x in Chosen(k, run, p) ==> y in Chosen(k, run, p)
  {
    hide Inv, Reaches, Changes, Turn;
    ReadyAtFirst(k, run, x, p);
    ReadyAtFirst(k, run, y, p);
    PickInv(k0);
    ReadyLevel(k, x, p);
    ReadyLevel(k, y, p);
    LevelsKept(k0, Picks);
    var c := PickChange(k0, p);
    var l, l' := k0.lists[Ready(p)], k.lists[Ready(p)];
    PickedTurn(l, l', x);
    ChangeKeepsProper(l, l', c);
    TurnRange(l', y, x);
    FirstTurn(k, run, k', p, x, y);
  }

  lemma ReadyAtFirst(k: Kernel, run: seq<Step>, x: Id, p: nat)
    requires StaysReady(k, run, x, p)
    ensures ReadyAt(k, x, p)
  {
  }

  /** A co-routine that becomes ready comes after all those of its priority, except the one pxIndex stands on:
      that one comes after it. */
  lemma NewcomerWaits(k0: Kernel, s: Step, k: Kernel, run: seq<Step>, k': Kernel, p: nat, x: Id, y: Id)
    requires Inv(k0) && OnTurn(k0) && Enabled(k0, s) && k == Apply(k0, s)
    requires !ReadyAt(k0, x, p) && ReadyAt(k0, y, p)
    requires Reaches(k, run, k') && StaysReady(k, run, x, p) && StaysReady(k, run, y, p)
    ensures Ready(p) in k0.lists
    ensures var l := k0.lists[Ready(p)];
            if 0 < l.at <= |l.ids| && l.ids[l.at - 1] == y
            then y in Chosen(k, run, p) ==> x in Chosen(k, run, p)
            else x in Chosen(k, run, p) ==> y in Chosen(k, run, p)
  {
    hide Inv, Reaches, Apply, Enabled, Changes, Turn, OnTurn;
    ReadyAtFirst(k, run, x, p);
    ReadyAtFirst(k, run, y, p);
    ReadyLevel(k0, y, p);
    var c := ListChange(k0, s, p);
    ReadyLevel(k, x, p);
    ReadyLevel(k, y, p);
    var l, l' := k0.lists[Ready(p)], k.lists[Ready(p)];
    InvPhase(k0);
    ReadyProper(k0, p);
    ChangeKeepsProper(l, l', c);
    NewcomerTurn(l, l', x, y);
    TurnRange(l', x, y);
    if l.at > 0 && l.ids[l.at - 1] == y {
      FirstTurn(k, run, k', p, y, x);
    } else {
      FirstTurn(k, run, k', p, x, y);
    }
  }

  lemma CreditStep(k: Kernel, s: Step, p: nat, x: Id, y: Id)
    requires Inv(k) && Enabled(k, s) && OnTurn(k) && x != y
    requires ReadyAt(k, y, p) && ReadyAt(Apply(k, s), y, p)
    requires PicksFrom(k, s, p) ==> Apply(k, s).current != y
    ensures Ready(p) in k.lists && y in k.lists[Ready(p)].ids
    ensures Ready(p) in Apply(k, s).lists && y in Apply(k, s).lists[Ready(p)].ids
    ensures var k' := Apply(k, s);
            Credit(k'.lists[Ready(p)], x, y) + (if PicksFrom(k, s, p) && k'.current == x then 1 else 0)
            <= Credit(k.lists[Ready(p)], x, y)
  {
    hide Inv, Apply, Enabled, Changes, Credit, Proper, PicksFrom;
    ReadyLevel(k, y, p);
    var c := ListChange(k, s, p);
    var k' := Apply(k, s);
    ReadyLevel(k', y, p);
    var l, l' := k.lists[Ready(p)], k'.lists[Ready(p)];
    LeftIsGone(l, l', c, y);
    CreditKept(l, l', c, x, y);
  }

  lemma {:induction false} CreditRun(k: Kernel, run: seq<Step>, k': Kernel, p: nat, x: Id, y: Id)
    requires Inv(k) && OnTurn(k) && Reaches(k, run, k') && x != y
    requires StaysReady(k, run, y, p) && y !in Chosen(k, run, p)
    ensures Ready(p) in k.lists && y in k.lists[Ready(p)].ids
    ensures multiset(Chosen(k, run, p))[x] <= Credit(k.lists[Ready(p)], x, y)
    decreases |run|
  {
    hide Inv, Apply, Enabled, OnTurn, Credit;
    ReadyLevel(k, y, p);
    if run != [] {
      var k1 := Apply(k, run[0]);
      var c := ListChange(k, run[0], p);
      assert StaysReady(k1, run[1..], y, p);
      CreditStep(k, run[0], p, x, y);
      CreditRun(k1, run[1..], k', p, x, y);
    }
  }

  /** Whatever co-routines block and become ready again meanwhile: none is picked more than twice while another
      one of its priority stays ready and is not picked. */
  lemma AtMostTwice(k: Kernel, run: seq<Step>, k': Kernel, p: nat, x: Id, y: Id)
    requires Inv(k) && OnTurn(k) && Reaches(k, run, k') && x != y
    requires StaysReady(k, run, y, p) && y !in Chosen(k, run, p)
    ensures multiset(Chosen(k, run, p))[x] <= 2
  {
    hide Inv, OnTurn, Reaches, StaysReady, Chosen;
    CreditRun(k, run, k', p, x, y);
  }

  lemma {:induction false} RunOnTurn(k: Kernel, run: seq<Step>, k': Kernel)
    requires Inv(k) && OnTurn(k) && Reaches(k, run, k')
    ensures Inv(k') && OnTurn(k')
    decreases |run|
  {
    hide Inv, Apply, Enabled, OnTurn;
    if run != [] {
      LevelsPositive(k);
      var c := ListChange(k, run[0], 0);
      RunOnTurn(Apply(k, run[0]), run[1..], k');
    }
  }

  lemma LevelsPositive(k: Kernel)
    requires Inv(k)
    ensures 0 < k.levels
  {
  }

  // ---------- a round ----------

  /** None becomes ready at priority p in the run, and none blocks. */
  ghost predicate SameMembers(k: Kernel, run: seq<Step>, p: nat)
    decreases |run|
  {
    run != [] && Inv(k) && Enabled(k, run[0]) ==>
      var k' := Apply(k, run[0]);
      (forall x: Id :: ReadyAt(k, x, p) <==> ReadyAt(k', x, p)) && SameMembers(k', run[1..], p)
  }

  lemma {:induction false} PlaceAfterNext(n: nat, at: nat, steps: nat)
    requires 0 < n && at <= n
    ensures PlaceAfter(n, NextPlace(n, at), steps) == PlaceAfter(n, at, steps + 1)
  {
    if steps > 0 {
      PlaceAfterNext(n, at, steps - 1);
    }
  }

  /** The places pxIndex takes on the ready list one after the other. */
  ghost predicate Follows(l: Items, ids: seq<Id>) {
    l.at <= |l.ids| && (ids == [] || l.ids != [])
    && forall i | 0 <= i < |ids| ::
         PlaceAfter(|l.ids|, l.at, i + 1) > 0 && ids[i] == l.ids[PlaceAfter(|l.ids|, l.at, i + 1) - 1]
  }

  lemma FollowsMore(l: Items, l': Items, x: Id, ids: seq<Id>)
    requires Proper(l) && Changes(l, l', Picked(x)) && Follows(l', ids)
    ensures Follows(l, [x] + ids)
  {
    var all, n := [x] + ids, |l.ids|;
    assert PlaceAfter(n, l.at, 1) == NextPlace(n, PlaceAfter(n, l.at, 0)) == l'.at;
    hide PlaceAfter;
    forall i | 0 <= i < |all|
      ensures PlaceAfter(n, l.at, i + 1) > 0 && all[i] == l.ids[PlaceAfter(n, l.at, i + 1) - 1]
    {
      if i > 0 {
        PlaceAfterNext(n, l.at, i);
        assert PlaceAfter(n, l'.at, i - 1 + 1) > 0 && ids[i - 1] == l'.ids[PlaceAfter(n, l'.at, i - 1 + 1) - 1];
        assert all[i] == ids[i - 1];
      }
    }
  }

  lemma MembersStep(k: Kernel, s: Step, p: nat) returns (c: Change)
    requires Inv(k) && Enabled(k, s) && OnTurn(k) && p < k.levels
    requires forall x: Id :: ReadyAt(k, x, p) <==> ReadyAt(Apply(k, s), x, p)
    ensures Does(k, s, p, c) && (c.Same? || c.Picked?) && OnTurn(Apply(k, s)) && Apply(k, s).levels == k.levels
    ensures Inv(Apply(k, s))
  {
    hide Inv, Apply, Enabled, Changes, OnTurn;
    c := ListChange(k, s, p);
    var k' := Apply(k, s);
    InvPhase(k);
    InvPhase(k');
    ReadyProper(k, p);
    ReadyProper(k', p);
    var l, l' := k.lists[Ready(p)], k'.lists[Ready(p)];
    ChangeKeepsProper(l, l', c);
    if c.Left? || c.Joined? {
      assert ReadyAt(k, c.id, p) <==> ReadyAt(k', c.id, p);
      ChangedMember(l, l', c);
    }
  }

  lemma ChangedMember(l: Items, l': Items, c: Change)
    requires Proper(l) && Changes(l, l', c)
    ensures c.Left? ==> c.id in l.ids
    ensures c.Joined? ==> c.id !in l.ids
  {
  }

  lemma {:induction false} RoundFollows(k: Kernel, run: seq<Step>, k': Kernel, p: nat)
    requires Inv(k) && OnTurn(k) && Reaches(k, run, k') && p < k.levels && SameMembers(k, run, p)
    ensures Ready(p) in k.lists && Follows(k.lists[Ready(p)], Chosen(k, run, p))
    decreases |run|
  {
    hide Inv, Apply, Enabled, OnTurn, Changes, Follows;
    InvPhase(k);
    ReadyProper(k, p);
    if run == [] {
      FollowsNothing(k.lists[Ready(p)]);
    } else {
      var k1 := Apply(k, run[0]);
      var c := MembersStep(k, run[0], p);
      RoundFollows(k1, run[1..], k', p);
      var l, l' := k.lists[Ready(p)], k1.lists[Ready(p)];
      if c.Picked? {
        FollowsMore(l, l', c.id, Chosen(k1, run[1..], p));
      } else {
        SameIsSame(l, l');
        assert Chosen(k, run, p) == Chosen(k1, run[1..], p);
      }
    }
  }

  lemma FollowsNothing(l: Items)
    requires Proper(l)
    ensures Follows(l, [])
  {
  }

  lemma SameIsSame(l: Items, l': Items)
    requires Proper(l) && Changes(l, l', Same)
    ensures l' == l
  {
  }

  /** As long as none of a priority blocks or becomes ready, as many picks at that priority as it has ready
      co-routines run each of them exactly once. */
  lemma EachOnceARound(k: Kernel, run: seq<Step>, k': Kernel, p: nat)
    requires Inv(k) && OnTurn(k) && Reaches(k, run, k') && p < k.levels && SameMembers(k, run, p)
    requires Ready(p) in k.lists && |Chosen(k, run, p)| == |k.lists[Ready(p)].ids|
    ensures Distinct(Chosen(k, run, p))
    ensures forall x: Id :: x in Chosen(k, run, p) <==> ReadyAt(k, x, p)
  {
    RoundFollows(k, run, k', p);
    InvPhase(k);
    ReadyProper(k, p);
    hide Inv, Reaches, SameMembers, Chosen, OnTurn;
    var l := k.lists[Ready(p)];
    if l.ids != [] {
      EachOnce(l.ids, l.at, Chosen(k, run, p));
    }
  }

  // ---------- a co-routine that is picked twice in the turn of another ----------

  /** Two co-routines of priority 0: number 0 is ready, number 1 is on list g and wakes at tick wake. */
  function Two(l: Items, delayed: seq<Id>, g: Where, wake: Tick, tick: Tick, current: Id, phase: Phase): Kernel {
    Kernel(1, [Crcb(0, 0, Ready(0), Nowhere, 0), Crcb(0, wake, g, Nowhere, 0)],
           map[Ready(0) := l, Delay1 := Items(delayed, 0), Delay2 := Items([], 0), Pending := Items([], 0)],
           false, 0, tick, current, phase, 0)
  }

  function One(l: Items, g: Where): Kernel {
    Kernel(1, if g == Nowhere then [] else [Crcb(0, 0, g, Nowhere, 0)],
           map[Ready(0) := l, Delay1 := Items([], 0), Delay2 := Items([], 0), Pending := Items([], 0)],
           false, 0, 0, 0, Idle, 0)
  }

  lemma NoneCreated()
    ensures Initial(1, 0) == One(Items([], 0), Nowhere) && Inv(Initial(1, 0))
  {
    hide Inv;
    InitialInv(1, 0);
    NoLists();
  }

  lemma NoLists()
    ensures StartLists(1, 0) == One(Items([], 0), Nowhere).lists
  {
    var a, b := StartLists(1, 0), One(Items([], 0), Nowhere).lists;
    forall w
      ensures w in a <==> w in b
      ensures w in a ==> a[w] == b[w]
    {
    }
  }

  lemma OneCreated()
    requires Inv(One(Items([], 0), Nowhere))
    ensures Create(One(Items([], 0), Nowhere), 0) == One(Items([0], 0), Ready(0))
  {
    hide Inv;
    assert Inserted<Id>([], 0, 0) == [0];
    assert One(Items([], 0), Nowhere).lists[Ready(0) := Items([0], 0)] == One(Items([0], 0), Ready(0)).lists;
  }

  lemma TwoCreated()
    requires Inv(One(Items([0], 0), Ready(0)))
    ensures Create(One(Items([0], 0), Ready(0)), 0) == Two(Items([0, 1], 0), [], Ready(0), 0, 0, 0, Idle)
  {
    hide Inv;
    assert Inserted<Id>([0], 1, 1) == [0, 1];
    assert One(Items([0], 0), Ready(0)).lists[Ready(0) := Items([0, 1], 0)]
        == Two(Items([0, 1], 0), [], Ready(0), 0, 0, 0, Idle).lists;
  }

  /** Co-routine 1 runs after co-routine 0, which pxIndex stands in front of no more. */
  lemma OneRuns()
    requires Inv(Two(Items([0, 1], 1), [], Ready(0), 0, 0, 0, Idle))
    ensures Pick(Two(Items([0, 1], 1), [], Ready(0), 0, 0, 0, Idle))
            == Two(Items([0, 1], 2), [], Ready(0), 0, 0, 1, Running)
  {
    hide Inv;
    TwoLists(Items([0, 1], 1), Items([0, 1], 2));
  }

  lemma ZeroRuns()
    requires Inv(Two(Items([0, 1], 0), [], Ready(0), 0, 0, 0, Idle))
    ensures Pick(Two(Items([0, 1], 0), [], Ready(0), 0, 0, 0, Idle))
            == Two(Items([0, 1], 1), [], Ready(0), 0, 0, 0, Running)
  {
    hide Inv;
    TwoLists(Items([0, 1], 0), Items([0, 1], 1));
  }

  lemma TwoLists(l: Items, l': Items)
    ensures Two(l, [], Ready(0), 0, 0, 0, Idle).lists[Ready(0) := l'] == Two(l', [], Ready(0), 0, 0, 0, Idle).lists
  {
  }

  lemma OneLeaves()
    ensures var k := Two(Items([0, 1], 2), [], Ready(0), 0, 0, 1, Running);
            Take(k, 1, true) == Two(Items([0], 1), [], Nowhere, 0, 0, 1, Running)
  {
    var k := Two(Items([0, 1], 2), [], Ready(0), 0, 0, 1, Running);
    assert IndexOf([0, 1], 1) == 1;
    assert TakenOut(Items([0, 1], 2), 1) == Items([0], 1);
    assert Take(k, 1, true).lists == Two(Items([0], 1), [], Nowhere, 0, 0, 1, Running).lists;
  }

  lemma OneWaits()
    ensures var k := Two(Items([0], 1), [], Nowhere, 0, 0, 1, Running);
            PutByWake(k, 1, Delay1, 1) == Two(Items([0], 1), [1], Delay1, 1, 0, 1, Running)
  {
    assert Inserted<Id>([], 0, 1) == [1];
    var k := Two(Items([0], 1), [], Nowhere, 0, 0, 1, Running);
    assert PutByWake(k, 1, Delay1, 1).lists == Two(Items([0], 1), [1], Delay1, 1, 0, 1, Idle).lists;
  }

  /** It delays itself for a tick, and pxIndex is back on co-routine 0. */
  lemma OneDelays()
    requires Inv(Two(Items([0, 1], 2), [], Ready(0), 0, 0, 1, Running))
    ensures Delay(Two(Items([0, 1], 2), [], Ready(0), 0, 0, 1, Running), 1, None)
            == Two(Items([0], 1), [1], Delay1, 1, 0, 1, Idle)
  {
    hide Inv, Take, PutByWake;
    OneLeaves();
    OneWaits();
  }

  /** The tick is processed, and it comes in front of co-routine 0. */
  lemma OneIsTaken()
    requires Inv(Two(Items([0], 1), [1], Delay1, 1, 1, 1, Ticking))
    ensures var k := Two(Items([0], 1), [1], Delay1, 1, 1, 1, Ticking);
            Due(k) && ExpireTake(k) == Two(Items([0], 1), [], Nowhere, 1, 1, 1, Expired(1))
  {
    hide Inv;
    var k := Two(Items([0], 1), [1], Delay1, 1, 1, 1, Ticking);
    assert TakenOut(Items([1], 0), 1) == Items([], 0);
    assert Take(k, 1, true).lists == Two(Items([0], 1), [], Nowhere, 1, 1, 1, Expired(1)).lists;
  }

  lemma OneIsBack()
    requires Inv(Two(Items([0], 1), [], Nowhere, 1, 1, 1, Expired(1)))
    ensures ExpireMove(Two(Items([0], 1), [], Nowhere, 1, 1, 1, Expired(1)))
            == Two(Items([1, 0], 2), [], Ready(0), 1, 1, 1, Ticking)
  {
    hide Inv;
    assert Inserted<Id>([0], 0, 1) == [1, 0];
  }

  lemma OneRunsAgain()
    requires Inv(Two(Items([1, 0], 2), [], Ready(0), 1, 1, 1, Idle))
    ensures Pick(Two(Items([1, 0], 2), [], Ready(0), 1, 1, 1, Idle))
            == Two(Items([1, 0], 1), [], Ready(0), 1, 1, 1, Running)
  {
    hide Inv;
  }

  /** A run goes on from k1, and 0 stays ready; those of ids are picked. */
  ghost predicate Goes(k: Kernel, run: seq<Step>, k': Kernel, ids: seq<Id>) {
    Reaches(k, run, k') && StaysReady(k, run, 0, 0) && Chosen(k, run, 0) == ids
  }

  lemma StepFirst(k: Kernel, s: Step, k1: Kernel, run: seq<Step>, k': Kernel, ids: seq<Id>)
    requires Inv(k) && Enabled(k, s) && Apply(k, s) == k1 && ReadyAt(k, 0, 0) && Goes(k1, run, k', ids)
    ensures Goes(k, [s] + run, k', (if PicksFrom(k, s, 0) then [k1.current] else []) + ids)
    ensures Inv(k1)
  {
    hide Inv, Apply, Enabled;
    StepInv(k, s);
    assert ([s] + run)[1..] == run;
  }

  const STEPS: seq<Step> := [Picks, Returns, Picks, Delays(1, None), Ticks, ExpireTakes, ExpireMoves, TickEnds, Picks]

  function Stage(i: nat): Kernel
    requires i <= 9
  {
    if i == 0 then Two(Items([0, 1], 0), [], Ready(0), 0, 0, 0, Idle)
    else if i == 1 then Two(Items([0, 1], 1), [], Ready(0), 0, 0, 0, Running)
    else if i == 2 then Two(Items([0, 1], 1), [], Ready(0), 0, 0, 0, Idle)
    else if i == 3 then Two(Items([0, 1], 2), [], Ready(0), 0, 0, 1, Running)
    else if i == 4 then Two(Items([0], 1), [1], Delay1, 1, 0, 1, Idle)
    else if i == 5 then Two(Items([0], 1), [1], Delay1, 1, 1, 1, Ticking)
    else if i == 6 then Two(Items([0], 1), [], Nowhere, 1, 1, 1, Expired(1))
    else if i == 7 then Two(Items([1, 0], 2), [], Ready(0), 1, 1, 1, Ticking)
    else if i == 8 then Two(Items([1, 0], 2), [], Ready(0), 1, 1, 1, Idle)
    else Two(Items([1, 0], 1), [], Ready(0), 1, 1, 1, Running)
  }

  lemma StageStep(i: nat)
    requires i < 9 && Inv(Stage(i))
    ensures Enabled(Stage(i), STEPS[i]) && Apply(Stage(i), STEPS[i]) == Stage(i + 1)
  {
    hide Inv, Pick, Delay, ExpireTake, ExpireMove;
    if i == 0 {
      ZeroRuns();
    } else if i == 2 {
      OneRuns();
    } else if i == 3 {
      OneDelays();
    } else if i == 5 {
      OneIsTaken();
    } else if i == 6 {
      OneIsBack();
    } else if i == 8 {
      OneRunsAgain();
    }
  }

  lemma {:induction false} StagesGo(i: nat)
    requires 1 <= i <= 9 && Inv(Stage(i))
    ensures Goes(Stage(i), STEPS[i..], Stage(9), if i < 3 then [1, 1] else if i < 9 then [1] else [])
    decreases 9 - i
  {
    hide Inv, Apply, Enabled, Goes;
    if i == 9 {
      assert STEPS[9..] == [];
      NothingGoes();
    } else {
      StageStep(i);
      StepInv(Stage(i), STEPS[i]);
      StagesGo(i + 1);
      var picked := if PicksFrom(Stage(i), STEPS[i], 0) then [Stage(i + 1).current] else [];
      var rest := if i + 1 < 3 then [1, 1] else if i + 1 < 9 then [1] else [];
      StepFirst(Stage(i), STEPS[i], Stage(i + 1), STEPS[i + 1..], Stage(9), rest);
      assert [STEPS[i]] + STEPS[i + 1..] == STEPS[i..];
      assert picked == if i == 2 || i == 8 then [1] else [];
      assert picked + rest == if i < 3 then [1, 1] else if i < 9 then [1] else [];
    }
  }

  lemma NothingGoes()
    ensures Goes(Stage(9), [], Stage(9), [])
  {
  }

  /** A run in which, from the state after co-routine 0 was picked, co-routine 1 is picked twice, while 0 is
      ready all the time: it blocks when its turn has just been, so that pxIndex goes back to 0, and comes back
      in front of it. */
  lemma PickedTwice() returns (k: Kernel, before: seq<Step>, run: seq<Step>, k': Kernel)
    ensures Inv(k) && Reaches(Initial(1, 0), before + [Picks], k) && k.phase == Running && k.current == 0
    ensures Reaches(k, run, k') && StaysReady(k, run, 0, 0) && Chosen(k, run, 0) == [1, 1]
  {
    hide Inv, StartLists, Apply, Enabled, Reaches, Chosen, StaysReady;
    var k0, one := Initial(1, 0), One(Items([0], 0), Ready(0));
    NoneCreated();
    FirstStages();
    StageStep(0);
    StepInv(Stage(0), Picks);
    before := [Creates(0), Creates(0)];
    ReachesFurther(k0, before, Stage(0), Picks);
    StagesGo(1);
    k, run, k' := Stage(1), STEPS[1..], Stage(9);
  }

  lemma FirstStages()
    requires Inv(Initial(1, 0)) && Initial(1, 0) == One(Items([], 0), Nowhere)
    ensures Reaches(Initial(1, 0), [Creates(0), Creates(0)], Stage(0)) && Inv(Stage(0))
  {
    hide Inv, Create, StartLists;
    var one := One(Items([0], 0), Ready(0));
    OneCreated();
    StepInv(Initial(1, 0), Creates(0));
    TwoCreated();
    StepInv(one, Creates(0));
    var run := [Creates(0), Creates(0)];
    assert run[1..] == [Creates(0)] && run[1..][1..] == [];
    assert Reaches(Stage(0), [], Stage(0));
  }
}
