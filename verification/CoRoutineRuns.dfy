/** What the co-routine scheduler guarantees over whole runs: any interleaving of the scheduler's own
    steps with creations, delays and wake-ups from interrupts. */
module CoRoutineRuns {
  import opened KernelList
  import opened Wrappers
  import opened CoRoutineKernel

  datatype Step =
    | PendingTakes
    | PendingMoves
    | Ticks
    | ExpireTakes
    | ExpireMoves
    | TickEnds
    | Picks
    | Returns
    | Delays(ticks: Tick, event: Option<nat>)
    | Creates(priority: nat)
    | Wakes(list: nat)

  /** Each step of the scheduler has its place; interrupts and creations can come between any two. */
  ghost predicate Enabled(k: Kernel, s: Step)
    requires Inv(k)
  {
    match s
    case PendingTakes => k.phase == Idle && k.lists[Pending].ids != []
    case PendingMoves => k.phase.Moving?
    case Ticks => k.phase == Idle
    case ExpireTakes => k.phase == Ticking && Due(k)
    case ExpireMoves => k.phase.Expired?
    case TickEnds => k.phase == Ticking && !Due(k)
    case Picks => k.phase == Idle
    case Returns => k.phase == Running
    case Delays(ticks, event) =>
      k.phase == Running && 0 < ticks && k.levels <= MAX_DELAY && (event.Some? ==> Event(event.value) in k.lists)
    case Creates(_) => true
    case Wakes(e) => Event(e) in k.lists && k.lists[Event(e)].ids != []
  }

  ghost function Apply(k: Kernel, s: Step): Kernel
    requires Inv(k) && Enabled(k, s)
  {
    match s
    case PendingTakes => PendingTake(k)
    case PendingMoves => PendingMove(k)
    case Ticks => Tick1(k)
    case ExpireTakes => ExpireTake(k)
    case ExpireMoves => ExpireMove(k)
    case TickEnds => TickDone(k)
    case Picks => Pick(k)
    case Returns => Return(k)
    case Delays(ticks, event) => Delay(k, ticks, event)
    case Creates(priority) => Create(k, priority)
    case Wakes(e) => Wake(k, e)
  }

  lemma StepInv(k: Kernel, s: Step)
    requires Inv(k) && Enabled(k, s)
    ensures Inv(Apply(k, s))
  {
    hide Inv;
    match s
    case PendingTakes => PendingTakeInv(k);
    case PendingMoves => PendingMoveInv(k);
    case Ticks => Tick1Inv(k);
    case ExpireTakes => ExpireTakeInv(k);
    case ExpireMoves => ExpireMoveInv(k);
    case TickEnds => TickDoneInv(k);
    case Picks => PickInv(k);
    case Returns => ReturnInv(k);
    case Delays(ticks, event) => DelayInv(k, ticks, event);
    case Creates(priority) => CreateInv(k, priority);
    case Wakes(e) => WakeInv(k, e);
  }

  /** The scheduler always has a next step of its own: no interrupt can leave it stuck half-way. */
  lemma NeverStuck(k: Kernel) returns (s: Step)
    requires Inv(k)
    ensures Enabled(k, s) && !s.Wakes? && !s.Creates?
    ensures k.phase.Moving? ==> s == PendingMoves
    ensures k.phase.Expired? ==> s == ExpireMoves
    ensures k.phase == Ticking ==> s == ExpireTakes || s == TickEnds
  {
    DelayedKnown(k);
    hide Lists;
    match k.phase
    case Idle => s := Ticks;
    case Moving(_) => s := PendingMoves;
    case Ticking => s := if Due(k) then ExpireTakes else TickEnds;
    case Expired(_) => s := ExpireMoves;
    case Running => s := Returns;
  }

  lemma DelayedKnown(k: Kernel)
    requires Inv(k)
    ensures k.Delayed() in k.lists
    ensures forall i | 0 <= i < |k.lists[k.Delayed()].ids| :: k.lists[k.Delayed()].ids[i] < |k.crs|
  {
    hide Inv, Lists, Linked;
    InvPhase(k);
    forall i | 0 <= i < |k.lists[k.Delayed()].ids|
      ensures k.lists[k.Delayed()].ids[i] < |k.crs|
    {
      LinkedAt(k.crs, k.lists, k.Delayed(), k.lists[k.Delayed()].ids[i]);
    }
  }

  /** k' is reached from k by the steps run. */
  ghost predicate Reaches(k: Kernel, run: seq<Step>, k': Kernel)
    decreases |run|
  {
    if run == [] then k' == k
    else Inv(k) && Enabled(k, run[0]) && Reaches(Apply(k, run[0]), run[1..], k')
  }

  lemma {:induction false} RunInv(k: Kernel, run: seq<Step>, k': Kernel)
    requires Inv(k) && Reaches(k, run, k')
    ensures Inv(k')
    decreases |run|
  {
    hide Inv, Apply, Enabled;
    if run != [] {
      StepInv(k, run[0]);
      RunInv(Apply(k, run[0]), run[1..], k');
    }
  }

  lemma {:induction false} ReachesFurther(k: Kernel, run: seq<Step>, k1: Kernel, s: Step)
    requires Reaches(k, run, k1) && Inv(k1) && Enabled(k1, s)
    ensures Reaches(k, run + [s], Apply(k1, s))
    decreases |run|
  {
    hide Inv, Apply, Enabled;
    if run == [] {
      assert Reaches(Apply(k, s), [], Apply(k, s));
      assert ([s])[1..] == [];
    } else {
      ReachesFurther(Apply(k, run[0]), run[1..], k1, s);
      assert (run + [s])[1..] == run[1..] + [s];
    }
  }

  /** prvInitialiseCoRoutineLists, with the event lists the application will use. */
  function StartLists(levels: nat, events: nat): map<Where, Items> {
    (map p: nat | p < levels :: Ready(p) := Items([], 0)) + (map e: nat | e < events :: Event(e) := Items([], 0))
    + map[Delay1 := Items([], 0), Delay2 := Items([], 0), Pending := Items([], 0)]
  }

  function Initial(levels: nat, events: nat): Kernel {
    Kernel(levels, [], StartLists(levels, events), false, 0, 0, 0, Idle, 0)
  }

  lemma InitialLists(levels: nat, events: nat)
    ensures var k := Initial(levels, events);
            && (forall w | w in k.lists :: k.lists[w] == Items([], 0) && w != Nowhere)
            && (forall p: nat :: Ready(p) in k.lists <==> p < levels)
            && Delay1 in k.lists && Delay2 in k.lists && Pending in k.lists
  {
  }

  lemma EmptyLists(k: Kernel)
    requires k.crs == [] && k.top == 0 < k.levels
    requires forall w | w in k.lists :: k.lists[w] == Items([], 0) && w != Nowhere
    requires forall p: nat :: Ready(p) in k.lists <==> p < k.levels
    requires Delay1 in k.lists && Delay2 in k.lists && Pending in k.lists
    ensures Lists(k)
  {
    assert HasLists(k) && TopBounds(k);
    hide HasLists, TopBounds;
    assert Linked(k.crs, k.lists);
    hide Linked;
    assert InOrder(k.crs, k.lists);
  }

  lemma InitialInv(levels: nat, events: nat)
    requires 0 < levels
    ensures Inv(Initial(levels, events))
  {
    hide Lists, Settled, Timed;
    InitialLists(levels, events);
    EmptyLists(Initial(levels, events));
  }

  // ---------- no list item is lost or duplicated ----------

  /** How often x is on ready list 0, 1, .. n - 1, together. */
  ghost function OnReady(k: Kernel, x: Id, n: nat): nat
    requires forall p: nat | p < n :: Ready(p) in k.lists
  {
    if n == 0 then 0 else OnReady(k, x, n - 1) + multiset(k.lists[Ready(n - 1)].ids)[x]
  }

  lemma OccursOnce(s: seq<Id>, x: Id)
    requires Distinct(s)
    ensures multiset(s)[x] == if x in s then 1 else 0
  {
    if x in s {
      var i := IndexOf(s, x);
      assert s == s[..i] + [x] + s[i + 1..];
      assert x !in s[..i] && x !in s[i + 1..];
    }
  }

  lemma {:induction false} OnReadyIs(k: Kernel, x: Id, n: nat)
    requires Inv(k) && x < |k.crs| && n <= k.levels
    ensures (forall p: nat | p < n :: Ready(p) in k.lists)
    ensures OnReady(k, x, n) == if k.crs[x].generic.Ready? && k.crs[x].generic.priority < n then 1 else 0
  {
    if n > 0 {
      OnReadyIs(k, x, n - 1);
      OnListIs(k, x, Ready(n - 1));
    }
  }

  lemma OnListIs(k: Kernel, x: Id, w: Where)
    requires Inv(k) && x < |k.crs| && w in k.lists
    ensures multiset(k.lists[w].ids)[x] == if Container(k.crs[x], ForGeneric(w)) == w then 1 else 0
  {
    OccursOnce(k.lists[w].ids, x);
    if x in k.lists[w].ids {
      LinkedAt(k.crs, k.lists, w, x);
    }
  }

  /** Between any two steps of any run the generic item of a co-routine is exactly once on one of: its
      own ready list, the delayed list, the overflow list; the one exception is the co-routine the
      scheduler has just taken off the delayed list to make it ready. Its event item is at most once
      on all the event lists and the pending list. */
  lemma NothingLost(k: Kernel, run: seq<Step>, k': Kernel, x: Id)
    requires Inv(k) && Reaches(k, run, k') && x < |k'.crs|
    ensures (forall p: nat | p < k'.levels :: Ready(p) in k'.lists) && Delay1 in k'.lists && Delay2 in k'.lists
              && Pending in k'.lists
    ensures OnReady(k', x, k'.levels) + multiset(k'.lists[Delay1].ids)[x] + multiset(k'.lists[Delay2].ids)[x]
            == if k'.phase == Expired(x) then 0 else 1
    ensures forall p: nat | p < k'.levels && x in k'.lists[Ready(p)].ids :: p == k'.crs[x].priority
    ensures forall w, v | w in k'.lists && v in k'.lists && !ForGeneric(w) && !ForGeneric(v) && w != v ::
              multiset(k'.lists[w].ids)[x] + multiset(k'.lists[v].ids)[x] <= 1
  {
    hide Inv, Lists, Reaches, Linked;
    RunInv(k, run, k');
    InvPhase(k');
    InvAt(k', x);
    OnReadyIs(k', x, k'.levels);
    OnListIs(k', x, Delay1);
    OnListIs(k', x, Delay2);
    forall w | w in k'.lists
      ensures multiset(k'.lists[w].ids)[x] == if Container(k'.crs[x], ForGeneric(w)) == w then 1 else 0
    {
      OnListIs(k', x, w);
    }
  }

  // ---------- a delay of d ticks ends on the d-th ----------

  ghost predicate Waiting(k: Kernel, x: Id) {
    x < |k.crs| && (k.crs[x].generic == Delay1 || k.crs[x].generic == Delay2)
  }

  /** The ticks still to be processed before x is due. */
  ghost function Remaining(k: Kernel, x: Id): int
    requires Waiting(k, x)
  {
    if k.crs[x].generic == k.Delayed() then k.crs[x].wake - k.tick else TICKS - k.tick + k.crs[x].wake
  }

  /** n of d ticks have been processed. */
  ghost predicate Elapsed(k: Kernel, x: Id, d: int, n: int) {
    && x < |k.crs|
    && (n < d ==> Waiting(k, x) && Remaining(k, x) == d - n && k.phase != Expired(x))
    && (n >= d ==>
          || (Waiting(k, x) && Remaining(k, x) == 0 && n == d)
          || k.phase == Expired(x)
          || k.crs[x].generic == Ready(k.crs[x].priority))
  }

  /** A delay sets the distance, wherever the tick counter stands. */
  lemma DelayStarts(k: Kernel, ticks: Tick, event: Option<nat>)
    requires Inv(k) && Enabled(k, Delays(ticks, event))
    ensures Waiting(Delay(k, ticks, event), k.current) && Remaining(Delay(k, ticks, event), k.current) == ticks
    ensures Elapsed(Delay(k, ticks, event), k.current, ticks, 0)
  {
    hide Inv, Lists, ToDelayList;
    ToDelayListLists(k, ticks);
    InvPhase(k);
    InvAt(k, k.current);
    WrapOnce(k.tick + ticks);
  }

  lemma WrapOnce(t: int)
    requires 0 <= t < 2 * TICKS
    ensures t % TICKS == if t < TICKS then t else t - TICKS
  {
  }

  /** x is not woken by an event and does not block again. */
  ghost predicate LeavesAlone(k: Kernel, s: Step, x: Id)
    requires Inv(k) && Enabled(k, s)
  {
    && (s.PendingTakes? ==> k.lists[Pending].ids[0] != x)
    && (s.Delays? ==> k.current != x)
  }

  lemma TickElapses(k: Kernel, x: Id, d: int, n: int)
    requires Inv(k) && k.phase == Idle && Elapsed(k, x, d, n)
    ensures Elapsed(Tick1(k), x, d, n + 1)
  {
    InvAt(k, x);
    Tick1Is(k);
    hide Inv, Lists, Tick1;
  }

  lemma ExpireElapses(k: Kernel, x: Id, d: int, n: int)
    requires Inv(k) && k.phase == Ticking && Due(k) && Elapsed(k, x, d, n)
    ensures Elapsed(ExpireTake(k), x, d, n)
  {
    hide Inv, Lists, Linked, TakenOut;
    InvPhase(k);
    var y := k.lists[k.Delayed()].ids[0];
    LinkedAt(k.crs, k.lists, k.Delayed(), y);
    InvAt(k, y);
    InvAt(k, x);
    TakeLists(k, y, true);
  }

  /** A step that leaves the generic item of x and the tick counter alone. */
  lemma QuietElapses(k: Kernel, k': Kernel, x: Id, d: int, n: int)
    requires Elapsed(k, x, d, n) && x < |k'.crs|
    requires k'.tick == k.tick && k'.flipped == k.flipped
    requires k'.crs[x].generic == k.crs[x].generic && k'.crs[x].wake == k.crs[x].wake
               && k'.crs[x].priority == k.crs[x].priority
    requires k'.phase == Expired(x) <==> k.phase == Expired(x)
    ensures Elapsed(k', x, d, n)
  {
  }

  lemma ExpireMoveElapses(k: Kernel, x: Id, d: int, n: int)
    requires Inv(k) && k.phase.Expired? && Elapsed(k, x, d, n)
    ensures Elapsed(ExpireMove(k), x, d, n)
  {
    hide Inv, Lists, AddReady, Linked;
    InvPhase(k);
    InvAt(k, k.phase.id);
    InvAt(k, x);
    AddReadyLists(k, k.phase.id);
  }

  lemma TickDoneElapses(k: Kernel, x: Id, d: int, n: int)
    requires Inv(k) && k.phase == Ticking && !Due(k) && Elapsed(k, x, d, n)
    ensures Elapsed(TickDone(k), x, d, n) && (n >= d ==> k.crs[x].generic == Ready(k.crs[x].priority))
  {
    InvAt(k, x);
    hide Inv, Lists;
    if k.crs[x].generic == k.Delayed() {
      NotDue(k, x);
    }
  }

  lemma PendingMoveElapses(k: Kernel, x: Id, d: int, n: int)
    requires Inv(k) && k.phase.Moving? && k.phase.id != x && Elapsed(k, x, d, n)
    ensures Elapsed(PendingMove(k), x, d, n)
  {
    hide Inv, Lists, AddReady, Linked, TakenOut;
    InvPhase(k);
    var y := k.phase.id;
    InvAt(k, y);
    TakeLists(k, y, true);
    AddReadyLists(Take(k, y, true), y);
    QuietElapses(k, PendingMove(k), x, d, n);
  }

  /** A delay of d ticks counts down with the ticks processed and nothing else. */
  lemma StepElapses(k: Kernel, s: Step, x: Id, d: int, n: int)
    requires Inv(k) && Enabled(k, s) && LeavesAlone(k, s, x)
    requires Elapsed(k, x, d, n) && k.phase != Moving(x)
    ensures var k' := Apply(k, s); Elapsed(k', x, d, if s.Ticks? then n + 1 else n) && k'.phase != Moving(x)
  {
    hide Inv, Lists, Elapsed, Linked, TakenOut, AddReady, PutIn, ToDelayList, ToEventList;
    InvPhase(k);
    ElapsedBound(k, x, d, n);
    match s
    case PendingTakes =>
      LinkedAt(k.crs, k.lists, Pending, k.lists[Pending].ids[0]);
      QuietElapses(k, Apply(k, s), x, d, n);
    case PendingMoves => PendingMoveElapses(k, x, d, n);
    case Ticks => TickElapses(k, x, d, n);
    case ExpireTakes => ExpireElapses(k, x, d, n);
    case ExpireMoves => ExpireMoveElapses(k, x, d, n);
    case TickEnds => TickDoneElapses(k, x, d, n);
    case Picks => QuietElapses(k, Apply(k, s), x, d, n);
    case Returns => QuietElapses(k, Apply(k, s), x, d, n);
    case Delays(ticks, event) =>
      DelayKeeps(k, ticks, event, x);
      QuietElapses(k, Apply(k, s), x, d, n);
    case Creates(priority) =>
      CreateKeeps(k, priority, x);
      QuietElapses(k, Apply(k, s), x, d, n);
    case Wakes(e) =>
      WakeInv(k, e);
      QuietElapses(k, Apply(k, s), x, d, n);
  }

  lemma ElapsedBound(k: Kernel, x: Id, d: int, n: int)
    requires Elapsed(k, x, d, n)
    ensures x < |k.crs|
  {
  }

  lemma CreateKeeps(k: Kernel, priority: nat, x: Id)
    requires Inv(k) && x < |k.crs|
    ensures Create(k, priority).crs[..|k.crs|] == k.crs && |Create(k, priority).crs| == |k.crs| + 1
    ensures Create(k, priority).crs[x] == k.crs[x]
    ensures Create(k, priority).phase == k.phase && Create(k, priority).tick == k.tick
              && Create(k, priority).flipped == k.flipped
  {
    hide Inv, Lists, AddReady;
    InvPhase(k);
    var p := if priority >= k.levels then k.levels - 1 else priority;
    NewLists(k, Crcb(p, 0, Nowhere, Nowhere, 0));
    AddReadyLists(k.(crs := k.crs + [Crcb(p, 0, Nowhere, Nowhere, 0)]), |k.crs|);
  }

  /** A new co-routine has the priority asked for, but none beyond the levels there are, and is ready at it. */
  lemma CreatedAs(k: Kernel, priority: nat)
    requires Inv(k)
    ensures var k', x := Apply(k, Creates(priority)), |k.crs|;
            && |k'.crs| == x + 1 && k'.crs[..x] == k.crs
            && k'.crs[x].priority == (if priority < k.levels then priority else k.levels - 1)
            && k'.crs[x].generic == Ready(k'.crs[x].priority) && k'.crs[x].event == Nowhere
            && k'.crs[x].generic in k'.lists && x in k'.lists[k'.crs[x].generic].ids && k'.crs[x].priority <= k'.top
  {
    hide Inv, Lists, Linked, AddReady;
    InvPhase(k);
    var p := if priority >= k.levels then k.levels - 1 else priority;
    NewLists(k, Crcb(p, 0, Nowhere, Nowhere, 0));
    AddReadyLists(k.(crs := k.crs + [Crcb(p, 0, Nowhere, Nowhere, 0)]), |k.crs|);
    StepInv(k, Creates(priority));
    ReadyBelowTop(Apply(k, Creates(priority)), |k.crs|);
  }

  lemma DelayKeeps(k: Kernel, ticks: Tick, event: Option<nat>, x: Id)
    requires Inv(k) && Enabled(k, Delays(ticks, event)) && x < |k.crs| && x != k.current
    ensures var k' := Delay(k, ticks, event);
            |k'.crs| == |k.crs| && k'.crs[x] == k.crs[x] && k'.tick == k.tick && k'.flipped == k.flipped
                && k'.phase == Idle
  {
    hide Inv, Lists, ToDelayList;
    InvPhase(k);
    ToDelayListLists(k, ticks);
  }

  /** Along run, x is not woken by an event and does not block again. */
  ghost predicate Undisturbed(k: Kernel, run: seq<Step>, x: Id, k': Kernel)
    decreases |run|
  {
    if run == [] then k' == k
    else Inv(k) && Enabled(k, run[0]) && LeavesAlone(k, run[0], x) && Undisturbed(Apply(k, run[0]), run[1..], x, k')
  }

  /** How many ticks are processed along run. */
  function TicksIn(run: seq<Step>): (n: nat) {
    if run == [] then 0 else (if run[0].Ticks? then 1 else 0) + TicksIn(run[1..])
  }

  lemma {:induction false} RunElapses(k: Kernel, run: seq<Step>, k': Kernel, x: Id, d: int, n: int)
    requires Inv(k) && Undisturbed(k, run, x, k') && Elapsed(k, x, d, n) && k.phase != Moving(x)
    ensures Inv(k') && Elapsed(k', x, d, n + TicksIn(run)) && k'.phase != Moving(x)
    decreases |run|
  {
    hide Inv, Apply, Enabled, LeavesAlone, Elapsed;
    if run != [] {
      StepInv(k, run[0]);
      StepElapses(k, run[0], x, d, n);
      RunElapses(Apply(k, run[0]), run[1..], k', x, d, if run[0].Ticks? then n + 1 else n);
    }
  }

  /** A co-routine that delays itself for d ticks, and is not woken by an event, is on a delay list
      until d ticks have been processed, and ready once the d-th has been, whatever else happens and
      wherever the tick counter wraps. */
  lemma DelayExact(k: Kernel, ticks: Tick, event: Option<nat>, run: seq<Step>, k': Kernel)
    requires Inv(k) && Enabled(k, Delays(ticks, event))
    requires Undisturbed(Delay(k, ticks, event), run, k.current, k')
    ensures var x := k.current;
            && x < |k'.crs|
            && (TicksIn(run) < ticks ==> Waiting(k', x) && Remaining(k', x) == ticks - TicksIn(run))
            && (TicksIn(run) >= ticks && (k'.phase == Idle || k'.phase == Running) ==>
                  k'.crs[x].generic == Ready(k'.crs[x].priority))
  {
    hide Inv, Lists, ToDelayList, Undisturbed;
    DelayStarts(k, ticks, event);
    DelayInv(k, ticks, event);
    var k1 := Delay(k, ticks, event);
    RunElapses(k1, run, k', k.current, ticks, 0);
    InvAt(k', k.current);
  }

  /** When the tick counter wraps and the delay lists swap, the list that becomes the overflow list is
      empty. */
  lemma EmptyAtSwap(k: Kernel)
    requires Inv(k) && k.phase == Idle && Tick1(k).flipped != k.flipped
    ensures k.Delayed() in k.lists && k.lists[k.Delayed()].ids == []
  {
    InvPhase(k);
    hide TopBounds, HasLists, InOrder;
    var ids := k.lists[k.Delayed()].ids;
    if ids != [] {
      LinkedAt(k.crs, k.lists, k.Delayed(), ids[0]);
      InvAt(k, ids[0]);
    }
  }

  // ---------- the scheduler's choices ----------

  lemma ReadyBelowTop(k: Kernel, x: Id)
    requires Inv(k) && x < |k.crs| && k.crs[x].generic.Ready?
    ensures k.crs[x].generic == Ready(k.crs[x].priority) && k.crs[x].priority <= k.top
    ensures k.crs[x].generic in k.lists && x in k.lists[k.crs[x].generic].ids
  {
    InvAt(k, x);
    hide Inv;
    OnTheList(k, x);
  }

  lemma OnTheList(k: Kernel, x: Id)
    requires Lists(k) && x < |k.crs| && k.crs[x].generic.Ready?
    ensures k.crs[x].generic in k.lists && x in k.lists[k.crs[x].generic].ids
    ensures k.crs[x].generic.priority <= k.top
  {
    var p := k.crs[x].generic.priority;
    assert k.lists[Ready(p)].ids != [];
  }

  /** vCoRoutineSchedule runs a ready co-routine whenever there is one, and then one of the highest
      priority of all that are ready. */
  lemma PickIsHighest(k: Kernel)
    requires Inv(k) && k.phase == Idle
    ensures var k' := Pick(k);
            && k'.crs == k.crs
            && (k'.phase == Running <==> exists x | 0 <= x < |k.crs| :: k.crs[x].generic.Ready?)
            && (k'.phase == Running ==>
                  && k'.current < |k.crs| && k.crs[k'.current].generic.Ready?
                  && forall x | 0 <= x < |k.crs| && k.crs[x].generic.Ready? ::
                      k.crs[x].priority <= k.crs[k'.current].priority)
  {
    hide Inv, Lists, Linked;
    InvPhase(k);
    ReadyLists(k);
    var k' := Pick(k);
    var t := TopReady(k, k.top);
    forall x | 0 <= x < |k.crs| && k.crs[x].generic.Ready?
      ensures k.lists[Ready(t)].ids != [] && k.crs[x].priority <= t
    {
      ReadyBelowTop(k, x);
    }
    if k'.phase == Running {
      LinkedAt(k.crs, k.lists, Ready(t), k'.current);
      InvAt(k, k'.current);
    }
  }

  /** xCoRoutineRemoveFromEventList makes pending, of all that wait for the event, the co-routine of
      the highest priority that has waited longest. */
  lemma WakeIsBest(k: Kernel, e: nat)
    requires Inv(k) && Enabled(k, Wakes(e))
    ensures var x := k.lists[Event(e)].ids[0];
            && x < |k.crs| && k.crs[x].event == Event(e) && Wake(k, e).crs == k.crs[x := k.crs[x].(event := Pending)]
            && forall y | 0 <= y < |k.crs| && k.crs[y].event == Event(e) && y != x :: Precedes(k.crs[x], k.crs[y])
  {
    WakeInv(k, e);
    hide Settled, Timed, Wake;
    EventListOrder(k, e);
    var ids := k.lists[Event(e)].ids;
    forall y | 0 <= y < |k.crs| && k.crs[y].event == Event(e) && y != ids[0]
      ensures Precedes(k.crs[ids[0]], k.crs[y])
    {
      var i :| 0 <= i < |ids| && ids[i] == y;
    }
  }
}
