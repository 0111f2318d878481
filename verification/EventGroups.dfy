/** Event groups (event_groups.c): tasks wait until some or all of a set of bits are set. A step is what
    one call does while the scheduler is suspended, or inside one critical section. */
module EventGroups {
  import opened KernelList
  import opened Wrappers

  /** EventBits_t and TickType_t words, as the positions of their 1 bits: | is +, & is *, & ~ is -. */
  type Word = set<nat>

  type Task = nat

  const CLEAR_ON_EXIT: nat := 24
  const UNBLOCKED: nat := 25
  const WAIT_FOR_ALL: nat := 26
  const IN_USE: nat := 31

  /** eventEVENT_BITS_CONTROL_BYTES */
  function Control(): (w: Word)
    ensures forall b: nat :: b in w <==> 24 <= b < 32
  {
    {24, 25, 26, 27, 28, 29, 30, 31}
  }

  /** No bit that the kernel uses itself. */
  predicate User(w: Word) { forall b | b in w :: b < 24 }

  /** prvTestWaitCondition */
  predicate TestWait(current: Word, waited: Word, all: bool) {
    if all then current * waited == waited else current * waited != {}
  }

  /** The call a task has blocked in, with the arguments it will use when it runs again. */
  datatype Call = Waits(bits: Word, clear: bool, all: bool) | Syncs(bits: Word) {
    predicate Clears() { Syncs? || clear }

    predicate All() { Syncs? || all }

    /** The value of the event list item while the task is blocked. */
    function ItemValue(): Word {
      bits + (if Clears() then {CLEAR_ON_EXIT} else {}) + (if All() then {WAIT_FOR_ALL} else {}) + {IN_USE}
    }
  }

  /** value maps a task in a call to the value of its event list item, waiting is in list order. */
  datatype Group = Group(bits: Word, waiting: seq<Task>, value: map<Task, Word>, calls: map<Task, Call>)

  // ---------- setting bits ----------

  /** The wait condition that an event list item carries. */
  predicate Satisfied(current: Word, value: Word) {
    TestWait(current, value - Control(), WAIT_FOR_ALL in value)
  }

  /** The tasks of ts that go on waiting. */
  function Kept(ts: seq<Task>, value: map<Task, Word>, now: Word): seq<Task> {
    if ts == [] then []
    else
      var t := ts[|ts| - 1];
      Kept(ts[..|ts| - 1], value, now) + if t in value && Satisfied(now, value[t]) then [] else [t]
  }

  /** The bits that the released tasks of ts want cleared. */
  function ToClear(ts: seq<Task>, value: map<Task, Word>, now: Word): Word {
    if ts == [] then {}
    else
      var t := ts[|ts| - 1];
      ToClear(ts[..|ts| - 1], value, now)
      + if t in value && Satisfied(now, value[t]) && CLEAR_ON_EXIT in value[t] then value[t] - Control() else {}
  }

  function Released(ts: seq<Task>, value: map<Task, Word>, now: Word): map<Task, Word> {
    map t | t in value :: if t in ts && Satisfied(now, value[t]) then now + {UNBLOCKED, IN_USE} else value[t]
  }

  /** xEventGroupSetBits */
  function SetBits(g: Group, bits: Word): Group {
    var now := g.bits + bits;
    g.(bits := now - ToClear(g.waiting, g.value, now), waiting := Kept(g.waiting, g.value, now),
       value := Released(g.waiting, g.value, now))
  }

  lemma {:induction false} KeptIs(ts: seq<Task>, value: map<Task, Word>, now: Word, t: Task)
    ensures t in Kept(ts, value, now) <==> t in ts && !(t in value && Satisfied(now, value[t]))
    ensures Distinct(ts) ==> Distinct(Kept(ts, value, now))
  {
    if ts != [] {
      KeptIs(ts[..|ts| - 1], value, now, t);
      KeptIs(ts[..|ts| - 1], value, now, ts[|ts| - 1]);
      assert ts == ts[..|ts| - 1] + [ts[|ts| - 1]];
    }
  }

  lemma {:induction false} ToClearIs(ts: seq<Task>, value: map<Task, Word>, now: Word, b: nat)
    ensures b in ToClear(ts, value, now)
            <==> exists t | t in ts && t in value ::
                   Satisfied(now, value[t]) && CLEAR_ON_EXIT in value[t] && b in value[t] - Control()
  {
    if ts != [] {
      ToClearIs(ts[..|ts| - 1], value, now, b);
      assert ts == ts[..|ts| - 1] + [ts[|ts| - 1]];
    }
  }

  /** xEventGroupSetBits releases exactly the tasks whose condition holds in the old bits or the new
      ones, all judged on the same bits, hands them those bits, and leaves these less what the released
      tasks want cleared. */
  lemma SetBitsExact(g: Group, bits: Word)
    requires forall t | t in g.waiting :: t in g.value
    ensures var now, g' := g.bits + bits, SetBits(g, bits);
            && (forall t | t in g.waiting :: t in g'.waiting <==> !Satisfied(now, g.value[t]))
            && (forall t | t in g'.waiting :: t in g.waiting && t in g'.value && g'.value[t] == g.value[t])
            && (forall t | t in g.waiting && t !in g'.waiting ::
                  t in g'.value && g'.value[t] == now + {UNBLOCKED, IN_USE})
            && (forall t | t in g.value && t !in g.waiting :: t in g'.value && g'.value[t] == g.value[t])
            && (forall b :: b in g'.bits <==>
                  && b in now
                  && !exists t | t in g.waiting && t !in g'.waiting ::
                       CLEAR_ON_EXIT in g.value[t] && b in g.value[t] - Control())
  {
    hide Satisfied;
    var now, g' := g.bits + bits, SetBits(g, bits);
    forall t
      ensures t in g'.waiting <==> t in g.waiting && !(t in g.value && Satisfied(now, g.value[t]))
    {
      KeptIs(g.waiting, g.value, now, t);
    }
    forall b
      ensures b in ToClear(g.waiting, g.value, now)
              <==> exists t | t in g.waiting && t in g.value ::
                     Satisfied(now, g.value[t]) && CLEAR_ON_EXIT in g.value[t] && b in g.value[t] - Control()
    {
      ToClearIs(g.waiting, g.value, now, b);
    }
  }

  // ---------- the other calls ----------

  /** vTaskPlaceOnUnorderedEventList */
  function Block(g: Group, t: Task, call: Call): Group {
    g.(waiting := g.waiting + [t], value := g.value[t := call.ItemValue()], calls := g.calls[t := call])
  }

  /** xEventGroupWaitBits up to the point where the task blocks, if it does. */
  function BeginWait(g: Group, t: Task, bits: Word, clear: bool, all: bool, mayBlock: bool): Group {
    if TestWait(g.bits, bits, all) then g.(bits := if clear then g.bits - bits else g.bits)
    else if !mayBlock then g
    else Block(g, t, Waits(bits, clear, all))
  }

  /** xEventGroupSync up to the point where the task blocks, if it does. */
  function BeginSync(g: Group, t: Task, toSet: Word, bits: Word, mayBlock: bool): Group {
    var g' := SetBits(g, toSet);
    if (g.bits + toSet) * bits == bits then g'.(bits := g'.bits - bits)
    else if !mayBlock then g'
    else Block(g', t, Syncs(bits))
  }

  function Without(s: seq<Task>, t: Task): seq<Task> {
    if s == [] then [] else Without(s[..|s| - 1], t) + if s[|s| - 1] == t then [] else [s[|s| - 1]]
  }

  /** The tick handler unblocks a task whose block time has run out; its item keeps its value. */
  function TimeOut(g: Group, t: Task): Group { g.(waiting := Without(g.waiting, t)) }

  /** The rest of a call once the task runs again. */
  function Resume(g: Group, t: Task): Group
    requires t in g.calls && t in g.value
  {
    var call := g.calls[t];
    g.(bits := if UNBLOCKED !in g.value[t] && TestWait(g.bits, call.bits, call.All()) && call.Clears()
               then g.bits - call.bits else g.bits,
       value := g.value - {t}, calls := g.calls - {t})
  }

  /** What a call returns that has blocked. */
  function Returned(g: Group, t: Task): Word
    requires t in g.value
  {
    if UNBLOCKED in g.value[t] then g.value[t] - Control() else g.bits - Control()
  }

  // ---------- what holds between any two steps ----------

  /** No task on the waiting list waits for what is already there. */
  ghost predicate NoLostWakeUp(g: Group) {
    forall t | t in g.waiting :: t in g.value && !Satisfied(g.bits, g.value[t])
  }

  /** A task in a call waits for the bits it named, or has timed out, or has been given bits that are
      what it waited for. */
  ghost predicate Settled(g: Group, t: Task)
    requires t in g.calls
  {
    var call := g.calls[t];
    && call.bits != {} && User(call.bits) && t in g.value
    && (g.value[t] == call.ItemValue()
        || (t !in g.waiting && UNBLOCKED in g.value[t] && TestWait(g.value[t] - Control(), call.bits, call.All())))
  }

  ghost predicate Inv(g: Group) {
    && User(g.bits) && Distinct(g.waiting) && NoLostWakeUp(g)
    && (forall t | t in g.waiting :: t in g.calls && t in g.value && g.value[t] == g.calls[t].ItemValue())
    && (forall t | t in g.calls :: Settled(g, t))
  }

  lemma ItemValueParts(call: Call)
    requires User(call.bits)
    ensures call.ItemValue() - Control() == call.bits
    ensures WAIT_FOR_ALL in call.ItemValue() <==> call.All()
    ensures CLEAR_ON_EXIT in call.ItemValue() <==> call.Clears()
    ensures UNBLOCKED !in call.ItemValue()
  {
  }

  lemma GivenParts(now: Word)
    requires User(now)
    ensures now + {UNBLOCKED, IN_USE} - Control() == now && UNBLOCKED in now + {UNBLOCKED, IN_USE}
  {
  }

  /** With fewer bits set no condition comes true. */
  lemma FewerBits(bits: Word, more: Word, waited: Word, all: bool)
    requires bits <= more && TestWait(bits, waited, all)
    ensures TestWait(more, waited, all)
  {
  }

  lemma FewerBitsForAll(g: Group, more: Word)
    requires g.bits <= more
    requires forall t | t in g.waiting :: t in g.value && !Satisfied(more, g.value[t])
    ensures NoLostWakeUp(g)
  {
    forall t | t in g.waiting
      ensures !Satisfied(g.bits, g.value[t])
    {
      if Satisfied(g.bits, g.value[t]) {
        FewerBits(g.bits, more, g.value[t] - Control(), WAIT_FOR_ALL in g.value[t]);
      }
    }
  }

  lemma SetBitsInv(g: Group, bits: Word)
    requires Inv(g) && User(bits)
    ensures Inv(SetBits(g, bits))
    ensures forall t | t in SetBits(g, bits).waiting :: t in g.value && !Satisfied(g.bits + bits, g.value[t])
  {
    var now, g' := g.bits + bits, SetBits(g, bits);
    SetBitsExact(g, bits);
    KeptIs(g.waiting, g.value, now, 0);
    forall t | t in g'.calls
      ensures Settled(g', t)
    {
      assert Settled(g, t);
      ItemValueParts(g.calls[t]);
      GivenParts(now);
    }
    hide Settled;
    FewerBitsForAll(g', now);
  }

  lemma SetBitsKeeps(g: Group, bits: Word)
    requires Inv(g) && User(bits)
    ensures Inv(SetBits(g, bits))
  {
    hide Inv, SetBits, Satisfied;
    SetBitsInv(g, bits);
  }

  lemma ClearInv(g: Group, bits: Word)
    requires Inv(g)
    ensures Inv(g.(bits := g.bits - bits))
  {
    var g' := g.(bits := g.bits - bits);
    forall t | t in g'.calls
      ensures Settled(g', t)
    {
      assert Settled(g, t);
    }
    hide Settled;
    FewerBitsForAll(g', g.bits);
  }

  lemma BlockInv(g: Group, t: Task, call: Call)
    requires Inv(g) && t !in g.calls && t !in g.waiting
    requires call.bits != {} && User(call.bits) && !TestWait(g.bits, call.bits, call.All())
    ensures Inv(Block(g, t, call))
  {
    var g' := Block(g, t, call);
    ItemValueParts(call);
    forall u | u in g'.calls
      ensures Settled(g', u)
    {
      assert u == t || Settled(g, u);
    }
  }

  lemma BeginWaitInv(g: Group, t: Task, bits: Word, clear: bool, all: bool, mayBlock: bool)
    requires Inv(g) && t !in g.calls && bits != {} && User(bits)
    ensures Inv(BeginWait(g, t, bits, clear, all, mayBlock))
  {
    hide TestWait, Settled, NoLostWakeUp;
    if TestWait(g.bits, bits, all) {
      ClearInv(g, if clear then bits else {});
      assert g.(bits := g.bits - {}) == g;
    } else if mayBlock {
      BlockInv(g, t, Waits(bits, clear, all));
    }
  }

  lemma BeginSyncInv(g: Group, t: Task, toSet: Word, bits: Word, mayBlock: bool)
    requires Inv(g) && t !in g.calls && User(toSet) && bits != {} && User(bits)
    ensures Inv(BeginSync(g, t, toSet, bits, mayBlock))
  {
    hide Settled, NoLostWakeUp, SetBits;
    SetBitsInv(g, toSet);
    SetBitsShape(g, toSet);
    var g' := SetBits(g, toSet);
    if (g.bits + toSet) * bits == bits {
      ClearInv(g', bits);
    } else if mayBlock {
      assert !TestWait(g'.bits, bits, true);
      BlockInv(g', t, Syncs(bits));
    }
  }

  lemma SetBitsShape(g: Group, bits: Word)
    requires Inv(g)
    ensures SetBits(g, bits).calls == g.calls && SetBits(g, bits).bits <= g.bits + bits
    ensures forall t | t in SetBits(g, bits).waiting :: t in g.waiting
  {
    SetBitsExact(g, bits);
  }

  lemma {:induction false} WithoutIs(s: seq<Task>, t: Task, u: Task)
    ensures u in Without(s, t) <==> u in s && u != t
    ensures Distinct(s) ==> Distinct(Without(s, t))
  {
    if s != [] {
      WithoutIs(s[..|s| - 1], t, u);
      WithoutIs(s[..|s| - 1], t, s[|s| - 1]);
      assert s == s[..|s| - 1] + [s[|s| - 1]];
    }
  }

  lemma TimeOutInv(g: Group, t: Task)
    requires Inv(g)
    ensures Inv(TimeOut(g, t))
  {
    var g' := TimeOut(g, t);
    forall u
      ensures u in g'.waiting <==> u in g.waiting && u != t
    {
      WithoutIs(g.waiting, t, u);
    }
    WithoutIs(g.waiting, t, t);
    forall u | u in g'.calls
      ensures Settled(g', u)
    {
      assert Settled(g, u);
    }
  }

  lemma ResumeInv(g: Group, t: Task)
    requires Inv(g) && t in g.calls && t !in g.waiting
    ensures t in g.value && Inv(Resume(g, t))
  {
    assert Settled(g, t);
    var g' := Resume(g, t);
    forall u | u in g'.calls
      ensures Settled(g', u)
    {
      assert Settled(g, u);
    }
    hide Settled;
    FewerBitsForAll(g', g.bits);
  }

  // ---------- runs ----------

  datatype Step =
    | Sets(bits: Word)
    | Clears(bits: Word)
    | BeginsWait(task: Task, bits: Word, clear: bool, all: bool, mayBlock: bool)
    | BeginsSync(task: Task, toSet: Word, bits: Word, mayBlock: bool)
    | TimesOut(task: Task)
    | Resumes(task: Task)

  /** What the assertions of the code demand, and that a task is in one call at a time. */
  ghost predicate Enabled(g: Group, s: Step) {
    match s
    case Sets(bits) => User(bits)
    case Clears(bits) => User(bits)
    case BeginsWait(t, bits, _, _, _) => t !in g.calls && bits != {} && User(bits)
    case BeginsSync(t, toSet, bits, _) => t !in g.calls && User(toSet) && bits != {} && User(bits)
    case TimesOut(t) => t in g.waiting
    case Resumes(t) => t in g.calls && t in g.value && t !in g.waiting
  }

  ghost function Apply(g: Group, s: Step): Group
    requires Enabled(g, s)
  {
    match s
    case Sets(bits) => SetBits(g, bits)
    case Clears(bits) => g.(bits := g.bits - bits)
    case BeginsWait(t, bits, clear, all, mayBlock) => BeginWait(g, t, bits, clear, all, mayBlock)
    case BeginsSync(t, toSet, bits, mayBlock) => BeginSync(g, t, toSet, bits, mayBlock)
    case TimesOut(t) => TimeOut(g, t)
    case Resumes(t) => Resume(g, t)
  }

  lemma StepInv(g: Group, s: Step)
    requires Inv(g) && Enabled(g, s)
    ensures Inv(Apply(g, s))
  {
    hide Inv;
    match s
    case Sets(bits) => SetBitsInv(g, bits);
    case Clears(bits) => ClearInv(g, bits);
    case BeginsWait(t, bits, clear, all, mayBlock) => BeginWaitInv(g, t, bits, clear, all, mayBlock);
    case BeginsSync(t, toSet, bits, mayBlock) => BeginSyncInv(g, t, toSet, bits, mayBlock);
    case TimesOut(t) => TimeOutInv(g, t);
    case Resumes(t) => ResumeInv(g, t);
  }

  ghost predicate Reaches(g: Group, run: seq<Step>, g': Group)
    decreases |run|
  {
    if run == [] then g' == g else Enabled(g, run[0]) && Reaches(Apply(g, run[0]), run[1..], g')
  }

  lemma {:induction false} RunInv(g: Group, run: seq<Step>, g': Group)
    requires Inv(g) && Reaches(g, run, g')
    ensures Inv(g')
    decreases |run|
  {
    hide Inv, Apply, Enabled;
    if run != [] {
      StepInv(g, run[0]);
      RunInv(Apply(g, run[0]), run[1..], g');
    }
  }

  /** xEventGroupCreate */
  function Created(): Group { Group({}, [], map[], map[]) }

  /** In every reachable state no waiting task has its condition met by the current bits; and a task
      that has been released will return bits that meet its condition. */
  lemma NoneForgotten(run: seq<Step>, g: Group, t: Task)
    requires Reaches(Created(), run, g) && t in g.calls
    ensures t in g.value
    ensures t in g.waiting ==> !TestWait(g.bits, g.calls[t].bits, g.calls[t].All())
    ensures UNBLOCKED in g.value[t] ==> t !in g.waiting && TestWait(Returned(g, t), g.calls[t].bits, g.calls[t].All())
  {
    RunInv(Created(), run, g);
    assert Settled(g, t);
    ItemValueParts(g.calls[t]);
  }

  // ---------- the rendezvous ----------

  /** The arrival that completes a rendezvous releases every task that waits in it, each with a value
      that contains the bits, and the bits end up clear. */
  lemma RendezvousCompletes(g: Group, t: Task, toSet: Word, bits: Word, mayBlock: bool)
    requires Inv(g) && Enabled(g, BeginsSync(t, toSet, bits, mayBlock)) && bits <= g.bits + toSet
    ensures var g' := BeginSync(g, t, toSet, bits, mayBlock);
            && g'.bits * bits == {} && t !in g'.calls
            && forall u | u in g.waiting && g.calls[u] == Syncs(bits) ::
                 u !in g'.waiting && u in g'.value && Returned(g', u) == g.bits + toSet
  {
    var now, g' := g.bits + toSet, BeginSync(g, t, toSet, bits, mayBlock);
    SetBitsExact(g, toSet);
    assert now * bits == bits;
    forall u | u in g.waiting && g.calls[u] == Syncs(bits)
      ensures u !in g'.waiting && u in g'.value && Returned(g', u) == now
    {
      ItemValueParts(Syncs(bits));
      GivenParts(now);
    }
  }

  /** A task arrives at the rendezvous for the given bits. */
  predicate Arrival(s: Step, bits: Word) { s.BeginsSync? && s.bits == bits && s.mayBlock }

  /** The call clears none of the bits when it ends. */
  predicate Apart(call: Call, bits: Word) { call.Clears() ==> call.bits * bits == {} }

  /** Any other step that neither sets nor clears any of the bits, now or when its call ends, and is not the
      end of the block time of a task in the rendezvous. */
  ghost predicate Aloof(g: Group, s: Step, bits: Word) {
    match s
    case Sets(b) => b * bits == {}
    case Clears(b) => b * bits == {}
    case BeginsWait(_, b, clear, _, _) => clear ==> b * bits == {}
    case BeginsSync(_, toSet, b, _) => toSet * bits == {} && b * bits == {}
    case TimesOut(t) => t in g.calls && g.calls[t] != Syncs(bits)
    case Resumes(_) => true
  }

  /** Every step is an arrival at the rendezvous or leaves it alone. */
  ghost predicate Undisturbed(g: Group, run: seq<Step>, bits: Word)
    decreases |run|
  {
    run != [] && Enabled(g, run[0]) ==>
      (Arrival(run[0], bits) || Aloof(g, run[0], bits)) && Undisturbed(Apply(g, run[0]), run[1..], bits)
  }

  /** The tasks that arrive in a run, and the bits they set. */
  ghost function Arrived(run: seq<Step>, bits: Word): set<Task> {
    if run == [] then {} else (if Arrival(run[0], bits) then {run[0].task} else {}) + Arrived(run[1..], bits)
  }

  ghost function SetBy(run: seq<Step>, bits: Word): Word {
    if run == [] then {} else (if Arrival(run[0], bits) then run[0].toSet else {}) + SetBy(run[1..], bits)
  }

  /** The tasks in all wait in the rendezvous, of whose bits those in own are set; nobody else will clear any. */
  ghost predicate Gathering(g: Group, bits: Word, all: set<Task>, own: Word) {
    && (forall t | t in all :: t in g.waiting && t in g.calls && g.calls[t] == Syncs(bits))
    && (forall t | t in g.calls && t !in all :: Apart(g.calls[t], bits))
    && g.bits * bits == own * bits
  }

  lemma WithinBits(a: Word, b: Word, c: Word, bits: Word)
    requires a * bits == b * bits
    ensures (a + c) * bits == (b + c) * bits && (bits <= a + c <==> bits <= b + c)
    ensures c * bits == {} ==> (a + c) * bits == a * bits && (bits <= a + c <==> bits <= a)
  {
    forall x | x in bits
      ensures x in a <==> x in b
    {
      assert x in a * bits <==> x in b * bits;
    }
    if c * bits == {} {
      forall x | x in bits
        ensures x !in c
      {
        assert x !in c * bits;
      }
    }
  }

  lemma SetBitsGathers(g: Group, toSet: Word, bits: Word, all: set<Task>, own: Word)
    requires Inv(g) && Gathering(g, bits, all, own) && User(bits) && !(bits <= own + toSet)
    ensures Gathering(SetBits(g, toSet), bits, all, own + toSet)
  {
    var now, g' := g.bits + toSet, SetBits(g, toSet);
    SetBitsExact(g, toSet);
    hide SetBits;
    ItemValueParts(Syncs(bits));
    WithinBits(g.bits, own, toSet, bits);
    assert !TestWait(now, bits, true);
    forall b | b in now && b in bits
      ensures b in g'.bits
    {
      forall t | t in g.waiting && t !in g'.waiting && CLEAR_ON_EXIT in g.value[t]
        ensures b !in g.value[t] - Control()
      {
        ItemValueParts(g.calls[t]);
      }
    }
  }

  lemma ArrivalGathers(g: Group, t: Task, toSet: Word, bits: Word, all: set<Task>, own: Word)
    requires Inv(g) && t !in g.calls && User(toSet)
    requires Gathering(g, bits, all, own) && bits != {} && User(bits) && !(bits <= own + toSet)
    ensures Gathering(BeginSync(g, t, toSet, bits, true), bits, all + {t}, own + toSet)
  {
    SetBitsGathers(g, toSet, bits, all, own);
    SetBitsShape(g, toSet);
    WithinBits(g.bits, own, toSet, bits);
    hide SetBits, Inv;
  }

  /** Another rendezvous, which shares none of the bits. */
  lemma SyncGathers(g: Group, t: Task, toSet: Word, b: Word, mayBlock: bool, bits: Word, all: set<Task>, own: Word)
    requires Inv(g) && t !in g.calls && User(toSet) && toSet * bits == {} && b * bits == {}
    requires Gathering(g, bits, all, own) && User(bits) && !(bits <= own)
    ensures Gathering(BeginSync(g, t, toSet, b, mayBlock), bits, all, own)
  {
    WithinBits(own, own, toSet, bits);
    SetBitsGathers(g, toSet, bits, all, own);
    SetBitsShape(g, toSet);
    hide SetBits, Inv;
  }

  lemma StepGathers(g: Group, s: Step, bits: Word, all: set<Task>, own: Word)
    requires Inv(g) && Enabled(g, s) && Gathering(g, bits, all, own) && bits != {} && User(bits)
    requires Arrival(s, bits) || Aloof(g, s, bits)
    requires !(bits <= own + if Arrival(s, bits) then s.toSet else {})
    ensures if Arrival(s, bits) then Gathering(Apply(g, s), bits, all + {s.task}, own + s.toSet)
            else Gathering(Apply(g, s), bits, all, own)
  {
    match s
    case Sets(b) =>
      SetBitsGathers(g, b, bits, all, own);
    case Clears(b) =>
    case BeginsWait(t, b, clear, _, mayBlock) =>
    case BeginsSync(t, toSet, b, mayBlock) =>
      if b == bits {
        ArrivalGathers(g, t, toSet, bits, all, own);
      } else {
        SyncGathers(g, t, toSet, b, mayBlock, bits, all, own);
      }
    case TimesOut(t) =>
      forall u
        ensures u in Without(g.waiting, t) <==> u in g.waiting && u != t
      {
        WithoutIs(g.waiting, t, u);
      }
    case Resumes(t) =>
  }

  lemma {:induction false} RunGathers(g: Group, run: seq<Step>, g': Group, bits: Word, all: set<Task>, own: Word)
    requires Inv(g) && Reaches(g, run, g') && Undisturbed(g, run, bits) && Gathering(g, bits, all, own)
    requires bits != {} && User(bits) && !(bits <= own + SetBy(run, bits))
    ensures Inv(g') && Gathering(g', bits, all + Arrived(run, bits), own + SetBy(run, bits))
    decreases |run|
  {
    hide Inv, Gathering, Aloof, Enabled, Apply;
    if run == [] {
      assert all + {} == all && own + {} == own;
    } else {
      var s := run[0];
      StepInv(g, s);
      StepGathers(g, s, bits, all, own);
      var came, brought := if Arrival(s, bits) then {s.task} else {}, if Arrival(s, bits) then s.toSet else {};
      assert all + {} == all && own + {} == own;
      RunGathers(Apply(g, s), run[1..], g', bits, all + came, own + brought);
      assert all + came + Arrived(run[1..], bits) == all + Arrived(run, bits);
      assert own + brought + SetBy(run[1..], bits) == own + SetBy(run, bits);
    }
  }

  /** Tasks arrive at a rendezvous in any run whose other steps leave it alone. As long as bits are missing
      every one of them is kept waiting; the arrival that brings the rest releases them all, each with all
      the bits, and the bits are clear again. */
  lemma Rendezvous(g: Group, run: seq<Step>, g': Group, bits: Word, t: Task, toSet: Word, mayBlock: bool)
    requires Inv(g) && Reaches(g, run, g') && Undisturbed(g, run, bits)
    requires forall u | u in g.calls :: Apart(g.calls[u], bits)
    requires bits != {} && User(bits) && !(bits <= g.bits + SetBy(run, bits))
    ensures forall u | u in Arrived(run, bits) :: u in g'.waiting
    ensures var last := BeginsSync(t, toSet, bits, mayBlock);
            Enabled(g', last) && bits <= g.bits + SetBy(run, bits) + toSet ==>
              var after := Apply(g', last);
              && after.bits * bits == {} && t !in after.calls
              && forall u | u in Arrived(run, bits) ::
                   u !in after.waiting && u in after.value && bits <= Returned(after, u)
  {
    hide Inv, Returned, SetBy, Reaches, Undisturbed;
    var all, own := Arrived(run, bits), g.bits + SetBy(run, bits);
    RunGathers(g, run, g', bits, {}, g.bits);
    assert {} + all == all;
    var last := BeginsSync(t, toSet, bits, mayBlock);
    if Enabled(g', last) && bits <= own + toSet {
      assert own * bits <= g'.bits;
      assert bits <= g'.bits + toSet;
      RendezvousCompletes(g', t, toSet, bits, mayBlock);
    }
  }

  // ---------- what the arguments of a call mean, until it ends ----------

  /** The condition of a wait, said of the bits. */
  lemma MetIs(bits: Word, waited: Word, all: bool)
    ensures TestWait(bits, waited, all) <==> if all then waited <= bits else exists b :: b in waited && b in bits
  {
    if all {
      assert waited <= bits <==> bits * waited == waited;
    } else if b :| b in waited && b in bits {
      assert b in bits * waited;
    } else {
      assert bits * waited == {};
    }
  }

  /** A wait whose condition holds returns at once, and clears its bits if asked to; otherwise it changes
      nothing, but for the task that blocks at the end of the list if it may. */
  lemma WaitBegins(g: Group, t: Task, bits: Word, clear: bool, all: bool, mayBlock: bool)
    requires Inv(g) && Enabled(g, BeginsWait(t, bits, clear, all, mayBlock))
    ensures var g' := Apply(g, BeginsWait(t, bits, clear, all, mayBlock));
            if (if all then bits <= g.bits else exists b :: b in bits && b in g.bits) then
              g' == g.(bits := if clear then g.bits - bits else g.bits)
            else if !mayBlock then g' == g
            else
              && g'.bits == g.bits && g'.waiting == g.waiting + [t] && t in g'.calls
              && (forall u | u != t :: u in g'.calls <==> u in g.calls)
              && (forall u | u in g.calls :: g'.calls[u] == g.calls[u])
  {
    MetIs(g.bits, bits, all);
  }

  /** A task at a rendezvous sets its own bits like any other; if all of the bits are set then, they are cleared
      and it returns at once, otherwise it blocks at the end of the list if it may. */
  lemma SyncBegins(g: Group, t: Task, toSet: Word, bits: Word, mayBlock: bool)
    requires Inv(g) && Enabled(g, BeginsSync(t, toSet, bits, mayBlock))
    ensures var g1, g' := Apply(g, Sets(toSet)), Apply(g, BeginsSync(t, toSet, bits, mayBlock));
            if bits <= g.bits + toSet then g' == g1.(bits := g1.bits - bits)
            else if !mayBlock then g' == g1
            else
              && g'.bits == g1.bits && g'.waiting == g1.waiting + [t] && t in g'.calls
              && (forall u | u != t :: u in g'.calls <==> u in g1.calls)
              && (forall u | u in g1.calls :: g'.calls[u] == g1.calls[u])
  {
    hide Inv, SetBits;
    MetIs(g.bits + toSet, bits, true);
    SyncCalls(g, toSet);
  }

  lemma SyncCalls(g: Group, toSet: Word)
    ensures SetBits(g, toSet).calls == g.calls
  {
  }

  /** The run has no new call by task t. */
  predicate NoCallBy(run: seq<Step>, t: Task) {
    forall i | 0 <= i < |run| :: run[i].BeginsWait? || run[i].BeginsSync? ==> run[i].task != t
  }

  /** Only its own next call changes what a task waits for. */
  lemma {:induction false} CallKept(g: Group, run: seq<Step>, g': Group, t: Task)
    requires Inv(g) && Reaches(g, run, g') && NoCallBy(run, t) && t in g'.calls
    ensures t in g.calls && g'.calls[t] == g.calls[t] && Inv(g')
    decreases |run|
  {
    hide Inv;
    if run != [] {
      StepInv(g, run[0]);
      assert NoCallBy(run[1..], t);
      CallKept(Apply(g, run[0]), run[1..], g', t);
    }
  }

  /** A task has called xEventGroupWaitBits or xEventGroupSync in state g0 and is in that call still. */
  ghost predicate InCall(g0: Group, s: Step, run: seq<Step>, g: Group, t: Task) {
    && Inv(g0) && Enabled(g0, s) && (s.BeginsWait? || s.BeginsSync?) && s.task == t
    && Reaches(Apply(g0, s), run, g) && NoCallBy(run, t) && t in g.calls
  }

  /** The bits a call waits for, whether it clears them, and whether it waits for all of them. */
  lemma CallIs(g0: Group, s: Step, run: seq<Step>, g: Group, t: Task)
    requires InCall(g0, s, run, g, t)
    ensures Inv(g) && g.calls[t].bits == s.bits && (g.calls[t].Clears() <==> s.BeginsSync? || s.clear)
    ensures g.calls[t].All() <==> s.BeginsSync? || s.all
  {
    StepInv(g0, s);
    CallKept(Apply(g0, s), run, g, t);
    hide Inv, SetBits, TestWait;
  }

  /** However long after the call, bits that are set release the task if and only if they, with those set
      before, meet the condition it asked for. It then returns all these bits, and those it waited for are clear
      if it asked for that; any other bit that is cleared has been waited for by another task released with it. */
  lemma SetReleasesIff(g0: Group, s: Step, run: seq<Step>, g: Group, t: Task, b: Word)
    requires InCall(g0, s, run, g, t) && t in g.waiting && User(b)
    ensures var g', now, clear, all := Apply(g, Sets(b)), g.bits + b, s.BeginsSync? || s.clear, s.BeginsSync? || s.all;
            && (t !in g'.waiting <==> if all then s.bits <= now else exists x :: x in s.bits && x in now)
            && (t !in g'.waiting ==>
                  && t in g'.value && UNBLOCKED in g'.value[t] && Returned(g', t) == now
                  && (clear ==> g'.bits * s.bits == {}))
            && (forall x | x in now && x !in g'.bits ::
                  exists u | u in g.waiting && u !in g'.waiting ::
                    u in g.calls && x in g.calls[u].bits && g.calls[u].Clears() && (u == t ==> clear))
            && g'.bits <= now
  {
    CallIs(g0, s, run, g, t);
    var now, g', call := g.bits + b, Apply(g, Sets(b)), g.calls[t];
    SetBitsExact(g, b);
    ItemValueParts(call);
    MetIs(now, s.bits, call.All());
    GivenParts(now);
    hide SetBits, TestWait, Reaches;
    forall x | x in now && x !in g'.bits
      ensures exists u | u in g.waiting && u !in g'.waiting ::
                u in g.calls && x in g.calls[u].bits && g.calls[u].Clears()
    {
      var u :| u in g.waiting && u !in g'.waiting && CLEAR_ON_EXIT in g.value[u] && x in g.value[u] - Control();
      ItemValueParts(g.calls[u]);
    }
  }

  /** A task whose block time has run out returns the bits of the time it runs again, and clears those it waited
      for if and only if it asked for that and its condition holds by then. */
  lemma TimedOutReturns(g0: Group, s: Step, run: seq<Step>, g: Group, t: Task)
    requires InCall(g0, s, run, g, t) && t !in g.waiting && t in g.value && UNBLOCKED !in g.value[t]
    ensures Enabled(g, Resumes(t)) && Returned(g, t) == g.bits
    ensures var g', clear, all := Apply(g, Resumes(t)), s.BeginsSync? || s.clear, s.BeginsSync? || s.all;
            && t !in g'.calls && g'.waiting == g.waiting
            && g'.bits == if clear && (if all then s.bits <= g.bits else exists x :: x in s.bits && x in g.bits)
               then g.bits - s.bits else g.bits
  {
    CallIs(g0, s, run, g, t);
    MetIs(g.bits, s.bits, g.calls[t].All());
    UserBits(g);
    hide TestWait, Reaches, Inv;
  }

  lemma UserBits(g: Group)
    requires Inv(g)
    ensures g.bits - Control() == g.bits
  {
  }

  // ---------- the code ----------

  class EventGroup {
    var bits: Word
    var waiting: seq<Task>
    /** The values of the event list items, and the calls blocked tasks will finish. */
    var value: map<Task, Word>
    var calls: map<Task, Call>

    ghost function State(): Group
      reads this
    {
      Group(bits, waiting, value, calls)
    }

    constructor ()
      ensures State() == Created()
    {
      bits, waiting, value, calls := {}, [], map[], map[];
    }

    /** vTaskRemoveFromUnorderedEventList for the i-th of the waiting tasks. */
    method RemoveFromList(i: nat, itemValue: Word)
      requires i < |waiting|
      modifies this`waiting, this`value
      ensures waiting == Removed(old(waiting), i)
      ensures value == old(value)[old(waiting)[i] := itemValue + {IN_USE}]
    {
      value := value[waiting[i] := itemValue + {IN_USE}];
      waiting := waiting[..i] + waiting[i + 1..];
    }

    /** xEventGroupSetBits: the list is walked while it shrinks. */
    method Set(toSet: Word) returns (result: Word)
      requires Inv(State()) && User(toSet)
      modifies this`bits, this`waiting, this`value
      ensures State() == SetBits(old(State()), toSet) && Inv(State()) && result == bits
    {
      hide Inv, Satisfied, Walked, SetBits, Kept, Released, ToClear, User, Control;
      ghost var g, done := State(), 0;
      SetBitsKeeps(g, toSet);
      bits := bits + toSet;
      var toClear: Word := {};
      var i := 0;
      WalkStarts(g, bits);
      while i < |waiting|
        invariant done <= |g.waiting| && 0 <= i && bits == g.bits + toSet
        invariant Walked(g, bits, done, waiting, value, toClear, i)
        decreases |g.waiting| - done
      {
        WalkGoesOn(g, bits, done, waiting, value, toClear, i);
        toClear, i := LookAt(i, toClear, g, done);
        done := done + 1;
      }
      WalkEnds(g, toSet, done, waiting, value, toClear, i);
      bits := bits - toClear;
      result := bits;
    }

    /** One round of the walk: the i-th task is released, or the walk goes on to the next. */
    method LookAt(i: nat, toClear: Word, ghost g: Group, ghost done: nat) returns (more: Word, next: nat)
      requires Inv(g) && done < |g.waiting| && i < |waiting| && Walked(g, bits, done, waiting, value, toClear, i)
      modifies this`waiting, this`value
      ensures Walked(g, bits, done + 1, waiting, value, more, next)
    {
      hide Inv, Walked, Satisfied;
      more, next := toClear, i;
      WalkStep(g, bits, done, waiting, value, toClear, i);
      var t := waiting[i];
      var control, waited := value[t] * Control(), value[t] - Control();
      var matched := if WAIT_FOR_ALL !in control then waited * bits != {} else waited * bits == waited;
      MatchIs(value[t], bits);
      hide Control;
      if matched {
        if CLEAR_ON_EXIT in control {
          more := more + waited;
        }
        RemoveFromList(i, bits + {UNBLOCKED});
      } else {
        next := i + 1;
      }
    }

    /** xEventGroupClearBits */
    method Clear(toClear: Word) returns (result: Word)
      requires Inv(State()) && User(toClear)
      modifies this`bits
      ensures bits == old(bits) - toClear && Inv(State()) && result == old(bits)
    {
      ClearInv(State(), toClear);
      hide Inv;
      result := bits;
      bits := bits - toClear;
    }

    /** vTaskPlaceOnUnorderedEventList */
    method PlaceOnList(t: Task, itemValue: Word)
      modifies this`waiting, this`value
      ensures waiting == old(waiting) + [t] && value == old(value)[t := itemValue + {IN_USE}]
    {
      value := value[t := itemValue + {IN_USE}];
      waiting := waiting + [t];
    }

    /** xEventGroupWaitBits, called by task t, up to where it blocks; the result is what it returns if it
        does not. */
    method WaitBits(t: Task, waited: Word, clear: bool, all: bool, mayBlock: bool) returns (result: Option<Word>)
      requires Inv(State()) && t !in calls && waited != {} && User(waited)
      modifies this
      ensures State() == BeginWait(old(State()), t, waited, clear, all, mayBlock) && Inv(State())
      ensures result == if mayBlock && t in calls then None else Some(old(bits))
    {
      BeginWaitInv(State(), t, waited, clear, all, mayBlock);
      hide Inv;
      if TestWait(bits, waited, all) {
        result := Some(bits);
        if clear {
          bits := bits - waited;
        }
      } else if !mayBlock {
        result := Some(bits);
      } else {
        var control: Word := {};
        if clear {
          control := control + {CLEAR_ON_EXIT};
        }
        if all {
          control := control + {WAIT_FOR_ALL};
        }
        assert waited + control + {IN_USE} == Waits(waited, clear, all).ItemValue();
        PlaceOnList(t, waited + control);
        calls := calls[t := Waits(waited, clear, all)];
        result := None;
      }
    }

    /** xEventGroupSync, called by task t, up to where it blocks. */
    method Sync(t: Task, toSet: Word, waited: Word, mayBlock: bool) returns (result: Option<Word>)
      requires Inv(State()) && t !in calls && User(toSet) && waited != {} && User(waited)
      modifies this
      ensures State() == BeginSync(old(State()), t, toSet, waited, mayBlock) && Inv(State())
      ensures result == if waited <= old(bits) + toSet then Some(old(bits) + toSet)
                        else if mayBlock then None else Some(bits)
    {
      BeginSyncInv(State(), t, toSet, waited, mayBlock);
      hide Inv;
      var original := bits;
      var _ := Set(toSet);
      if (original + toSet) * waited == waited {
        result := Some(original + toSet);
        bits := bits - waited;
      } else if mayBlock {
        assert waited + {CLEAR_ON_EXIT} + {WAIT_FOR_ALL} + {IN_USE} == Syncs(waited).ItemValue();
        PlaceOnList(t, waited + {CLEAR_ON_EXIT} + {WAIT_FOR_ALL});
        calls := calls[t := Syncs(waited)];
        result := None;
      } else {
        result := Some(bits);
      }
    }

    /** The rest of xEventGroupWaitBits or xEventGroupSync, once the task runs again. A task that was
        released returns bits that meet its condition, one that timed out the bits of now. */
    method Finish(t: Task) returns (result: Word)
      requires Inv(State()) && t in calls && t !in waiting
      modifies this`bits, this`value, this`calls
      ensures t in old(value) && State() == Resume(old(State()), t) && Inv(State())
      ensures result == if UNBLOCKED in old(value[t]) then old(value[t]) - Control() else old(bits)
      ensures UNBLOCKED in old(value[t]) ==> TestWait(result, old(calls[t]).bits, old(calls[t]).All())
    {
      ResumeInv(State(), t);
      assert Settled(State(), t) && User(bits);
      ItemValueParts(calls[t]);
      hide Inv, TestWait, Control;
      var call := calls[t];
      result := value[t];
      value, calls := value - {t}, calls - {t};
      if UNBLOCKED !in result {
        result := bits;
        if TestWait(result, call.bits, call.All()) {
          if call.Clears() {
            bits := bits - call.bits;
          }
        }
      }
      NoControl(result);
      result := result - Control();
    }

    /** vEventGroupDelete: every waiting task is released, to return no bits. */
    method Delete()
      requires Inv(State())
      modifies this`waiting, this`value
      ensures waiting == [] && value.Keys == old(value.Keys)
      ensures forall t | t in old(value) ::
                if t in old(waiting) then value[t] == {UNBLOCKED, IN_USE} && Returned(State(), t) == {}
                else value[t] == old(value[t])
    {
      ghost var g, done := State(), 0;
      while |waiting| > 0
        invariant done <= |g.waiting| && waiting == g.waiting[done..] && value.Keys == g.value.Keys
        invariant forall t | t in g.value :: value[t] == if t in g.waiting[..done] then {UNBLOCKED, IN_USE}
                    else g.value[t]
        decreases |waiting|
      {
        assert g.waiting[..done + 1] == g.waiting[..done] + [waiting[0]];
        assert {UNBLOCKED} + {IN_USE} == {UNBLOCKED, IN_USE};
        RemoveFromList(0, {UNBLOCKED});
        done := done + 1;
      }
      assert g.waiting[..done] == g.waiting;
    }
  }

  lemma NoControl(w: Word)
    ensures User(w) ==> w - Control() == w
  {
  }

  lemma MatchIs(value: Word, bits: Word)
    ensures var control, waited := value * Control(), value - Control();
            (if WAIT_FOR_ALL !in control then waited * bits != {} else waited * bits == waited) == Satisfied(bits,
                value)
    ensures CLEAR_ON_EXIT in value * Control() <==> CLEAR_ON_EXIT in value
  {
    assert (value - Control()) * bits == bits * (value - Control());
  }

  /** How far the walk of xEventGroupSetBits has got: done tasks have been looked at, the first i of the
      list are those that stay. */
  ghost predicate Walked(g: Group, now: Word, done: nat, waiting: seq<Task>, value: map<Task, Word>, toClear: Word,
          i: int)
    requires done <= |g.waiting|
  {
    && waiting == Kept(g.waiting[..done], g.value, now) + g.waiting[done..]
        && i == |Kept(g.waiting[..done], g.value, now)|
    && toClear == ToClear(g.waiting[..done], g.value, now)
    && value == Released(g.waiting[..done], g.value, now)
  }

  lemma WalkEnds(g: Group, toSet: Word, done: nat, waiting: seq<Task>, value: map<Task, Word>, toClear: Word, i: int)
    requires done <= |g.waiting| && Walked(g, g.bits + toSet, done, waiting, value, toClear, i) && i >= |waiting|
    ensures Group(g.bits + toSet - toClear, waiting, value, g.calls) == SetBits(g, toSet)
  {
    assert g.waiting[..done] == g.waiting;
  }

  /** While tasks are left in the list, some have not been looked at. */
  lemma WalkGoesOn(g: Group, now: Word, done: nat, waiting: seq<Task>, value: map<Task, Word>, toClear: Word, i: int)
    requires done <= |g.waiting| && Walked(g, now, done, waiting, value, toClear, i) && i < |waiting|
    ensures done < |g.waiting|
  {
  }

  lemma WalkStarts(g: Group, now: Word)
    ensures Walked(g, now, 0, g.waiting, g.value, {}, 0)
  {
    assert g.waiting[..0] == [];
  }

  lemma ReleasedOne(ts: seq<Task>, t: Task, value: map<Task, Word>, now: Word)
    requires t in value && t !in ts
    ensures t in Released(ts, value, now) && Released(ts, value, now)[t] == value[t]
    ensures Released(ts + [t], value, now)
            == if Satisfied(now, value[t]) then Released(ts, value, now)[t := now + {UNBLOCKED, IN_USE}]
                else Released(ts, value, now)
  {
    hide Satisfied;
  }

  lemma WalkStep(g: Group, now: Word, done: nat, waiting: seq<Task>, value: map<Task, Word>, toClear: Word, i: int)
    requires Inv(g) && done <= |g.waiting| && Walked(g, now, done, waiting, value, toClear, i) && i < |waiting|
    ensures done < |g.waiting| && 0 <= i && waiting[i] == g.waiting[done] && waiting[i] in value
              && waiting[i] in g.value
    ensures value[waiting[i]] == g.value[waiting[i]]
    ensures var t := waiting[i];
            if Satisfied(now, value[t]) then
              Walked(g, now, done + 1, Removed(waiting, i), value[t := now + {UNBLOCKED} + {IN_USE}],
                     if CLEAR_ON_EXIT in value[t] then toClear + (value[t] - Control()) else toClear, i)
            else
              Walked(g, now, done + 1, waiting, value, toClear, i + 1)
  {
    hide Satisfied, Released, Settled, Control, Inv;
    var t, kept := g.waiting[done], Kept(g.waiting[..done], g.value, now);
    NextWaits(g, done);
    ReleasedOne(g.waiting[..done], t, g.value, now);
    NextRemoved(g.waiting, done, kept);
    assert now + {UNBLOCKED} + {IN_USE} == now + {UNBLOCKED, IN_USE};
  }

  lemma NextRemoved(ts: seq<Task>, done: nat, kept: seq<Task>)
    requires done < |ts|
    ensures ts[..done + 1] == ts[..done] + [ts[done]] && ts[..done + 1][..done] == ts[..done]
    ensures var waiting, left := kept + ts[done..], ts[done + 1..];
            && waiting[|kept|] == ts[done] && waiting == kept + [ts[done]] + left
            && Removed(waiting, |kept|) == kept + left
  {
    assert ts[done..] == [ts[done]] + ts[done + 1..];
  }

  lemma NextWaits(g: Group, done: nat)
    requires Inv(g) && done < |g.waiting|
    ensures g.waiting[done] in g.value && g.waiting[done] !in g.waiting[..done]
  {
  }
}
