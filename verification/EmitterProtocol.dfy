/** The event emitter of emitter_plugin.cpp as a state machine: one producer (stash_data), one consumer
    (js_handler), two semaphores, a queue, and an index that survives crashes. Each step is a stretch of
    the code that no other thread can observe half done. */
module EmitterProtocol {

  const MAX_DB_SIZE: nat := 30000

  datatype Event = Event(pid: int, kind: int, data: seq<int>)

  /** Where stash_data stands: outside; past the wait for a slot; past prune and create; past the queue. */
  datatype Producer = Idle | Admitted(kind: int, data: seq<int>) | Created(kind: int, data: seq<int>) | Queued

  /** Where js_handler stands: at the loop head; past the wait; with an event popped; past a successful
      emit; past emitted_id; or out of the loop after a failed emit. */
  datatype Consumer =
    | Waiting | Acquired | Holding(event: Event) | Emitted(event: Event) | Acknowledged | Stopped(event: Event)

  /** The fields up to broken are the system's; the others record its history. */
  datatype State = State(
    running: bool, index: seq<Event>, emittedId: int, memId: int, queue: seq<Event>, events: nat, slots: nat,
    producer: Producer, consumer: Consumer, jsError: bool, quitting: bool, broken: bool,
    stashed: seq<Event>, everEmitted: set<int>, life: seq<Event>, lifeStart: int)

  datatype Step =
    | Wait(kind: int, data: seq<int>) | PruneAndCreate | Enqueue | PostEvent
    | Take | Pop | EmitSucceeds | EmitFails | Acknowledge | PostSlot
    | Quit | Crash | Initialize

  /** How many leading events the removal loop of stash_data takes. */
  function Removed(index: seq<Event>, emittedId: int, i: nat): (k: nat)
    requires i <= |index|
    ensures i <= k <= |index| && (k < |index| ==> index[k].pid > emittedId)
    ensures forall j :: i <= j < k ==> index[j].pid <= emittedId
    decreases |index| - i
  {
    if i == |index| || index[i].pid > emittedId then i else Removed(index, emittedId, i + 1)
  }

  /** The index after the removal loop of stash_data. */
  function Pruned(index: seq<Event>, emittedId: int): seq<Event> { index[Removed(index, emittedId, 0)..] }

  /** The size of the semaphore that plugin_initialize creates. */
  function FreeSlots(size: nat): nat { if MAX_DB_SIZE > size then MAX_DB_SIZE - size else 0 }

  predicate Enabled(s: State, step: Step) {
    match step
    case Wait(_, _) => s.running && s.producer.Idle? && s.slots > 0
    case PruneAndCreate => s.running && s.producer.Admitted?
    case Enqueue => s.running && s.producer.Created?
    case PostEvent => s.running && s.producer.Queued?
    case Take => s.running && s.consumer.Waiting? && s.events > 0
    case Pop => s.running && s.consumer.Acquired?
    case EmitSucceeds => s.running && s.consumer.Holding?
    case EmitFails => s.running && s.consumer.Holding?
    case Acknowledge => s.running && s.consumer.Emitted?
    case PostSlot => s.running && s.consumer.Acknowledged?
    case Quit => s.running
    case Crash => s.running
    case Initialize => !s.running
  }

  /** What each step does. Popping from an empty queue is undefined behaviour: it breaks the state. */
  function Apply(s: State, step: Step): State
    requires Enabled(s, step)
  {
    match step
    case Wait(kind, data) => s.(slots := s.slots - 1, producer := Admitted(kind, data))
    case PruneAndCreate =>
      var e := Event(s.memId + 1, s.producer.kind, s.producer.data);
      s.(index := Pruned(s.index, s.emittedId) + [e], memId := s.memId + 1,
         producer := Created(s.producer.kind, s.producer.data), stashed := s.stashed + [e])
    case Enqueue =>
      s.(queue := s.queue + [Event(s.memId, s.producer.kind, s.producer.data)], producer := Queued)
    case PostEvent => s.(events := s.events + 1, producer := Idle)
    case Take => s.(events := s.events - 1, consumer := Acquired)
    case Pop =>
      if s.queue == [] then s.(broken := true) else s.(queue := s.queue[1..], consumer := Holding(s.queue[0]))
    case EmitSucceeds =>
      s.(consumer := Emitted(s.consumer.event), life := s.life + [s.consumer.event],
         everEmitted := s.everEmitted + {s.consumer.event.pid})
    case EmitFails => s.(consumer := Stopped(s.consumer.event), jsError := true, quitting := true)
    case Acknowledge => s.(emittedId := s.consumer.event.pid, consumer := Acknowledged)
    case PostSlot => s.(slots := s.slots + 1, consumer := Waiting)
    case Quit => s.(quitting := true)
    case Crash => s.(running := false)
    case Initialize => Initialized(s)
  }

  function OldestPid(index: seq<Event>): int { if index == [] then 0 else index[0].pid }

  function LatestPid(index: seq<Event>): int { if index == [] then -1 else index[|index| - 1].pid }

  /** plugin_initialize: what the index says is all that is left. */
  function Initialized(s: State): State {
    s.(running := true, producer := Idle, consumer := Waiting, jsError := false, quitting := false,
       emittedId := OldestPid(s.index) - 1, memId := LatestPid(s.index),
       queue := s.index, events := |s.index|, slots := FreeSlots(|s.index|),
       life := [], lifeStart := OldestPid(s.index))
  }

  /** Before the first start the index is empty. */
  predicate Initial(s: State) {
    !s.running && s.index == [] && !s.broken && s.stashed == [] && s.everEmitted == {}
  }

  /** A run: any interleaving of steps, with a crash and a restart possible at any of them. */
  ghost predicate Run(states: seq<State>, steps: seq<Step>) {
    |states| == |steps| + 1 && Initial(states[0]) &&
    forall i :: 0 <= i < |steps| ==> Leads(states[i], steps[i], states[i + 1])
  }

  predicate Leads(s: State, step: Step, t: State) { Enabled(s, step) && t == Apply(s, step) }

  // ---------------------------------------------------------------- the invariant

  /** part consists of the events from position k on. */
  ghost predicate IsPart(part: seq<Event>, all: seq<Event>, k: int) {
    0 <= k && k + |part| <= |all| && forall j :: 0 <= j < |part| ==> part[j] == all[k + j]
  }

  /** The first pid still in the index. */
  function First(s: State): int { |s.stashed| - |s.index| }

  function Count(b: bool): nat { if b then 1 else 0 }

  /** The consumer has an event that is neither in the queue nor covered by emitted_id. */
  predicate HasEvent(c: Consumer) { c.Holding? || c.Emitted? || c.Stopped? }

  /** Pids are handed out in order; the index holds the latest of them. */
  ghost predicate IndexKept(s: State) {
    && (forall p :: 0 <= p < |s.stashed| ==> s.stashed[p].pid == p)
    && IsPart(s.index, s.stashed, First(s)) && (s.stashed != [] ==> s.index != []) && |s.index| <= MAX_DB_SIZE
    && (forall p :: 0 <= p < First(s) ==> p in s.everEmitted)
  }

  /** Where the counters stand. */
  ghost predicate CountersKept(s: State) {
    && s.memId == |s.stashed| - 1 && First(s) - 1 <= s.emittedId <= s.memId
    && (forall p :: 0 <= p <= s.emittedId ==> p in s.everEmitted)
    && (s.consumer.Emitted? ==> s.emittedId + 1 in s.everEmitted)
  }

  /** The queue holds the events between the consumer's and the producer's position. */
  ghost predicate QueueKept(s: State) {
    && s.emittedId >= -1 && IsPart(s.queue, s.stashed, s.emittedId + 1 + Count(HasEvent(s.consumer)))
    && s.emittedId + 1 + Count(HasEvent(s.consumer)) + |s.queue| + Count(s.producer.Created?) == |s.stashed|
    && (HasEvent(s.consumer) ==> s.consumer.event == s.stashed[s.emittedId + 1])
    && (s.producer.Created? ==>
          s.stashed[|s.stashed| - 1] == Event(s.memId, s.producer.kind, s.producer.data))
  }

  /** This life has emitted the events from its first one to the consumer's position. */
  ghost predicate LifeKept(s: State) {
    && IsPart(s.life, s.stashed, s.lifeStart)
    && s.lifeStart + |s.life| == s.emittedId + 1 + Count(s.consumer.Emitted?)
  }

  /** No permit is lost or made up. */
  predicate PermitsKept(s: State) {
    && s.events + Count(s.consumer.Acquired?) + Count(s.producer.Queued?) == |s.queue|
    && s.slots + (s.memId - s.emittedId) + Count(s.producer.Admitted?) + Count(s.consumer.Acknowledged?) == MAX_DB_SIZE
  }

  ghost predicate Inv(s: State) {
    && !s.broken && IndexKept(s)
    && (s.running ==> CountersKept(s) && QueueKept(s) && LifeKept(s) && PermitsKept(s))
  }

  lemma StepKeepsInv(s: State, step: Step)
    requires Inv(s) && Enabled(s, step)
    ensures Inv(Apply(s, step))
  {
    match step
    case PruneAndCreate => CreateKeepsInv(s);
    case Enqueue => EnqueueKeepsInv(s);
    case Pop => PopKeepsInv(s);
    case EmitSucceeds => EmitKeepsInv(s);
    case EmitFails => FailedEmitKeepsInv(s);
    case Acknowledge => AcknowledgeKeepsInv(s);
    case Initialize => InitializeKeepsInv(s);
    case Wait(_, _) => WaitKeepsInv(s, step);
    case PostEvent => PostEventKeepsInv(s);
    case Take => TakeKeepsInv(s);
    case PostSlot => PostSlotKeepsInv(s);
    case Quit => QuitKeepsInv(s);
    case Crash => CrashKeepsInv(s);
  }

  lemma CrashKeepsInv(s: State)
    requires Inv(s) && Enabled(s, Crash)
    ensures Inv(Apply(s, Crash))
  {}

  lemma QuitKeepsInv(s: State)
    requires Inv(s) && Enabled(s, Quit)
    ensures Inv(Apply(s, Quit))
  {}

  lemma WaitKeepsInv(s: State, step: Step)
    requires Inv(s) && Enabled(s, step) && step.Wait?
    ensures Inv(Apply(s, step))
  {}

  lemma PostEventKeepsInv(s: State)
    requires Inv(s) && Enabled(s, PostEvent)
    ensures Inv(Apply(s, PostEvent))
  {}

  lemma TakeKeepsInv(s: State)
    requires Inv(s) && Enabled(s, Take)
    ensures Inv(Apply(s, Take))
  {}

  lemma PostSlotKeepsInv(s: State)
    requires Inv(s) && Enabled(s, PostSlot)
    ensures Inv(Apply(s, PostSlot))
  {}

  lemma FailedEmitKeepsInv(s: State)
    requires Inv(s) && Enabled(s, EmitFails)
    ensures Inv(Apply(s, EmitFails))
  {}

  /** Pruning removes exactly the events up to emitted_id. */
  lemma PrunedIndex(s: State)
    requires IndexKept(s) && CountersKept(s)
    ensures |Pruned(s.index, s.emittedId)| == s.memId - s.emittedId
    ensures IsPart(Pruned(s.index, s.emittedId), s.stashed, s.emittedId + 1)
  {
    var k := Removed(s.index, s.emittedId, 0);
    if k < |s.index| { PidInIndex(s, k); }
    if k > 0 { PidInIndex(s, k - 1); }
  }

  /** An event that pruning removes has been emitted. */
  lemma PruningDropsEmitted(s: State, e: Event)
    requires IndexKept(s) && CountersKept(s) && e in s.index
    ensures e in Pruned(s.index, s.emittedId) || (e.pid <= s.emittedId && e.pid in s.everEmitted)
  {
    var k := Removed(s.index, s.emittedId, 0);
    var j :| 0 <= j < |s.index| && s.index[j] == e;
    PidInIndex(s, j);
    if k <= j { assert Pruned(s.index, s.emittedId)[j - k] == e; }
  }

  /** The event at the consumer's hand is the one after emitted_id, and is still in the index. */
  lemma NextEvent(s: State)
    requires Inv(s) && Enabled(s, Pop)
    ensures s.queue != [] && s.queue[0].pid == s.emittedId + 1 && s.queue[0] in s.index
  {
    PartPopped(s.queue, s.stashed, s.emittedId + 1);
    assert s.index[s.emittedId + 1 - First(s)] == s.stashed[s.emittedId + 1];
  }

  lemma PidInIndex(s: State, j: nat)
    requires IndexKept(s) && j < |s.index|
    ensures s.index[j].pid == First(s) + j
  {
    assert s.index[j] == s.stashed[First(s) + j];
  }

  lemma PartGrows(part: seq<Event>, all: seq<Event>, k: int, e: Event)
    requires IsPart(part, all, k)
    ensures IsPart(part, all + [e], k)
    ensures k + |part| == |all| ==> IsPart(part + [e], all + [e], k)
  {}

  lemma PidsGrow(all: seq<Event>, e: Event)
    requires (forall p :: 0 <= p < |all| ==> all[p].pid == p) && e.pid == |all|
    ensures forall p :: 0 <= p < |all + [e]| ==> (all + [e])[p].pid == p
  {}

  lemma CreateKeepsIndex(s: State, t: State, e: Event)
    requires IndexKept(s) && CountersKept(s) && s.memId - s.emittedId < MAX_DB_SIZE && e.pid == s.memId + 1
    requires t.index == Pruned(s.index, s.emittedId) + [e] && t.stashed == s.stashed + [e]
    requires t.everEmitted == s.everEmitted
    ensures First(t) == s.emittedId + 1 && IndexKept(t)
  {
    PrunedIndex(s);
    PartGrows(Pruned(s.index, s.emittedId), s.stashed, s.emittedId + 1, e);
    PidsGrow(s.stashed, e);
  }

  lemma CreateKeepsInv(s: State)
    requires Inv(s) && Enabled(s, PruneAndCreate)
    ensures Inv(Apply(s, PruneAndCreate))
  {
    var t := Apply(s, PruneAndCreate);
    var e := t.stashed[|s.stashed|];
    CreateKeepsQueue(s, t, e);
    CreateKeepsIndex(s, t, e);
  }

  lemma CreateKeepsQueue(s: State, t: State, e: Event)
    requires Inv(s) && Enabled(s, PruneAndCreate) && t == Apply(s, PruneAndCreate) && t.stashed == s.stashed + [e]
    ensures QueueKept(t) && LifeKept(t)
  {
    PartGrows(s.queue, s.stashed, s.emittedId + 1 + Count(HasEvent(s.consumer)), e);
    PartGrows(s.life, s.stashed, s.lifeStart, e);
  }

  lemma EnqueueKeepsInv(s: State)
    requires Inv(s) && Enabled(s, Enqueue)
    ensures Inv(Apply(s, Enqueue))
  {
    PartExtended(s.queue, s.stashed, s.emittedId + 1 + Count(HasEvent(s.consumer)));
  }

  lemma PopKeepsInv(s: State)
    requires Inv(s) && Enabled(s, Pop)
    ensures Inv(Apply(s, Pop))
  {
    PartPopped(s.queue, s.stashed, s.emittedId + 1);
  }

  lemma PartPopped(part: seq<Event>, all: seq<Event>, k: int)
    requires IsPart(part, all, k) && part != []
    ensures IsPart(part[1..], all, k + 1) && part[0] == all[k]
  {}

  lemma EmitKeepsInv(s: State)
    requires Inv(s) && Enabled(s, EmitSucceeds)
    ensures Inv(Apply(s, EmitSucceeds))
  {
    PartExtended(s.life, s.stashed, s.lifeStart);
  }

  lemma PartExtended(part: seq<Event>, all: seq<Event>, k: int)
    requires IsPart(part, all, k) && k + |part| < |all|
    ensures IsPart(part + [all[k + |part|]], all, k)
  {}

  lemma AcknowledgeKeepsInv(s: State)
    requires Inv(s) && Enabled(s, Acknowledge)
    ensures Inv(Apply(s, Acknowledge))
  {
    assert s.consumer.event.pid == s.emittedId + 1;
  }

  lemma InitializeKeepsInv(s: State)
    requires Inv(s) && Enabled(s, Initialize)
    ensures Inv(Apply(s, Initialize))
  {
    if s.index != [] {
      assert s.index[0].pid == First(s) && s.index[|s.index| - 1].pid == |s.stashed| - 1;
    }
  }

  lemma {:induction false} RunKeepsInv(states: seq<State>, steps: seq<Step>, i: nat)
    requires Run(states, steps) && i < |states|
    ensures Inv(states[i])
  {
    if i > 0 {
      RunKeepsInv(states, steps, i - 1);
      assert Leads(states[i - 1], steps[i - 1], states[i]);
      StepKeepsInv(states[i - 1], steps[i - 1]);
    }
  }

  // ---------------------------------------------------------------- what every run satisfies

  /** Free slots and events not yet acknowledged never exceed 30000 together, the index never
      exceeds it alone, and the consumer never pops from an empty queue. */
  lemma BoundsHold(states: seq<State>, steps: seq<Step>, i: nat)
    requires Run(states, steps) && i < |states|
    ensures var s := states[i];
      !s.broken && |s.index| <= 30000 && (Enabled(s, Pop) ==> s.queue != []) &&
      (s.running ==> s.slots + (s.memId - s.emittedId) <= 30000)
  {
    RunKeepsInv(states, steps, i);
  }

  /** The history of stashed events only grows. */
  lemma {:induction false} HistoryGrows(states: seq<State>, steps: seq<Step>, i: nat, j: nat)
    requires Run(states, steps) && i <= j < |states|
    ensures IsPart(states[i].stashed, states[j].stashed, 0)
    decreases j
  {
    if i < j {
      HistoryGrows(states, steps, i, j - 1);
      assert Leads(states[j - 1], steps[j - 1], states[j]);
      StashedGrows(states[j - 1], steps[j - 1]);
      PartOfPart(states[i].stashed, states[j - 1].stashed, states[j].stashed);
    }
  }

  lemma PartOfPart(a: seq<Event>, b: seq<Event>, c: seq<Event>)
    requires IsPart(a, b, 0) && IsPart(b, c, 0)
    ensures IsPart(a, c, 0)
  {}

  lemma StashedGrows(s: State, step: Step)
    requires Enabled(s, step)
    ensures IsPart(s.stashed, Apply(s, step).stashed, 0)
  {}

  lemma EmittedNow(s: State, step: Step, p: int)
    requires Inv(s) && Enabled(s, step) && p in Apply(s, step).everEmitted && p !in s.everEmitted
    ensures step.EmitSucceeds? && 0 <= p < |s.stashed| && s.consumer.event == s.stashed[p]
  {
    assert s.consumer.event == s.stashed[s.emittedId + 1];
  }

  /** At step j the event was emitted successfully. */
  predicate EmittedAt(states: seq<State>, steps: seq<Step>, j: nat, e: Event)
    requires |states| == |steps| + 1 && j < |steps|
  {
    steps[j].EmitSucceeds? && states[j].consumer.Holding? && states[j].consumer.event == e
  }

  lemma {:induction false} EmittedInHistory(states: seq<State>, steps: seq<Step>, i: nat, p: int)
    requires Run(states, steps) && i < |states| && p in states[i].everEmitted
    ensures 0 <= p < |states[i].stashed|
    ensures exists j: nat :: j < i && EmittedAt(states, steps, j, states[i].stashed[p])
  {
    assert i > 0;
    var s, step := states[i - 1], steps[i - 1];
    assert Leads(s, step, states[i]);
    StashedGrows(s, step);
    if p in s.everEmitted {
      EmittedInHistory(states, steps, i - 1, p);
    } else {
      RunKeepsInv(states, steps, i - 1);
      EmittedNow(s, step, p);
      assert EmittedAt(states, steps, i - 1, states[i].stashed[p]);
    }
  }

  /** No stashed event leaves the index before a successful emit, whatever crashes lie between. */
  lemma OnlyEmittedEventsLeave(states: seq<State>, steps: seq<Step>, i: nat, p: nat)
    requires Run(states, steps) && i < |states| && p < |states[i].stashed|
    ensures states[i].stashed[p] in states[i].index ||
      exists j: nat :: j < i && EmittedAt(states, steps, j, states[i].stashed[p])
  {
    var s := states[i];
    RunKeepsInv(states, steps, i);
    if p < First(s) {
      EmittedInHistory(states, steps, i, p);
    } else {
      assert s.index[p - First(s)] == s.stashed[p];
    }
  }

  /** Within one process life the emitted events have consecutive increasing pids. */
  lemma LifeInOrder(states: seq<State>, steps: seq<Step>, i: nat, k: nat)
    requires Run(states, steps) && i < |states| && states[i].running && k < |states[i].life|
    ensures states[i].life[k].pid == states[i].lifeStart + k
    ensures 0 <= states[i].lifeStart && states[i].lifeStart + k < |states[i].stashed|
    ensures states[i].life[k] == states[i].stashed[states[i].lifeStart + k]
  {
    RunKeepsInv(states, steps, i);
  }

  /** Each life starts with the smallest persisted pid, or with 0 if there is none. */
  lemma LifeStartsAtOldest(states: seq<State>, steps: seq<Step>, i: nat)
    requires Run(states, steps) && i < |steps| && steps[i].Initialize?
    ensures states[i + 1].life == []
    ensures if states[i].index == [] then states[i + 1].lifeStart == 0
            else states[i + 1].lifeStart == states[i].index[0].pid
    ensures forall e :: e in states[i].index ==> states[i + 1].lifeStart <= e.pid
  {
    var s := states[i];
    RunKeepsInv(states, steps, i);
    assert Leads(s, steps[i], states[i + 1]);
    forall e | e in s.index ensures states[i + 1].lifeStart <= e.pid {
      var j :| 0 <= j < |s.index| && s.index[j] == e;
      PidInIndex(s, j);
      PidInIndex(s, 0);
    }
  }

  /** A new event's pid has never been used before; this works because the index, which alone survives a
      crash, is never empty after the first stash and holds the last pid. */
  lemma PidsNeverReused(states: seq<State>, steps: seq<Step>, i: nat, j: nat, p: nat)
    requires Run(states, steps) && i < |steps| && steps[i].PruneAndCreate?
    requires j <= i && p < |states[j].stashed|
    ensures states[j].stashed[p].pid < states[i + 1].memId
    ensures states[i + 1].index != [] && states[i + 1].index[|states[i + 1].index| - 1].pid == states[i + 1].memId
  {
    RunKeepsInv(states, steps, i);
    RunKeepsInv(states, steps, j);
    HistoryGrows(states, steps, j, i);
    assert Leads(states[i], steps[i], states[i + 1]);
  }

  lemma IndexNeverEmptyAgain(states: seq<State>, steps: seq<Step>, i: nat, j: nat)
    requires Run(states, steps) && i <= j < |states| && states[i].stashed != []
    ensures states[j].index != []
  {
    HistoryGrows(states, steps, i, j);
    RunKeepsInv(states, steps, j);
  }

  /** While the process runs, an event never emitted is in the queue, with the consumer, or about to be
      queued. */
  lemma PendingEventsAreOnTheWay(states: seq<State>, steps: seq<Step>, i: nat, p: nat)
    requires Run(states, steps) && i < |states| && states[i].running
    requires p < |states[i].stashed| && p !in states[i].everEmitted
    ensures var s := states[i]; var e := s.stashed[p];
      e in s.queue || (HasEvent(s.consumer) && s.consumer.event == e) || (s.producer.Created? && p == s.memId)
  {
    var s := states[i];
    RunKeepsInv(states, steps, i);
    var start := s.emittedId + 1 + Count(HasEvent(s.consumer));
    if start <= p < start + |s.queue| { assert s.queue[p - start] == s.stashed[p]; }
  }

  /** Past a failed emit or a quit nothing need happen; otherwise pending events always leave a step to
      take other than waiting for a slot: the two semaphores cannot deadlock. */
  lemma NoDeadlock(states: seq<State>, steps: seq<Step>, i: nat)
    requires Run(states, steps) && i < |states|
    requires states[i].running && !states[i].quitting && !states[i].consumer.Stopped?
    requires states[i].emittedId < states[i].memId || states[i].slots == 0
    ensures var s := states[i];
      Enabled(s, PruneAndCreate) || Enabled(s, Enqueue) || Enabled(s, PostEvent) || Enabled(s, Take) ||
      Enabled(s, Pop) || Enabled(s, EmitSucceeds) || Enabled(s, Acknowledge) || Enabled(s, PostSlot)
  {
    RunKeepsInv(states, steps, i);
  }

  // ---------------------------------------------------------------- the states that runs reach

  ghost predicate Reached(s: State) {
    exists states: seq<State>, steps: seq<Step> :: Run(states, steps) && states[|steps|] == s
  }

  lemma ReachedFirst(s: State)
    requires Initial(s)
    ensures Reached(s)
  {
    assert Run([s], []) && [s][0] == s;
  }

  lemma ReachedNext(s: State, step: Step, t: State)
    requires Reached(s) && Leads(s, step, t)
    ensures Reached(t)
  {
    var states: seq<State>, steps: seq<Step> :| Run(states, steps) && states[|steps|] == s;
    RunExtends(states, steps, step, t);
  }

  lemma RunExtends(states: seq<State>, steps: seq<Step>, step: Step, t: State)
    requires Run(states, steps) && Leads(states[|steps|], step, t)
    ensures Run(states + [t], steps + [step]) && (states + [t])[|steps + [step]|] == t
  {}

  lemma ReachedInv(s: State)
    requires Reached(s)
    ensures Inv(s)
  {
    var states: seq<State>, steps: seq<Step> :| Run(states, steps) && states[|steps|] == s;
    RunKeepsInv(states, steps, |steps|);
  }

  /** Whoever is about to pop finds the event after emitted_id, and the index still has it. */
  lemma ReachedPop(s: State)
    requires Reached(s) && Enabled(s, Pop)
    ensures s.queue != [] && s.queue[0].pid == s.emittedId + 1 && s.queue[0] in s.index
  {
    ReachedInv(s);
    NextEvent(s);
  }

  /** What pruning removes has been emitted. */
  lemma ReachedPrune(s: State)
    requires Reached(s) && s.running
    ensures forall e :: e in s.index && e !in Pruned(s.index, s.emittedId) ==> e.pid in s.everEmitted
  {
    ReachedInv(s);
    forall e | e in s.index && e !in Pruned(s.index, s.emittedId)
      ensures e.pid in s.everEmitted
    {
      PruningDropsEmitted(s, e);
    }
  }

  /** The index never holds more than there are slots. */
  lemma ReachedSize(s: State)
    requires Reached(s)
    ensures |s.index| <= MAX_DB_SIZE
  {
    ReachedInv(s);
  }

  /** There is a queued event for every permit. */
  lemma ReachedPermits(s: State)
    requires Reached(s) && s.running
    ensures s.events <= |s.queue|
  {
    ReachedInv(s);
  }
}
