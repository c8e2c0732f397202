/** emitter_plugin.cpp: stash_data, the loop of js_handler and plugin_initialize on the fields they share.
    What the two threads do between the points where they can meet is a step of the protocol each; the
    ghost fields say where each thread stands and record the history that the protocol speaks of. */
module Emitter {
  import opened EmitterProtocol

  class EmitterPlugin {
    var running: bool
    var index: seq<Event>
    var emittedId: int
    var memId: int
    var queue: seq<Event>
    var events: nat
    var slots: nat
    var jsError: bool
    var quitting: bool
    ghost var producer: Producer
    ghost var consumer: Consumer
    ghost var stashed: seq<Event>
    ghost var everEmitted: set<int>
    ghost var life: seq<Event>
    ghost var lifeStart: int

    ghost function View(): State
      reads this
    {
      State(running, index, emittedId, memId, queue, events, slots, producer, consumer, jsError, quitting, false,
            stashed, everEmitted, life, lifeStart)
    }

    /** The process before its first start, over an empty database. */
    constructor ()
      ensures Initial(View()) && Reached(View())
    {
      running, index, emittedId, memId, queue, events, slots := false, [], -1, -1, [], 0, 0;
      producer, consumer, jsError, quitting := Idle, Waiting, false, false;
      stashed, everEmitted, life, lifeStart := [], {}, [], 0;
      new;
      ReachedFirst(View());
    }

    /** The removal loop of stash_data. */
    method RemoveEmitted()
      modifies `index
      ensures index == Pruned(old(index), emittedId)
    {
      ghost var i := 0;
      while |index| > 0 && index[0].pid <= emittedId
        invariant i <= |old(index)| && index == old(index)[i..]
        invariant Removed(old(index), emittedId, i) == Removed(old(index), emittedId, 0)
        decreases |index|
      {
        index := index[1..];
        i := i + 1;
      }
    }

    /** The database part of stash_data. */
    method PruneAndCreateEvent(kind: int, data: seq<int>)
      requires Enabled(View(), PruneAndCreate) && producer == Admitted(kind, data)
      modifies `index, `memId, `producer, `stashed
      ensures View() == Apply(old(View()), PruneAndCreate)
    {
      RemoveEmitted();
      memId := memId + 1;
      index := index + [Event(memId, kind, data)];
      stashed := stashed + [Event(memId, kind, data)];
      producer := Created(kind, data);
    }

    /** stash_data, once the semaphore lets it pass, wherever the consumer stands: nothing leaves the index
        that was not emitted, and the new event is stored, queued and announced under the next pid. */
    method StashData(kind: int, data: seq<int>)
      requires Reached(View()) && running && producer == Idle && slots > 0
      modifies `slots, `index, `memId, `queue, `events, `producer, `stashed
      ensures Reached(View())
      ensures index == Pruned(old(index), emittedId) + [Event(memId, kind, data)] && memId == old(memId) + 1
      ensures forall e :: e in old(index) && e !in index ==> e.pid in everEmitted
      ensures queue == old(queue) + [Event(memId, kind, data)]
      ensures slots == old(slots) - 1 && events == old(events) + 1 && producer == Idle
      ensures stashed == old(stashed) + [Event(memId, kind, data)]
    {
      StoreEvent(kind, data);
      AnnounceEvent(kind, data);
    }

    /** stash_data up to its database part. */
    method StoreEvent(kind: int, data: seq<int>)
      requires Reached(View()) && running && producer == Idle && slots > 0
      modifies `slots, `index, `memId, `producer, `stashed
      ensures Reached(View()) && producer == Created(kind, data) && slots == old(slots) - 1
      ensures index == Pruned(old(index), emittedId) + [Event(memId, kind, data)] && memId == old(memId) + 1
      ensures forall e :: e in old(index) && e !in index ==> e.pid in everEmitted
      ensures stashed == old(stashed) + [Event(memId, kind, data)]
    {
      ReachedPrune(View());
      ghost var s := View();
      slots := slots - 1;
      producer := Admitted(kind, data);
      ReachedNext(s, Wait(kind, data), View());
      s := View();
      PruneAndCreateEvent(kind, data);
      ReachedNext(s, PruneAndCreate, View());
    }

    /** stash_data from its queue part on: the permit follows the event. */
    method AnnounceEvent(kind: int, data: seq<int>)
      requires Reached(View()) && running && producer == Created(kind, data)
      modifies `queue, `events, `producer
      ensures Reached(View()) && producer == Idle
      ensures queue == old(queue) + [Event(memId, kind, data)] && events == old(events) + 1
    {
      ghost var s := View();
      queue := queue + [Event(memId, kind, data)];
      producer := Queued;
      ReachedNext(s, Enqueue, View());
      s := View();
      events := events + 1;
      producer := Idle;
      ReachedNext(s, PostEvent, View());
    }

    /** A permit, once there is one. */
    method TakePermit()
      requires Reached(View()) && running && consumer == Waiting && events > 0
      modifies `events, `consumer
      ensures Reached(View()) && events == old(events) - 1 && consumer == Acquired
    {
      ghost var s := View();
      events := events - 1;
      consumer := Acquired;
      ReachedNext(s, Take, View());
    }

    /** front and pop, under the queue's lock: the queue is never empty here. */
    method PopEvent() returns (obj: Event)
      requires Reached(View()) && Enabled(View(), Pop)
      modifies `queue, `consumer
      ensures Reached(View()) && old(queue) == [obj] + queue && consumer == Holding(obj)
      ensures obj.pid == emittedId + 1 && obj in index
    {
      ReachedPop(View());
      ghost var s := View();
      obj := queue[0];
      queue := queue[1..];
      consumer := Holding(obj);
      ReachedNext(s, Pop, View());
    }

    /** One round of js_handler, once the semaphore lets it pass, wherever the producer stands: the event after
        emitted_id is taken, and is in the index still. If the emit succeeds emitted_id moves on to it and a
        slot is given back; if it fails the event keeps its place in the index, for the next process. */
    method HandleEvent(success: bool) returns (obj: Event)
      requires Reached(View()) && running && consumer == Waiting && events > 0
      modifies `events, `queue, `consumer, `jsError, `quitting, `life, `everEmitted, `emittedId, `slots
      ensures Reached(View())
      ensures old(queue) == [obj] + queue && events == old(events) - 1
      ensures obj.pid == old(emittedId) + 1 && obj in index
      ensures success ==> emittedId == obj.pid && slots == old(slots) + 1 && consumer == Waiting
      ensures success ==> life == old(life) + [obj] && quitting == old(quitting) && jsError == old(jsError)
      ensures !success ==> emittedId == old(emittedId) && slots == old(slots) && life == old(life)
      ensures !success ==> jsError && quitting && consumer == Stopped(obj) && everEmitted == old(everEmitted)
    {
      TakePermit();
      obj := PopEvent();
      if success { FinishEvent(obj); } else { FailEvent(obj); }
    }

    /** A failed emit: the consumer stops, with emitted_id below the event. */
    method FailEvent(obj: Event)
      requires Reached(View()) && running && consumer == Holding(obj)
      modifies `consumer, `jsError, `quitting
      ensures Reached(View()) && jsError && quitting && consumer == Stopped(obj)
    {
      ghost var s := View();
      jsError, quitting := true, true;
      consumer := Stopped(obj);
      ReachedNext(s, EmitFails, View());
    }

    /** The end of a round after a successful emit: emitted_id moves before the slot is given back. */
    method FinishEvent(obj: Event)
      requires Reached(View()) && running && consumer == Holding(obj)
      modifies `consumer, `life, `everEmitted, `emittedId, `slots
      ensures Reached(View()) && everEmitted == old(everEmitted) + {obj.pid}
      ensures emittedId == obj.pid && slots == old(slots) + 1 && consumer == Waiting && life == old(life) + [obj]
    {
      ghost var s := View();
      life, everEmitted := life + [obj], everEmitted + {obj.pid};
      consumer := Emitted(obj);
      ReachedNext(s, EmitSucceeds, View());
      ReleaseSlot(obj);
    }

    method ReleaseSlot(obj: Event)
      requires Reached(View()) && running && consumer == Emitted(obj)
      modifies `consumer, `emittedId, `slots
      ensures Reached(View()) && emittedId == obj.pid && slots == old(slots) + 1 && consumer == Waiting
    {
      ghost var s := View();
      emittedId := obj.pid;
      consumer := Acknowledged;
      ReachedNext(s, Acknowledge, View());
      s := View();
      slots := slots + 1;
      consumer := Waiting;
      ReachedNext(s, PostSlot, View());
    }

    /** The loop of js_handler, for as many permits as there are outcomes of emits: events are emitted in the
        order of the queue, up to the first failure. */
    method HandleEvents(outcomes: seq<bool>) returns (n: nat)
      requires Reached(View()) && running && consumer == Waiting && !quitting && |outcomes| <= events
      modifies `events, `queue, `consumer, `jsError, `quitting, `life, `everEmitted, `emittedId, `slots
      ensures Reached(View()) && n <= |outcomes| <= |old(queue)|
      ensures forall k :: 0 <= k < n ==> outcomes[k]
      ensures if n < |outcomes| then !outcomes[n] && quitting && jsError else !quitting && consumer == Waiting
      ensures life == old(life) + old(queue)[..n] && emittedId == old(emittedId) + n && slots == old(slots) + n
    {
      ReachedPermits(View());
      n := 0;
      while n < |outcomes| && !quitting
        invariant Reached(View()) && n <= |outcomes| <= |old(queue)|
        invariant forall k :: 0 <= k < n ==> outcomes[k]
        invariant !quitting ==> consumer == Waiting && events == old(events) - n && queue == old(queue)[n..]
        invariant quitting ==> n < |outcomes| && !outcomes[n] && jsError
        invariant life == old(life) + old(queue)[..n] && emittedId == old(emittedId) + n && slots == old(slots) + n
        decreases |outcomes| - n, !quitting
      {
        ghost var before := queue;
        var obj := HandleEvent(outcomes[n]);
        assert before[0] == obj && queue == before[1..];
        if outcomes[n] {
          assert old(queue)[..n + 1] == old(queue)[..n] + [obj];
          n := n + 1;
        }
      }
    }

    /** The loop of plugin_initialize: everything in the index is queued again, with a permit each. */
    method QueueIndex() returns (all: seq<Event>, permits: nat)
      ensures all == index && permits == |index|
    {
      all, permits := [], 0;
      var i := 0;
      while i < |index|
        invariant i <= |index| && |all| == i && permits == i
        invariant forall j :: 0 <= j < i ==> all[j] == index[j]
      {
        all := all + [index[i]];
        permits := permits + 1;
        i := i + 1;
      }
    }

    /** The assignments of plugin_initialize. */
    method LoadState()
      modifies `running, `producer, `consumer, `quitting, `jsError, `queue, `events, `slots, `emittedId, `memId,
        `life, `lifeStart
      ensures running && producer == Idle && consumer == Waiting && !quitting && !jsError
      ensures queue == index && events == |index| && slots == FreeSlots(|index|)
      ensures emittedId == OldestPid(index) - 1 && memId == LatestPid(index)
      ensures life == [] && lifeStart == OldestPid(index)
    {
      var oldest, latest := 0, -1;
      if index != [] { oldest, latest := index[0].pid, index[|index| - 1].pid; }
      var all, permits := QueueIndex();
      slots := FreeSlots(|index|);
      emittedId, memId, lifeStart := oldest - 1, latest, oldest;
      queue, events, life := all, permits, [];
      running, producer, consumer, quitting, jsError := true, Idle, Waiting, false, false;
    }

    /** plugin_initialize, after a crash or a first start: the permits of the two semaphores together are the
        capacity, and everything that survived is queued. */
    method PluginInitialize()
      requires Reached(View()) && !running
      modifies `running, `producer, `consumer, `quitting, `jsError, `queue, `events, `slots, `emittedId, `memId,
        `life, `lifeStart
      ensures Reached(View()) && running && producer == Idle && consumer == Waiting && !quitting && !jsError
      ensures queue == index && events == |index| && slots + events == 30000 && life == []
      ensures if index == [] then emittedId == memId == -1
              else emittedId == index[0].pid - 1 && memId == index[|index| - 1].pid
    {
      ReachedSize(View());
      ghost var s := View();
      LoadState();
      ReachedNext(s, Initialize, View());
    }
  }
}
