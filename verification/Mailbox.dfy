/**
  The one-slot mailbox between the reader thread and the caller: Enqueue and Dequeue of
  src/libmqtt/MQTTLinux.c as interleaved atomic steps of one producer and one consumer. A
  critical section under the mutex is one step, and so is an operation on the semaphore.
*/
module Mailbox {
  import opened Common
  import MqttPacket

  type Item = n: nat | 0 < n witness 1

  // Where the producer is: outside Enqueue, before it looks at the slot, in SemaphoreWait,
  // before it stores, before it signals
  datatype Producer = Outside | Looking(item: Item) | Waiting(item: Item) | Storing(item: Item) | Signalling

  // Where the consumer is: outside Dequeue, before it looks at the slot, in
  // SemaphoreTimedWait, before it clears the slot, before it signals. None is a call that has
  // timed out.
  datatype Consumer = Away | Peeking | Timing | Clearing(found: Option<Item>) | Posting(found: Option<Item>)

  // How an item left the slot: returned by the call that cleared it, or not
  datatype Removal = Taken(item: Item) | Lost(item: Item)

  datatype State = State(
    slot: nat,                  // queue->item, 0 if empty
    semaphore: nat,
    producer: Producer,
    consumer: Consumer,
    given: seq<Item>,           // the arguments of Enqueue
    stored: seq<Item>,
    removed: seq<Removal>,
    returned: seq<Item>)        // the results of the calls of Dequeue that succeeded

  const INITIAL := State(0, 0, Outside, Away, [], [], [], [])

  // A schedule decides who moves next. A wait on the semaphore ends when it is positive; the
  // producer's may also be interrupted, and the consumer's may fail or time out.
  datatype Move = Enqueue(item: Item) | Produce(interrupted: bool) | Dequeue | Consume(timeout: bool)

  function Step(s: State, m: Move): State {
    match m
    case Enqueue(item) =>
      if s.producer.Outside? then s.(producer := Looking(item), given := s.given + [item]) else s
    case Produce(interrupted) => ProducerStep(s, interrupted)
    case Dequeue =>
      if s.consumer.Away? then s.(consumer := Peeking) else s
    case Consume(timeout) => ConsumerStep(s, timeout)
  }

  function ProducerStep(s: State, interrupted: bool): State {
    match s.producer
    case Outside => s
    case Looking(item) => s.(producer := if s.slot != 0 then Waiting(item) else Storing(item))
    case Waiting(item) =>
      if interrupted then s.(producer := Looking(item))
      else if s.semaphore > 0 then s.(producer := Looking(item), semaphore := s.semaphore - 1)
      else s
    case Storing(item) => s.(producer := Signalling, slot := item, stored := s.stored + [item])
    case Signalling => s.(producer := Outside, semaphore := s.semaphore + 1)
  }

  function ConsumerStep(s: State, timeout: bool): State {
    match s.consumer
    case Away => s
    case Peeking => s.(consumer := if s.slot != 0 then Clearing(Some(s.slot)) else Timing)
    case Timing =>
      if timeout then s.(consumer := Clearing(None))
      else if s.semaphore > 0 then s.(consumer := Peeking, semaphore := s.semaphore - 1)
      else s
    case Clearing(found) =>
      var out := if s.slot == 0 then [] else if found.Some? then [Taken(s.slot)] else [Lost(s.slot)];
      s.(consumer := Posting(found), slot := 0, removed := s.removed + out)
    case Posting(found) =>
      s.(consumer := Away, semaphore := s.semaphore + 1,
         returned := s.returned + if found.Some? then [found.value] else [])
  }

  function Run(schedule: seq<Move>): State {
    if schedule == [] then INITIAL
    else Step(Run(schedule[..|schedule| - 1]), schedule[|schedule| - 1])
  }

  // ---- The invariant ----

  function Items(removed: seq<Removal>): seq<Item> {
    if removed == [] then [] else Items(removed[..|removed| - 1]) + [removed[|removed| - 1].item]
  }

  function TakenItems(removed: seq<Removal>): seq<Item> {
    if removed == [] then [] else
    var r := removed[|removed| - 1];
    TakenItems(removed[..|removed| - 1]) + if r.Taken? then [r.item] else []
  }

  function InSlot(s: State): seq<Item> {
    if s.slot == 0 then [] else [s.slot]
  }

  // The item of an Enqueue that has not stored it yet
  function Pending(p: Producer): seq<Item> {
    if p.Looking? || p.Waiting? || p.Storing? then [p.item] else []
  }

  // The item a Dequeue has taken out but not returned yet
  function Carried(c: Consumer): seq<Item> {
    if c.Posting? && c.found.Some? then [c.found.value] else []
  }

  ghost predicate Inv(s: State) {
    && s.given == s.stored + Pending(s.producer)
    && s.stored == Items(s.removed) + InSlot(s)
    && TakenItems(s.removed) == s.returned + Carried(s.consumer)
    && (s.producer.Storing? ==> s.slot == 0)
    && (s.consumer.Clearing? && s.consumer.found.Some? ==> s.slot == s.consumer.found.value)
  }

  lemma Removing(removed: seq<Removal>, r: Removal)
    ensures Items(removed + [r]) == Items(removed) + [r.item]
    ensures TakenItems(removed + [r]) == if r.Taken? then TakenItems(removed) + [r.item] else TakenItems(removed)
  {}

  lemma ProducerKeeps(s: State, interrupted: bool)
    requires Inv(s)
    ensures Inv(ProducerStep(s, interrupted))
  {}

  lemma ConsumerKeeps(s: State, timeout: bool)
    requires Inv(s)
    ensures Inv(ConsumerStep(s, timeout))
  {
    hide Items, TakenItems;
    if s.consumer.Clearing? {
      ClearingKeeps(s);
    } else if s.consumer.Posting? {
      assert s.returned + Carried(s.consumer) + [] == s.returned + Carried(s.consumer);
    }
  }

  lemma ClearingKeeps(s: State)
    requires Inv(s) && s.consumer.Clearing?
    ensures Inv(ConsumerStep(s, false)) && ConsumerStep(s, false) == ConsumerStep(s, true)
  {
    hide Items, TakenItems;
    if s.slot == 0 {
      assert s.removed + [] == s.removed;
    } else {
      var r: Removal := if s.consumer.found.Some? then Taken(s.slot) else Lost(s.slot);
      Removing(s.removed, r);
      assert Items(s.removed) + [s.slot] + [] == Items(s.removed) + [s.slot];
      assert TakenItems(s.removed) == s.returned + [] == s.returned;
    }
  }

  lemma StepKeeps(s: State, m: Move)
    requires Inv(s)
    ensures Inv(Step(s, m))
  {
    hide Items, TakenItems, ProducerStep, ConsumerStep;
    match m
    case Enqueue(item) => assert s.producer.Outside? ==> s.given + [item] == s.stored + [item];
    case Produce(interrupted) => ProducerKeeps(s, interrupted);
    case Dequeue =>
    case Consume(timeout) => ConsumerKeeps(s, timeout);
  }

  lemma {:induction false} RunKeeps(schedule: seq<Move>)
    ensures Inv(Run(schedule))
  {
    if schedule != [] {
      RunKeeps(schedule[..|schedule| - 1]);
      StepKeeps(Run(schedule[..|schedule| - 1]), schedule[|schedule| - 1]);
    }
  }

  // ---- What the mailbox guarantees ----

  // However the two threads interleave, the items given to Enqueue are, in order, those that
  // have left the slot, the one in it, and the one still to be stored; what Dequeue returned,
  // with what it is about to return, is what has been taken out.
  lemma {:induction false} Conservation(schedule: seq<Move>)
    ensures var s := Run(schedule);
      && s.given == Items(s.removed) + InSlot(s) + Pending(s.producer)
      && TakenItems(s.removed) == s.returned + Carried(s.consumer)
  {
    RunKeeps(schedule);
  }

  // No store overwrites an item that has not been read: the slot changes from one item to
  // another only by way of the empty slot.
  lemma NoOverwrite(schedule: seq<Move>, m: Move)
    requires Run(schedule).slot != 0 && Run(schedule + [m]).slot != 0
    ensures Run(schedule + [m]).slot == Run(schedule).slot && Run(schedule + [m]).stored == Run(schedule).stored
  {
    assert (schedule + [m])[..|schedule|] == schedule;
    RunKeeps(schedule);
  }

  ghost predicate Subsequence(a: seq<Item>, b: seq<Item>) {
    if b == [] then a == []
    else
      || (a != [] && a[|a| - 1] == b[|b| - 1] && Subsequence(a[..|a| - 1], b[..|b| - 1]))
      || Subsequence(a, b[..|b| - 1])
  }

  lemma {:induction false} TakenInOrder(removed: seq<Removal>)
    ensures Subsequence(TakenItems(removed), Items(removed))
  {
    if removed != [] {
      TakenInOrder(removed[..|removed| - 1]);
      var t, i, r := TakenItems(removed[..|removed| - 1]), Items(removed[..|removed| - 1]), removed[|removed| - 1];
      assert (i + [r.item])[..|i|] == i && (t + [r.item])[..|t|] == t && t + [] == t;
    }
  }

  lemma {:induction false} Longer(a: seq<Item>, b: seq<Item>, c: seq<Item>)
    requires Subsequence(a, b)
    ensures Subsequence(a, b + c)
  {
    if c == [] {
      assert b + c == b;
    } else {
      Longer(a, b, c[..|c| - 1]);
      assert (b + c)[..|b + c| - 1] == b + c[..|c| - 1];
    }
  }

  lemma {:induction false} Prefix(a: seq<Item>, x: seq<Item>, b: seq<Item>)
    requires Subsequence(a + x, b) && |x| <= 1
    ensures Subsequence(a, b)
  {
    if x == [] {
      assert a + x == a;
    } else if b != [] {
      assert (a + x)[..|a + x| - 1] == a;
      if (a + x)[|a|] == b[|b| - 1] && Subsequence(a, b[..|b| - 1]) {
      } else {
        Prefix(a, x, b[..|b| - 1]);
      }
    }
  }

  // The successful calls of Dequeue return items given to Enqueue, in order and none twice.
  lemma DequeuedInOrder(schedule: seq<Move>)
    ensures Subsequence(Run(schedule).returned, Run(schedule).given)
  {
    RunKeeps(schedule);
    var s := Run(schedule);
    TakenInOrder(s.removed);
    Prefix(s.returned, Carried(s.consumer), Items(s.removed));
    Longer(s.returned, Items(s.removed), InSlot(s) + Pending(s.producer));
    assert s.given == Items(s.removed) + (InSlot(s) + Pending(s.producer));
  }

  predicate TimeoutFree(schedule: seq<Move>) {
    forall i :: 0 <= i < |schedule| ==> schedule[i] != Consume(true)
  }

  lemma {:induction false} NothingLost(schedule: seq<Move>)
    requires TimeoutFree(schedule)
    ensures Items(Run(schedule).removed) == TakenItems(Run(schedule).removed)
    ensures Run(schedule).consumer.Clearing? ==> Run(schedule).consumer.found.Some?
  {
    if schedule != [] {
      var before, m := schedule[..|schedule| - 1], schedule[|schedule| - 1];
      assert TimeoutFree(before);
      NothingLost(before);
      var s := Run(before);
      RunKeeps(before);
      LosslessStep(s, m);
    }
  }

  lemma LosslessStep(s: State, m: Move)
    requires Inv(s) && m != Consume(true)
    requires Items(s.removed) == TakenItems(s.removed) && (s.consumer.Clearing? ==> s.consumer.found.Some?)
    ensures Items(Step(s, m).removed) == TakenItems(Step(s, m).removed)
    ensures Step(s, m).consumer.Clearing? ==> Step(s, m).consumer.found.Some?
  {
    hide Items, TakenItems, Pending, Carried, InSlot;
    assert s.removed + [] == s.removed;
    if m.Consume? && s.consumer.Clearing? && s.slot != 0 {
      Removing(s.removed, Taken(s.slot));
    }
  }

  // Every item given is returned, in order: what is missing at the end is at most one item on
  // the consumer's side, one in the slot and one on the producer's side.
  predicate Lossless(s: State) {
    s.given == s.returned + Carried(s.consumer) + InSlot(s) + Pending(s.producer)
  }

  // Without timeouts nothing is discarded.
  lemma LosslessWithoutTimeouts(schedule: seq<Move>)
    requires TimeoutFree(schedule)
    ensures Lossless(Run(schedule))
  {
    RunKeeps(schedule);
    NothingLost(schedule);
  }

  // Each timed-out call of Dequeue loses at most one item.
  function Timeouts(schedule: seq<Move>): nat {
    if schedule == [] then 0 else
    Timeouts(schedule[..|schedule| - 1]) + if schedule[|schedule| - 1] == Consume(true) then 1 else 0
  }

  lemma {:induction false} LossesBounded(schedule: seq<Move>)
    ensures var s := Run(schedule);
      |s.given| <= |s.returned| + Timeouts(schedule) + 3
  {
    RunKeeps(schedule);
    LossCount(schedule);
  }

  lemma {:induction false} LossCount(schedule: seq<Move>)
    ensures var s := Run(schedule);
      |Items(s.removed)| + (if s.consumer == Clearing(None) then 1 else 0)
      <= |TakenItems(s.removed)| + Timeouts(schedule)
  {
    if schedule != [] {
      var before, m := schedule[..|schedule| - 1], schedule[|schedule| - 1];
      LossCount(before);
      var s := Run(before);
      CountStep(s, m);
    }
  }

  lemma CountStep(s: State, m: Move)
    ensures var s' := Step(s, m);
      |Items(s'.removed)| + (if s'.consumer == Clearing(None) then 1 else 0) + |TakenItems(s.removed)|
      <= |TakenItems(s'.removed)| + (if m == Consume(true) then 1 else 0)
        + |Items(s.removed)| + if s.consumer == Clearing(None) then 1 else 0
  {
    hide Items, TakenItems;
    assert s.removed + [] == s.removed;
    if m.Consume? && s.consumer.Clearing? && s.slot != 0 {
      var r: Removal := if s.consumer.found.Some? then Taken(s.slot) else Lost(s.slot);
      Removing(s.removed, r);
    }
  }

  function Losses(removed: seq<Removal>): nat {
    if removed == [] then 0 else
    Losses(removed[..|removed| - 1]) + if removed[|removed| - 1].Lost? then 1 else 0
  }

  lemma OneMoreRemoved(removed: seq<Removal>, r: Removal)
    ensures Losses(removed + [r]) == Losses(removed) + if r.Lost? then 1 else 0
  {}

  lemma {:induction false} LossesCounted(removed: seq<Removal>)
    ensures |Items(removed)| == |TakenItems(removed)| + Losses(removed)
    ensures Losses(removed) == 0 ==> Items(removed) == TakenItems(removed)
  {
    if removed != [] {
      LossesCounted(removed[..|removed| - 1]);
    }
  }

  // Every item stored is accounted for: returned, about to be, discarded or in the slot.
  lemma StoredAccounted(schedule: seq<Move>)
    ensures var s := Run(schedule);
      |s.stored| == |s.returned| + |Carried(s.consumer)| + Losses(s.removed) + |InSlot(s)|
  {
    RunKeeps(schedule);
    LossesCounted(Run(schedule).removed);
  }

  // The i-th step clears the slot on behalf of a call that has timed out, and an item is in it:
  // it was stored since that call looked.
  predicate Discards(schedule: seq<Move>, i: nat)
    requires i < |schedule|
  {
    var s := Run(schedule[..i]);
    schedule[i].Consume? && s.consumer == Clearing(None) && s.slot != 0
  }

  lemma DiscardStep(s: State, m: Move)
    ensures Losses(Step(s, m).removed)
      == Losses(s.removed) + if m.Consume? && s.consumer == Clearing(None) && s.slot != 0 then 1 else 0
  {
    hide Losses;
    assert s.removed + [] == s.removed;
    if m.Consume? && s.consumer.Clearing? && s.slot != 0 {
      OneMoreRemoved(s.removed, if s.consumer.found.Some? then Taken(s.slot) else Lost(s.slot));
    }
  }

  lemma {:induction false} LossesExact(schedule: seq<Move>)
    ensures Losses(Run(schedule).removed) == 0 <==> forall i :: 0 <= i < |schedule| ==> !Discards(schedule, i)
  {
    if schedule != [] {
      var last := |schedule| - 1;
      var before := schedule[..last];
      LossesExact(before);
      DiscardStep(Run(before), schedule[last]);
      forall i | 0 <= i < last ensures Discards(before, i) == Discards(schedule, i) {
        assert before[..i] == schedule[..i];
      }
      assert Discards(schedule, last) <==> Losses(Run(schedule).removed) > Losses(Run(before).removed);
    }
  }

  // Exactly the runs in which no step discards an item lose none.
  lemma LosslessExact(schedule: seq<Move>)
    ensures Lossless(Run(schedule)) <==> forall i :: 0 <= i < |schedule| ==> !Discards(schedule, i)
  {
    RunKeeps(schedule);
    LossesCounted(Run(schedule).removed);
    LossesExact(schedule);
  }

  // A timed-out call can lose an item: it clears the slot without looking at it again.
  lemma TimeoutLosesItem(item: Item)
    ensures var s := Run([Dequeue, Consume(false), Consume(true), Enqueue(item), Produce(false),
      Produce(false), Consume(false)]);
      s.given == [item] && s.removed == [Lost(item)] && s.returned == [] && s.slot == 0
  {
    var a1: seq<Move> := [Dequeue];
    var a2 := a1 + [Consume(false)];
    var a3 := a2 + [Consume(true)];
    var a4 := a3 + [Enqueue(item)];
    var a5 := a4 + [Produce(false)];
    var a6 := a5 + [Produce(false)];
    After([], Dequeue);
    assert [] + [Dequeue] == a1;
    After(a1, Consume(false));
    After(a2, Consume(true));
    After(a3, Enqueue(item));
    assert Run(a4).producer == Looking(item) && Run(a4).consumer == Clearing(None) && Run(a4).slot == 0;
    assert Run(a4).given == [] + [item] && Run(a4).removed == [] && Run(a4).returned == [];
    After(a4, Produce(false));
    After(a5, Produce(false));
    After(a6, Consume(false));
    assert [] + [Lost(item)] == [Lost(item)];
    assert a6 + [Consume(false)] == [Dequeue, Consume(false), Consume(true), Enqueue(item), Produce(false),
      Produce(false), Consume(false)];
  }

  lemma After(schedule: seq<Move>, m: Move)
    ensures Run(schedule + [m]) == Step(Run(schedule), m)
  {}

  // ---- How a call of Dequeue ends ----

  // The i-th step ends a call of Dequeue.
  predicate Ends(schedule: seq<Move>, i: nat)
    requires i < |schedule|
  {
    !Run(schedule[..i]).consumer.Away? && Run(schedule[..i + 1]).consumer.Away?
  }

  // The j-th step is the timeout of a call that has not ended after n steps.
  predicate TimesOut(schedule: seq<Move>, j: nat, n: nat)
    requires j < n <= |schedule|
  {
    && schedule[j] == Consume(true) && Run(schedule[..j]).consumer.Timing?
    && forall k :: j < k <= n ==> !Run(schedule[..k]).consumer.Away?
  }

  ghost predicate TimedOut(schedule: seq<Move>, n: nat)
    requires n <= |schedule|
  {
    exists j: nat :: j < n && TimesOut(schedule, j, n)
  }

  // Over every schedule, a call of Dequeue ends by returning one item, or after a timeout of its
  // own without one: a wait that is signalled looks again.
  lemma DequeueEnds(schedule: seq<Move>, i: nat)
    requires i < |schedule| && Ends(schedule, i)
    ensures var before, after := Run(schedule[..i]).returned, Run(schedule[..i + 1]).returned;
      if TimedOut(schedule, i) then after == before else |after| == |before| + 1 && after[..|before|] == before
  {
    hide TimedOut;
    OneMoreStep(schedule, i);
    TimedOutExact(schedule, i);
  }

  lemma OneMoreStep(schedule: seq<Move>, i: nat)
    requires i < |schedule|
    ensures Run(schedule[..i + 1]) == Step(Run(schedule[..i]), schedule[i])
  {
    assert schedule[..i + 1][..i] == schedule[..i];
  }

  predicate GivenUp(c: Consumer) {
    c == Clearing(None) || c == Posting(None)
  }

  lemma {:induction false} TimedOutExact(schedule: seq<Move>, n: nat)
    requires n <= |schedule|
    ensures GivenUp(Run(schedule[..n]).consumer) <==> TimedOut(schedule, n)
  {
    hide Run, Step;
    if n == 0 {
      NothingRun(schedule);
    } else {
      var last := n - 1;
      TimedOutExact(schedule, last);
      OneMoreStep(schedule, last);
      GivesUp(Run(schedule[..last]), schedule[last]);
      var s, s' := Run(schedule[..last]), Run(schedule[..n]);
      if GivenUp(s'.consumer) {
        if GivenUp(s.consumer) {
          var j: nat :| j < last && TimesOut(schedule, j, last);
          assert TimesOut(schedule, j, n);
        } else {
          assert TimesOut(schedule, last, n);
        }
      }
      if TimedOut(schedule, n) {
        var j: nat :| j < n && TimesOut(schedule, j, n);
        if j < last {
          assert TimesOut(schedule, j, last);
        }
      }
    }
  }

  lemma NothingRun(schedule: seq<Move>)
    ensures Run(schedule[..0]) == INITIAL
  {}

  lemma GivesUp(s: State, m: Move)
    ensures GivenUp(Step(s, m).consumer) <==>
      (GivenUp(s.consumer) && !Step(s, m).consumer.Away?) || (s.consumer.Timing? && m == Consume(true))
  {}

  // ---- The semaphore ----

  // The calls of either side that have ended, and the waits that were signalled
  function Finished(schedule: seq<Move>): nat {
    if schedule == [] then 0 else
    var n := |schedule| - 1;
    var s, s' := Run(schedule[..n]), Run(schedule);
    Finished(schedule[..n])
    + (if !s.producer.Outside? && s'.producer.Outside? then 1 else 0)
    + if !s.consumer.Away? && s'.consumer.Away? then 1 else 0
  }

  function Signalled(schedule: seq<Move>): nat {
    if schedule == [] then 0 else
    var n := |schedule| - 1;
    var s, s' := Run(schedule[..n]), Run(schedule);
    Signalled(schedule[..n])
    + (if s.producer.Waiting? && s'.producer.Looking? && schedule[n] != Produce(true) then 1 else 0)
    + if s.consumer.Timing? && s'.consumer.Peeking? then 1 else 0
  }

  // One semaphore serves both sides: every call that ends signals it once, and every wait that
  // does not time out and is not interrupted uses a signal up.
  lemma {:induction false} SemaphoreExact(schedule: seq<Move>)
    ensures Run(schedule).semaphore + Signalled(schedule) == Finished(schedule)
  {
    if schedule != [] {
      var n := |schedule| - 1;
      SemaphoreExact(schedule[..n]);
      SemaphoreStep(Run(schedule[..n]), schedule[n]);
    }
  }

  lemma SemaphoreStep(s: State, m: Move)
    ensures var s' := Step(s, m);
      s'.semaphore + (if s.producer.Waiting? && s'.producer.Looking? && m != Produce(true) then 1 else 0)
        + (if s.consumer.Timing? && s'.consumer.Peeking? then 1 else 0)
      == s.semaphore + (if !s.producer.Outside? && s'.producer.Outside? then 1 else 0)
        + if !s.consumer.Away? && s'.consumer.Away? then 1 else 0
  {}

  // ---- What the reader thread enqueues ----

  // MQTTRead passes on these packet types only.
  predicate PassedOn(item: Item) {
    item in {MqttPacket.CONNACK, MqttPacket.PUBACK, MqttPacket.SUBACK, MqttPacket.PUBCOMP}
  }

  predicate AllPassedOn(schedule: seq<Move>) {
    forall i :: 0 <= i < |schedule| && schedule[i].Enqueue? ==> PassedOn(schedule[i].item)
  }

  // A caller that waits for any other type, such as UNSUBACK, waits in vain.
  lemma OnlyPassedOn(schedule: seq<Move>, awaited: Item)
    requires AllPassedOn(schedule) && !PassedOn(awaited)
    ensures awaited !in Run(schedule).returned
  {
    GivenPassedOn(schedule);
    DequeuedInOrder(schedule);
    MembersKept(Run(schedule).returned, Run(schedule).given);
  }

  // Exactly the types passed on can be returned.
  lemma PassedOnExact(awaited: Item)
    ensures PassedOn(awaited) <==> exists schedule :: AllPassedOn(schedule) && awaited in Run(schedule).returned
  {
    if PassedOn(awaited) {
      Returnable(awaited);
      assert AllPassedOn([Enqueue(awaited), Produce(false), Produce(false), Dequeue, Consume(false),
        Consume(false), Consume(false)]);
    }
    if schedule :| AllPassedOn(schedule) && awaited in Run(schedule).returned {
      if !PassedOn(awaited) {
        OnlyPassedOn(schedule, awaited);
      }
    }
  }

  // Any item can be handed through.
  lemma Returnable(item: Item)
    ensures Run([Enqueue(item), Produce(false), Produce(false), Dequeue, Consume(false), Consume(false),
      Consume(false)]).returned
      == [item]
  {
    var a1: seq<Move> := [Enqueue(item)];
    var a2 := a1 + [Produce(false)];
    var a3 := a2 + [Produce(false)];
    var a4 := a3 + [Dequeue];
    var a5 := a4 + [Consume(false)];
    var a6 := a5 + [Consume(false)];
    After([], Enqueue(item));
    assert [] + [Enqueue(item)] == a1;
    After(a1, Produce(false));
    After(a2, Produce(false));
    After(a3, Dequeue);
    assert Run(a4).slot == item && Run(a4).consumer == Peeking && Run(a4).returned == [];
    After(a4, Consume(false));
    After(a5, Consume(false));
    After(a6, Consume(false));
    assert [] + [item] == [item];
    assert a6 + [Consume(false)] == [Enqueue(item), Produce(false), Produce(false), Dequeue, Consume(false),
      Consume(false), Consume(false)];
  }

  lemma {:induction false} GivenPassedOn(schedule: seq<Move>)
    requires AllPassedOn(schedule)
    ensures forall x :: x in Run(schedule).given ==> PassedOn(x)
  {
    if schedule != [] {
      GivenPassedOn(schedule[..|schedule| - 1]);
    }
  }

  lemma {:induction false} MembersKept(a: seq<Item>, b: seq<Item>)
    requires Subsequence(a, b)
    ensures forall x :: x in a ==> x in b
  {
    if b != [] {
      if a != [] && a[|a| - 1] == b[|b| - 1] && Subsequence(a[..|a| - 1], b[..|b| - 1]) {
        MembersKept(a[..|a| - 1], b[..|b| - 1]);
        assert a == a[..|a| - 1] + [a[|a| - 1]];
      } else {
        MembersKept(a, b[..|b| - 1]);
      }
    }
  }
}
