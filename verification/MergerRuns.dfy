/** The merger among concurrent producers: enqueues may land between any two looks at the queues, and
    heartbeats between calls. Every interleaving is a sequence of actions. */
module MergerRuns {
  import opened Core
  import opened Mergers

  const LAST_SEQ: uint32 := 0xffff_ffff

  datatype Phase =
    | Idle
    | Scanning(next: nat, pick: Option<Pick>)
    | Stopped  // the process has panicked

  datatype Machine = Machine(
    merger: Merger, phase: Phase,
    arrived: multiset<RawMessage>,   // history: every accepted message
    delivered: seq<RawMessage>,      // history: what GetNextMessage returned
    discarded: seq<Verdict>)         // history: what it threw away, and the number awaited then

  datatype Action =
    | Arrive(queue: nat, msg: RawMessage)       // an Enqueue on that queue publishes
    | Begin                                     // GetNextMessage starts
    | Advance(polled: bool)                     // its next atomic step
    | Heartbeat(id: uint16, lastSeq: uint32)    // UpdateLastSeq, between calls

  function NewMachine(k: nat): Machine {
    Machine(Merger(seq(k, _ => []), map[], map[], 0), Idle, multiset{}, [], [])
  }

  function Conclude(s: Machine, t: Turn): Machine {
    var s1 := s.(merger := t.merger, phase := Idle);
    match t.verdict
    case Delivered(msg) => s1.(delivered := s.delivered + [msg])
    case Discarded(_, _) => s1.(phase := Scanning(0, None), discarded := s.discarded + [t.verdict])
    case Panicked => s1.(phase := Stopped)
    case _ => s1
  }

  function Step(s: Machine, a: Action): Machine {
    match a
    case Arrive(queue, msg) =>
      var qs := s.merger.queues;
      if queue >= |qs| then s
      else s.(merger := s.merger.(queues := qs[queue := qs[queue] + [msg]]), arrived := s.arrived + multiset{msg})
    case Begin => if s.phase.Idle? then s.(phase := Scanning(0, None)) else s
    case Advance(polled) =>
      if !s.phase.Scanning? then s
      else if s.phase.next < |s.merger.queues| then
        s.(phase := Scanning(s.phase.next + 1, PeekAt(s.merger.queues, s.phase.next, s.phase.pick)))
      else Conclude(s, Settle(s.merger, s.phase.pick, polled))
    case Heartbeat(id, lastSeq) =>
      if s.phase.Idle? then s.(merger := UpdateLastSeq(s.merger, id, lastSeq)) else s
  }

  function RunSteps(s: Machine, actions: seq<Action>): Machine
    decreases |actions|
  {
    if actions == [] then s else RunSteps(Step(s, actions[0]), actions[1..])
  }

  // ---- Conservation ----

  ghost predicate PickHeld(s: Machine) {
    s.phase.Scanning? ==> Held(s.merger.queues, s.phase.pick)
  }

  ghost function Thrown(discarded: seq<Verdict>): multiset<RawMessage> {
    if discarded == [] then multiset{}
    else if discarded[|discarded| - 1].Discarded?
    then Thrown(discarded[..|discarded| - 1]) + multiset{discarded[|discarded| - 1].msg}
    else Thrown(discarded[..|discarded| - 1])
  }

  ghost predicate Conserved(s: Machine) {
    && s.arrived == multiset(s.delivered) + Thrown(s.discarded) + Bag(s.merger.queues)
    && forall i :: 0 <= i < |s.discarded| ==>
         s.discarded[i].Discarded? && s.discarded[i].msg.seqNo < s.discarded[i].expected
  }

  lemma Rebalance(a: multiset<RawMessage>, b: multiset<RawMessage>, c: multiset<RawMessage>, x: multiset<RawMessage>)
    ensures (a + b + c) + x == a + b + (c + x)
    ensures a + b + (c + x) == (a + x) + b + c
    ensures a + b + (c + x) == a + (b + x) + c
  {
    forall y ensures ((a + b + c) + x)[y] == (a + b + (c + x))[y] { }
    forall y ensures (a + b + (c + x))[y] == ((a + x) + b + c)[y] { }
    forall y ensures (a + b + (c + x))[y] == (a + (b + x) + c)[y] { }
  }

  lemma ThrownMore(discarded: seq<Verdict>, v: Verdict)
    requires v.Discarded?
    ensures Thrown(discarded + [v]) == Thrown(discarded) + multiset{v.msg}
  {
    assert (discarded + [v])[..|discarded|] == discarded;
  }

  lemma SettleConserves(s: Machine, polled: bool)
    requires Conserved(s) && PickHeld(s) && s.phase.Scanning?
    ensures Conserved(Conclude(s, Settle(s.merger, s.phase.pick, polled)))
  {
    hide Settle, Bag, Thrown;
    var t := Settle(s.merger, s.phase.pick, polled);
    SettleQueues(s.merger, s.phase.pick, polled);
    if t.verdict.Delivered? || t.verdict.Discarded? {
      SettleVerdict(s.merger, s.phase.pick, polled);
      DropBag(s.merger, s.phase.pick.value.queue);
      ConcludeConserves(s, t);
    }
  }

  lemma ConcludeConserves(s: Machine, t: Turn)
    requires Conserved(s) && (t.verdict.Delivered? || t.verdict.Discarded?)
    requires Bag(s.merger.queues) == Bag(t.merger.queues) + multiset{t.verdict.msg}
    requires t.verdict.Discarded? ==> t.verdict.msg.seqNo < t.verdict.expected
    ensures Conserved(Conclude(s, t))
  {
    hide Bag, Thrown;
    Rebalance(multiset(s.delivered), Thrown(s.discarded), Bag(t.merger.queues), multiset{t.verdict.msg});
    if t.verdict.Discarded? {
      ThrownMore(s.discarded, t.verdict);
    } else {
      assert multiset(s.delivered + [t.verdict.msg]) == multiset(s.delivered) + multiset{t.verdict.msg};
    }
  }

  lemma SettleVerdict(m: Merger, pick: Option<Pick>, polled: bool)
    ensures var v := Settle(m, pick, polled).verdict;
            && (v.Delivered? || v.Discarded? ==> pick.Some? && v.msg == pick.value.msg)
            && (v.Discarded? ==> v.msg.seqNo < v.expected == Awaited(m, v.msg.streamId))
            && (v.Delivered? ==> v.msg.seqNo == Awaited(m, v.msg.streamId))
  {
  }

  lemma ArriveConserves(s: Machine, queue: nat, msg: RawMessage)
    requires Conserved(s) && PickHeld(s) && queue < |s.merger.queues|
    ensures Conserved(Step(s, Arrive(queue, msg))) && PickHeld(Step(s, Arrive(queue, msg)))
  {
    hide Bag, Thrown;
    var qs := s.merger.queues;
    BagAppended(qs, queue, msg);
    Rebalance(multiset(s.delivered), Thrown(s.discarded), Bag(qs), multiset{msg});
  }

  lemma StepHeld(s: Machine, a: Action)
    requires PickHeld(s)
    ensures PickHeld(Step(s, a))
  {
    hide Settle;
  }

  /** Every step keeps the account of messages, and the message a scan holds stays at the head of its
      queue, so what GetNextMessage dequeues is what it peeked. */
  lemma StepConserves(s: Machine, a: Action)
    requires Conserved(s) && PickHeld(s)
    ensures Conserved(Step(s, a)) && PickHeld(Step(s, a))
  {
    hide Bag, Settle, Thrown, PickHeld, Conclude, PeekAt;
    StepHeld(s, a);
    match a
    case Arrive(queue, msg) => if queue < |s.merger.queues| { ArriveConserves(s, queue, msg); }
    case Advance(polled) =>
      if s.phase.Scanning? && s.phase.next >= |s.merger.queues| { SettleConserves(s, polled); }
    case _ =>
  }

  lemma {:induction false} RunConserves(s: Machine, actions: seq<Action>)
    requires Conserved(s) && PickHeld(s)
    ensures Conserved(RunSteps(s, actions)) && PickHeld(RunSteps(s, actions))
    decreases |actions|
  {
    hide Conserved, PickHeld, Step;
    if actions != [] {
      StepConserves(s, actions[0]);
      RunConserves(Step(s, actions[0]), actions[1..]);
    }
  }

  /** Over every interleaving, from k empty queues: each accepted message has been delivered once, has
      been discarded once below the number then awaited, or is still queued. */
  lemma NothingLost(k: nat, actions: seq<Action>)
    ensures var s := RunSteps(NewMachine(k), actions);
            && s.arrived == multiset(s.delivered) + Thrown(s.discarded) + Bag(s.merger.queues)
            && forall i :: 0 <= i < |s.discarded| ==>
                 s.discarded[i].Discarded? && s.discarded[i].msg.seqNo < s.discarded[i].expected
  {
    var s := NewMachine(k);
    AllEmptyBag(s.merger.queues);
    assert Conserved(s);
    RunConserves(s, actions);
  }

  // ---- Per-stream order ----

  /** Nothing sent on the stream yet, or the awaited number lies above the last delivered one. */
  ghost predicate Tracked(m: Merger, id: uint16) {
    var expected, last := SeqOf(m.expectedSeq, id), SeqOf(m.lastAppliedSeq, id);
    (expected == 0 && last == 0) || expected > last
  }

  ghost predicate Increasing(delivered: seq<RawMessage>) {
    forall i, j :: 0 <= i < j < |delivered| && delivered[i].streamId == delivered[j].streamId ==>
      delivered[i].seqNo < delivered[j].seqNo
  }

  ghost predicate Ordered(s: Machine) {
    && (forall id :: Tracked(s.merger, id))
    && Increasing(s.delivered)
    && (forall i :: 0 <= i < |s.delivered| ==>
          s.delivered[i].seqNo <= SeqOf(s.merger.lastAppliedSeq, s.delivered[i].streamId))
  }

  /** The scan is over and holds number 2^32 - 1 of a stream that awaits it: the awaited number is about to wrap
      to zero. */
  predicate Wraps(s: Machine, a: Action) {
    && a.Advance? && s.phase.Scanning? && s.phase.next >= |s.merger.queues| && s.phase.pick.Some?
    && s.phase.pick.value.msg.seqNo == LAST_SEQ && Awaited(s.merger, s.phase.pick.value.msg.streamId) == LAST_SEQ
  }

  lemma AwaitedDelivers(m: Merger, pick: Option<Pick>, polled: bool)
    requires pick.Some? && pick.value.msg.seqNo == Awaited(m, pick.value.msg.streamId)
    ensures Settle(m, pick, polled).verdict == Delivered(pick.value.msg)
  {
  }

  /** What settling does to the two maps, one stream at a time. */
  lemma SettleMaps(m: Merger, pick: Option<Pick>, polled: bool)
    requires pick.Some?
    ensures var t, id, seqNo := Settle(m, pick, polled), pick.value.msg.streamId, pick.value.msg.seqNo;
            && (forall o :: o != id ==> SeqOf(t.merger.expectedSeq, o) == SeqOf(m.expectedSeq, o))
            && (forall o :: o != id || !t.verdict.Delivered? ==>
                  SeqOf(t.merger.lastAppliedSeq, o) == SeqOf(m.lastAppliedSeq, o))
            && (t.verdict.Delivered? ==>
                  SeqOf(t.merger.expectedSeq, id) == Add32(seqNo, 1) && SeqOf(t.merger.lastAppliedSeq, id) == seqNo)
            && (!t.verdict.Delivered? ==> SeqOf(t.merger.expectedSeq, id) >= Awaited(m, id))
            && (t.verdict.Skipped? ==> SeqOf(t.merger.expectedSeq, id) == seqNo)
  {
    hide Add32, Sub32;
    NextOfPrevious(pick.value.msg.seqNo);
  }

  lemma NextOfPrevious(x: uint32)
    ensures Add32(Sub32(x, 1), 1) == x
  {
  }

  /** A step keeps every stream in order if and only if it does not wrap a stream's awaited number. */
  lemma StepOrdered(s: Machine, a: Action)
    requires Ordered(s)
    ensures Ordered(Step(s, a)) <==> !Wraps(s, a)
  {
    hide Settle;
    match a
    case Advance(polled) =>
      if s.phase.Scanning? && s.phase.next >= |s.merger.queues| { SettleOrdered(s, polled); }
    case Heartbeat(id, lastSeq) =>
      var m1 := UpdateLastSeq(s.merger, id, lastSeq);
      forall o ensures Tracked(m1, o) { assert Tracked(s.merger, o); }
    case Arrive(queue, msg) =>
      forall o ensures Tracked(Step(s, a).merger, o) { assert Tracked(s.merger, o); }
    case Begin =>
  }

  lemma SettleOrdered(s: Machine, polled: bool)
    requires Ordered(s) && s.phase.Scanning? && s.phase.next >= |s.merger.queues|
    ensures Ordered(Conclude(s, Settle(s.merger, s.phase.pick, polled))) <==> !Wraps(s, Advance(polled))
  {
    hide Settle;
    var pick := s.phase.pick;
    var t := Settle(s.merger, pick, polled);
    var s1 := Conclude(s, t);
    if pick == None {
      SettleNone(s.merger, polled);
    } else {
      var id, seqNo := pick.value.msg.streamId, pick.value.msg.seqNo;
      SettleMaps(s.merger, pick, polled);
      SettleVerdict(s.merger, pick, polled);
      assert Tracked(s.merger, id);
      if Wraps(s, Advance(polled)) {
        AwaitedDelivers(s.merger, pick, polled);
        assert !Tracked(t.merger, id);
      } else {
        forall o ensures Tracked(t.merger, o) { assert Tracked(s.merger, o); }
      }
    }
  }

  lemma SettleNone(m: Merger, polled: bool)
    ensures Settle(m, None, polled) == Turn(m, Nothing)
  {
  }

  ghost predicate NoWraps(s: Machine, actions: seq<Action>)
    decreases |actions|
  {
    actions == [] || (!Wraps(s, actions[0]) && NoWraps(Step(s, actions[0]), actions[1..]))
  }

  /** The stream's last delivered number is 2^32 - 1: nothing that is awaited lies above it. */
  ghost predicate Wrapped(s: Machine, id: uint16) {
    SeqOf(s.merger.lastAppliedSeq, id) == LAST_SEQ && HasLast(s.delivered, id)
  }

  ghost predicate HasLast(delivered: seq<RawMessage>, id: uint16) {
    exists i :: 0 <= i < |delivered| && delivered[i].streamId == id && delivered[i].seqNo == LAST_SEQ
  }

  ghost predicate Spoiled(s: Machine) {
    (exists id :: Wrapped(s, id)) || !Increasing(s.delivered)
  }

  /** Each step keeps the deliveries so far, and adds at most the message the scan holds. */
  lemma StepDelivers(s: Machine, a: Action)
    ensures var s1 := Step(s, a);
            || (s1.delivered == s.delivered && s1.merger.lastAppliedSeq == s.merger.lastAppliedSeq)
            || (a.Advance? && s.phase.Scanning? && s.phase.pick.Some?
                && var msg := s.phase.pick.value.msg;
                && s1.delivered == s.delivered + [msg] && msg.seqNo == Awaited(s.merger, msg.streamId)
                && s1.merger.lastAppliedSeq == s.merger.lastAppliedSeq[msg.streamId := msg.seqNo]
                && SeqOf(s1.merger.expectedSeq, msg.streamId) == Add32(msg.seqNo, 1)
                && forall o :: o != msg.streamId ==> SeqOf(s1.merger.expectedSeq, o) == SeqOf(s.merger.expectedSeq, o))
  {
    hide Add32, Sub32;
  }

  lemma WrapSpoils(s: Machine, a: Action)
    requires Wraps(s, a)
    ensures Spoiled(Step(s, a))
  {
    hide Settle;
    var pick := s.phase.pick;
    AwaitedDelivers(s.merger, pick, a.polled);
    SettleMaps(s.merger, pick, a.polled);
    var s1 := Step(s, a);
    assert s1.delivered[|s.delivered|] == pick.value.msg;
    assert Wrapped(s1, pick.value.msg.streamId);
  }

  lemma IncreasingPrefix(d: seq<RawMessage>, msg: RawMessage)
    requires Increasing(d + [msg])
    ensures Increasing(d)
  {
    forall i, j | 0 <= i < j < |d| && d[i].streamId == d[j].streamId ensures d[i].seqNo < d[j].seqNo {
      assert (d + [msg])[i] == d[i] && (d + [msg])[j] == d[j];
    }
  }

  /** A spoiled run stays spoiled: the number 2^32 - 1 stays the last of its stream until something is delivered
      after it. */
  lemma SpoiledStays(s: Machine, a: Action)
    requires Spoiled(s)
    ensures Spoiled(Step(s, a))
  {
    hide Step;
    var s1 := Step(s, a);
    StepDelivers(s, a);
    if s1.delivered == s.delivered && s1.merger.lastAppliedSeq == s.merger.lastAppliedSeq {
      if exists id :: Wrapped(s, id) {
        var id :| Wrapped(s, id);
        assert Wrapped(s1, id);
      }
    } else {
      var msg := s.phase.pick.value.msg;
      if !Increasing(s.delivered) {
        if Increasing(s1.delivered) { IncreasingPrefix(s.delivered, msg); }
      } else {
        var id :| Wrapped(s, id);
        var i :| 0 <= i < |s.delivered| && s.delivered[i].streamId == id && s.delivered[i].seqNo == LAST_SEQ;
        assert s1.delivered[i] == s.delivered[i] && s1.delivered[|s.delivered|] == msg;
        if msg.streamId != id { assert Wrapped(s1, id); }
      }
    }
  }

  lemma {:induction false} RunSpoiled(s: Machine, actions: seq<Action>)
    requires Spoiled(s)
    ensures !Ordered(RunSteps(s, actions))
    decreases |actions|
  {
    hide Step;
    if actions == [] {
      if exists id :: Wrapped(s, id) {
        var id :| Wrapped(s, id);
        assert !Tracked(s.merger, id);
      }
    } else {
      SpoiledStays(s, actions[0]);
      RunSpoiled(Step(s, actions[0]), actions[1..]);
    }
  }

  /** Every stream is in order after a run if and only if the run wraps no awaited number, over every
      interleaving. */
  lemma {:induction false} RunOrdered(s: Machine, actions: seq<Action>)
    requires Ordered(s)
    ensures Ordered(RunSteps(s, actions)) <==> NoWraps(s, actions)
    decreases |actions|
  {
    hide Ordered, Wraps, Step, Spoiled;
    if actions != [] {
      StepOrdered(s, actions[0]);
      if Wraps(s, actions[0]) {
        WrapSpoils(s, actions[0]);
        RunSpoiled(Step(s, actions[0]), actions[1..]);
      } else {
        RunOrdered(Step(s, actions[0]), actions[1..]);
      }
    }
  }

  // ---- The delivered numbers themselves ----

  /** Nothing is delivered on a stream after its number 2^32 - 1. */
  ghost predicate NoneAfterLast(delivered: seq<RawMessage>) {
    forall i, j :: 0 <= i < j < |delivered| && delivered[i].streamId == delivered[j].streamId ==>
      delivered[i].seqNo != LAST_SEQ
  }

  /** Nothing delivered on the stream lies above its last number, and the awaited one does. */
  ghost predicate Behind(s: Machine, id: uint16) {
    && Tracked(s.merger, id)
    && forall i :: 0 <= i < |s.delivered| && s.delivered[i].streamId == id ==>
         s.delivered[i].seqNo <= SeqOf(s.merger.lastAppliedSeq, id)
  }

  ghost predicate Sequenced(s: Machine) {
    && (NoneAfterLast(s.delivered) ==> Increasing(s.delivered))
    && forall id :: Behind(s, id) || HasLast(s.delivered, id)
  }

  lemma HasLastKept(d: seq<RawMessage>, msg: RawMessage, id: uint16)
    requires HasLast(d, id)
    ensures HasLast(d + [msg], id) && (msg.streamId == id ==> !NoneAfterLast(d + [msg]))
  {
    var i :| 0 <= i < |d| && d[i].streamId == id && d[i].seqNo == LAST_SEQ;
    assert (d + [msg])[i] == d[i] && (d + [msg])[|d|] == msg;
  }

  lemma NoneAfterPrefix(d: seq<RawMessage>, msg: RawMessage)
    requires NoneAfterLast(d + [msg])
    ensures NoneAfterLast(d)
  {
    forall i, j | 0 <= i < j < |d| && d[i].streamId == d[j].streamId ensures d[i].seqNo != LAST_SEQ {
      assert (d + [msg])[i] == d[i] && (d + [msg])[j] == d[j];
    }
  }

  /** The other kinds of steps, which deliver nothing. */
  lemma QuietSequenced(s: Machine, a: Action, id: uint16)
    requires Behind(s, id)
    requires Step(s, a).delivered == s.delivered && Step(s, a).merger.lastAppliedSeq == s.merger.lastAppliedSeq
    ensures Behind(Step(s, a), id)
  {
    hide Settle;
    if a.Advance? && s.phase.Scanning? && s.phase.next >= |s.merger.queues| {
      if s.phase.pick == None { SettleNone(s.merger, a.polled); }
      else { SettleMaps(s.merger, s.phase.pick, a.polled); }
    }
  }

  lemma StepSequenced(s: Machine, a: Action)
    requires Sequenced(s)
    ensures Sequenced(Step(s, a))
  {
    hide Step, HasLast, NoneAfterLast, Increasing, Add32;
    var s1 := Step(s, a);
    StepDelivers(s, a);
    if s1.delivered == s.delivered && s1.merger.lastAppliedSeq == s.merger.lastAppliedSeq {
      forall id ensures Behind(s1, id) || HasLast(s1.delivered, id) {
        if Behind(s, id) { QuietSequenced(s, a, id); }
      }
    } else {
      DeliverySequenced(s, s1, s.phase.pick.value.msg);
    }
  }

  lemma DeliverySequenced(s: Machine, s1: Machine, msg: RawMessage)
    requires Sequenced(s) && s1.delivered == s.delivered + [msg] && msg.seqNo == Awaited(s.merger, msg.streamId)
    requires s1.merger.lastAppliedSeq == s.merger.lastAppliedSeq[msg.streamId := msg.seqNo]
    requires SeqOf(s1.merger.expectedSeq, msg.streamId) == Add32(msg.seqNo, 1)
    requires forall o :: o != msg.streamId ==> SeqOf(s1.merger.expectedSeq, o) == SeqOf(s.merger.expectedSeq, o)
    ensures Sequenced(s1)
  {
    hide HasLast, NoneAfterLast;
    forall id ensures Behind(s1, id) || HasLast(s1.delivered, id) {
      if HasLast(s.delivered, id) {
        HasLastKept(s.delivered, msg, id);
      } else if id == msg.streamId && msg.seqNo == LAST_SEQ {
        NowLast(s.delivered, msg);
      } else {
        assert Behind(s, id);
      }
    }
    if NoneAfterLast(s1.delivered) {
      NoneAfterPrefix(s.delivered, msg);
      if HasLast(s.delivered, msg.streamId) { HasLastKept(s.delivered, msg, msg.streamId); }
      assert Behind(s, msg.streamId);
    }
  }

  lemma NowLast(d: seq<RawMessage>, msg: RawMessage)
    requires msg.seqNo == LAST_SEQ
    ensures HasLast(d + [msg], msg.streamId)
  {
    assert (d + [msg])[|d|] == msg;
  }

  lemma {:induction false} RunSequenced(s: Machine, actions: seq<Action>)
    requires Sequenced(s)
    ensures Sequenced(RunSteps(s, actions))
    decreases |actions|
  {
    hide Sequenced, Step;
    if actions != [] {
      StepSequenced(s, actions[0]);
      RunSequenced(Step(s, actions[0]), actions[1..]);
    }
  }

  /** Over every interleaving, from streams in order: the delivered numbers of each stream strictly increase if and
      only if nothing was delivered on a stream after its number 2^32 - 1. */
  lemma IncreasesUntilLast(s: Machine, actions: seq<Action>)
    requires Ordered(s)
    ensures var d := RunSteps(s, actions).delivered; Increasing(d) <==> NoneAfterLast(d)
  {
    hide RunSteps;
    assert Sequenced(s) by {
      forall id ensures Behind(s, id) { assert Tracked(s.merger, id); }
    }
    RunSequenced(s, actions);
    var d := RunSteps(s, actions).delivered;
    if Increasing(d) {
      forall i, j | 0 <= i < j < |d| && d[i].streamId == d[j].streamId ensures d[i].seqNo != LAST_SEQ {
        assert d[i].seqNo < d[j].seqNo;
      }
    }
  }

  // ---- The same for feeds that never send number 2^32 - 1 ----

  ghost predicate ShortOf(s: Machine) {
    && (forall i, k :: 0 <= i < |s.merger.queues| && 0 <= k < |s.merger.queues[i]| ==>
          s.merger.queues[i][k].seqNo != LAST_SEQ)
    && (s.phase.Scanning? && s.phase.pick.Some? ==> s.phase.pick.value.msg.seqNo != LAST_SEQ)
  }

  ghost predicate ShortFeed(actions: seq<Action>) {
    forall i :: 0 <= i < |actions| && actions[i].Arrive? ==> actions[i].msg.seqNo != LAST_SEQ
  }

  lemma {:induction false} ShortRunOrdered(s: Machine, actions: seq<Action>)
    requires Ordered(s) && ShortOf(s) && ShortFeed(actions)
    ensures Ordered(RunSteps(s, actions))
    decreases |actions|
  {
    hide Ordered, Step, ShortOf, Settle;
    if actions != [] {
      assert !Wraps(s, actions[0]) by { ShortNeverWraps(s, actions[0]); }
      StepOrdered(s, actions[0]);
      ShortStep(s, actions[0]);
      ShortRunOrdered(Step(s, actions[0]), actions[1..]);
    }
  }

  lemma ShortNeverWraps(s: Machine, a: Action)
    requires ShortOf(s)
    ensures !Wraps(s, a)
  {
  }

  lemma ShortStep(s: Machine, a: Action)
    requires ShortOf(s) && (a.Arrive? ==> a.msg.seqNo != LAST_SEQ)
    ensures ShortOf(Step(s, a))
  {
    hide Settle;
    if a.Advance? && s.phase.Scanning? && s.phase.next >= |s.merger.queues| {
      SettleQueues(s.merger, s.phase.pick, a.polled);
      if s.phase.pick == None { SettleNone(s.merger, a.polled); }
      else { ShortDrop(s.merger, s.phase.pick.value.queue); }
    }
  }

  lemma ShortDrop(m: Merger, queue: nat)
    requires forall i, k :: 0 <= i < |m.queues| && 0 <= k < |m.queues[i]| ==> m.queues[i][k].seqNo != LAST_SEQ
    ensures var qs := Drop(m, queue).queues;
            forall i, k :: 0 <= i < |qs| && 0 <= k < |qs[i]| ==> qs[i][k].seqNo != LAST_SEQ
  {
  }

  /** From k empty queues, over every interleaving of a feed that never sends number 2^32 - 1: the
      delivered numbers of each stream strictly increase, whatever gaps are skipped and wherever
      heartbeats move the awaited number. */
  lemma DeliversInOrder(k: nat, actions: seq<Action>)
    requires ShortFeed(actions)
    ensures Increasing(RunSteps(NewMachine(k), actions).delivered)
    ensures forall id :: Tracked(RunSteps(NewMachine(k), actions).merger, id)
  {
    hide RunSteps;
    assert Ordered(NewMachine(k)) && ShortOf(NewMachine(k));
    ShortRunOrdered(NewMachine(k), actions);
  }

  /** One queue whose head carries the awaited number: a call delivers it. */
  lemma OneQueueDelivers(s: Machine, msg: RawMessage, rest: seq<RawMessage>)
    requires s.phase.Idle? && s.merger.queues == [[msg] + rest] && msg.seqNo == Awaited(s.merger, msg.streamId)
    ensures var s1 := Step(Step(Step(s, Begin), Advance(false)), Advance(false));
            && s1.phase.Idle? && s1.delivered == s.delivered + [msg] && s1.merger.queues == [rest]
            && SeqOf(s1.merger.expectedSeq, msg.streamId) == Add32(msg.seqNo, 1)
            && SeqOf(s1.merger.lastAppliedSeq, msg.streamId) == msg.seqNo
  {
    hide Settle, Add32;
    var pick := Some(Pick(msg, 0));
    assert Step(Step(s, Begin), Advance(false)) == s.(phase := Scanning(1, pick));
    assert Settle(s.merger, pick, false).verdict == Delivered(msg) by { AwaitedDelivers(s.merger, pick, false); }
    SettleMaps(s.merger, pick, false);
    SettleQueues(s.merger, pick, false);
    assert ([msg] + rest)[1..] == rest;
  }

  /** A first message far ahead of number 1 is held back once, and its number becomes the awaited one. */
  lemma OneQueueSkips(s: Machine, msg: RawMessage, rest: seq<RawMessage>)
    requires s.phase.Idle? && s.merger.queues == [[msg] + rest] && msg.seqNo > Awaited(s.merger, msg.streamId)
    ensures var s1 := RunSteps(s, QuietTurn());
            && s1.phase.Idle? && s1.merger.queues == s.merger.queues && s1.delivered == s.delivered
            && SeqOf(s1.merger.expectedSeq, msg.streamId) == msg.seqNo
  {
    hide Settle;
    var pick := Some(Pick(msg, 0));
    var s2 := Step(Step(s, Begin), Advance(false));
    assert s2 == s.(phase := Scanning(1, pick));
    assert Settle(s.merger, pick, false).verdict == Skipped by { AheadSkips(s.merger, pick); }
    SettleMaps(s.merger, pick, false);
    SettleQueues(s.merger, pick, false);
    RunTurn(s);
  }

  lemma AheadSkips(m: Merger, pick: Option<Pick>)
    requires pick.Some? && pick.value.msg.seqNo > Awaited(m, pick.value.msg.streamId)
    ensures Settle(m, pick, false).verdict == Skipped
  {
  }

  /** One call of GetNextMessage on a single queue. */
  function QuietTurn(): seq<Action> {
    [Begin, Advance(false), Advance(false)]
  }

  lemma RunTurn(s: Machine)
    ensures RunSteps(s, QuietTurn()) == Step(Step(Step(s, Begin), Advance(false)), Advance(false))
  {
    hide Step;
    RunFirst(s, Begin, [Advance(false), Advance(false)]);
    RunFirst(Step(s, Begin), Advance(false), [Advance(false)]);
    RunFirst(Step(Step(s, Begin), Advance(false)), Advance(false), []);
  }

  /** Why 2^32 - 1 is the limit, from an empty queue: after one skipped gap a stream that reaches it is taken for a
      new one, and its number 1 is delivered after number 2^32 - 1. */
  lemma WrapRestartsStream(a: RawMessage, b: RawMessage)
    requires a.streamId == b.streamId && a.seqNo == LAST_SEQ && b.seqNo == 1
    ensures var arrivals := [Arrive(0, a), Arrive(0, b)];
            RunSteps(NewMachine(1), arrivals + QuietTurn() + QuietTurn() + QuietTurn()).delivered == [a, b]
    ensures !Increasing([a, b])
  {
    hide Step, QuietTurn, RunSteps;
    var s0 := NewMachine(1);
    var arrivals := [Arrive(0, a), Arrive(0, b)];
    var s1 := RunSteps(s0, arrivals);
    assert s1.merger == s0.merger.(queues := [[a] + [b]]) && s1.phase.Idle? && s1.delivered == [] by { Arrived(a, b); }
    OneQueueSkips(s1, a, [b]);
    var s2 := RunSteps(s1, QuietTurn());
    OneQueueDelivers(s2, a, [b]);
    RunTurn(s2);
    var s3 := RunSteps(s2, QuietTurn());
    assert [b] + [] == [b];
    OneQueueDelivers(s3, b, []);
    RunTurn(s3);
    RunStepsConcat(s0, arrivals, QuietTurn());
    RunStepsConcat(s0, arrivals + QuietTurn(), QuietTurn());
    RunStepsConcat(s0, arrivals + QuietTurn() + QuietTurn(), QuietTurn());
    assert [a, b][0].seqNo > [a, b][1].seqNo;
  }

  lemma Arrived(a: RawMessage, b: RawMessage)
    ensures var s0 := NewMachine(1);
            var s1 := RunSteps(s0, [Arrive(0, a), Arrive(0, b)]);
            s1.merger == s0.merger.(queues := [[a] + [b]]) && s1.phase.Idle? && s1.delivered == []
  {
    var s0 := NewMachine(1);
    RunFirst(s0, Arrive(0, a), [Arrive(0, b)]);
    RunFirst(Step(s0, Arrive(0, a)), Arrive(0, b), []);
    assert [] + [a] == [a];
  }

  lemma RunFirst(s: Machine, a: Action, rest: seq<Action>)
    ensures RunSteps(s, [a] + rest) == RunSteps(Step(s, a), rest)
    ensures RunSteps(s, [a]) == Step(s, a)
  {
    assert ([a] + rest)[1..] == rest;
  }

  // ---- A call with nothing arriving meanwhile ----

  /** With no arrivals, the remaining steps of a scan find what the scan function finds. */
  lemma {:induction false} QuietScan(s: Machine, next: nat, pick: Option<Pick>, polled: bool)
    requires next <= |s.merger.queues| && s.phase == Scanning(next, pick)
    ensures RunSteps(s, seq(|s.merger.queues| - next, _ => Advance(polled)))
         == s.(phase := Scanning(|s.merger.queues|, ScanFrom(s.merger.queues, next, pick)))
    decreases |s.merger.queues| - next
  {
    if next < |s.merger.queues| {
      var s1 := Step(s, Advance(polled));
      QuietScan(s1, next + 1, PeekAt(s.merger.queues, next, pick), polled);
      var rest := seq(|s.merger.queues| - next - 1, _ => Advance(polled));
      assert seq(|s.merger.queues| - next, _ => Advance(polled)) == [Advance(polled)] + rest;
      RunFirst(s, Advance(polled), rest);
    }
  }

  lemma {:induction false} RunStepsConcat(s: Machine, x: seq<Action>, y: seq<Action>)
    ensures RunSteps(s, x + y) == RunSteps(RunSteps(s, x), y)
    decreases |x|
  {
    hide Step;
    if x == [] {
      assert x + y == y;
    } else {
      assert (x + y)[1..] == x[1..] + y;
      RunStepsConcat(Step(s, x[0]), x[1..], y);
    }
  }

  /** GetNext is the schedule in which no other thread moves: scan, settle, and again after a discard. */
  lemma {:induction false} QuietCall(s: Machine, polled: bool) returns (n: nat)
    requires s.phase == Scanning(0, None)
    ensures var s1, t := RunSteps(s, seq(n, _ => Advance(polled))), GetNext(s.merger, polled);
            && s1.merger == t.merger && !s1.phase.Scanning? && (s1.phase.Stopped? <==> t.verdict.Panicked?)
            && s1.delivered == s.delivered + if t.verdict.Delivered? then [t.verdict.msg] else []
    decreases |Bag(s.merger.queues)|
  {
    hide Settle, Bag;
    var k := |s.merger.queues|;
    QuietScan(s, 0, None, polled);
    var pick := ScanFrom(s.merger.queues, 0, None);
    var t := Settle(s.merger, pick, polled);
    var s1 := Step(s.(phase := Scanning(k, pick)), Advance(polled));
    RunStepsConcat(s, seq(k, _ => Advance(polled)), [Advance(polled)]);
    RunFirst(s.(phase := Scanning(k, pick)), Advance(polled), []);
    assert seq(k, _ => Advance(polled)) + [Advance(polled)] == seq(k + 1, _ => Advance(polled));
    if t.verdict.Discarded? {
      DiscardShrinks(s.merger, polled);
      var more := QuietCall(s1, polled);
      n := k + 1 + more;
      RunStepsConcat(s, seq(k + 1, _ => Advance(polled)), seq(more, _ => Advance(polled)));
      assert seq(k + 1, _ => Advance(polled)) + seq(more, _ => Advance(polled)) == seq(n, _ => Advance(polled));
    } else {
      n := k + 1;
    }
  }
}
