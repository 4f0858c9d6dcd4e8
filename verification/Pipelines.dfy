/** The receivers' ring buffers and the merger as one system: every micro-step of every producer interleaved
    with every micro-step of the consumer, which scans, peeks and dequeues through the same rings. The system
    refines the machine of module MergerRuns, so what holds there holds from Enqueue to delivery. */
module Pipelines {
  import opened Core
  import opened Mergers
  import opened MergerRuns
  import Spsc = SpscQueues

  type Ring = Spsc.State<RawMessage>

  /** Where the consumer stands inside GetNextMessage. */
  datatype Stage =
    | Resting
    | Looking(next: nat, pick: Option<Pick>)   // peeking at ring `next`, or about to settle
    | Taking(chosen: Pick, polled: bool)         // settled on the pick; dequeuing it
    | Halted

  datatype System = System(
    rings: seq<Ring>,
    expectedSeq: map<uint16, uint32>, lastAppliedSeq: map<uint16, uint32>, gaps: nat,
    stage: Stage,
    delivered: seq<RawMessage>, discarded: seq<Verdict>)

  datatype Act =
    | Receive(ring: nat, move: Spsc.Move<RawMessage>)  // a producer's micro-step
    | Call                                             // GetNextMessage starts
    | Work(polled: bool)                               // the consumer's next micro-step
    | Beat(id: uint16, lastSeq: uint32)                // UpdateLastSeq, between calls

  // ---- The system ----

  predicate ByProducer(m: Spsc.Move<RawMessage>) {
    m.BeginEnqueue? || m.BeginDepth? || m.Produce?
  }

  /** What the consumer's code can see when it settles: its maps and the number of rings. */
  function Blind(s: System): Merger {
    Merger(seq(|s.rings|, _ => []), s.expectedSeq, s.lastAppliedSeq, s.gaps)
  }

  function Concluded(s: System, t: Turn): System {
    var s1 := s.(expectedSeq := t.merger.expectedSeq, lastAppliedSeq := t.merger.lastAppliedSeq, gaps := t.merger.gaps,
                 stage := Resting);
    match t.verdict
    case Delivered(msg) => s1.(delivered := s.delivered + [msg])
    case Discarded(_, _) => s1.(stage := Looking(0, None), discarded := s.discarded + [t.verdict])
    case Panicked => s1.(stage := Halted)
    case _ => s1
  }

  /** The consumer's next micro-step on a ring: begin the operation, or go on with it. */
  function ConsumerMove(r: Ring, remove: bool): Spsc.Move<RawMessage> {
    if !r.consumer.CIdle? then Spsc.Consume else if remove then Spsc.BeginDequeue else Spsc.BeginPeek
  }

  function Better(pick: Option<Pick>, msg: RawMessage, queue: nat): Option<Pick> {
    if pick == None || Older(msg, pick.value.msg) then Some(Pick(msg, queue)) else pick
  }

  function LookStep(s: System, next: nat, pick: Option<Pick>): System
    requires next < |s.rings|
  {
    var o := Spsc.Next(s.rings[next], ConsumerMove(s.rings[next], false));
    var s1 := s.(rings := s.rings[next := o.state]);
    match o.event
    case Seen(got) => s1.(stage := Looking(next + 1, if got.Some? then Better(pick, got.value, next) else pick))
    case FoundEmpty => s1.(stage := Looking(next + 1, pick))
    case _ => s1
  }

  function SettleStep(s: System, pick: Option<Pick>, polled: bool): System {
    var t := Settle(Blind(s), pick, polled);
    if t.verdict.Delivered? || t.verdict.Discarded? then s.(stage := Taking(pick.value, polled)) else Concluded(s, t)
  }

  /** The source ignores what Dequeue returns and goes on with the message it peeked. */
  function TakeStep(s: System, pick: Pick, polled: bool): System {
    if pick.queue >= |s.rings| then s else
    var o := Spsc.Next(s.rings[pick.queue], ConsumerMove(s.rings[pick.queue], true));
    var s1 := s.(rings := s.rings[pick.queue := o.state]);
    if o.event.Removed? || o.event.FoundEmpty? then Concluded(s1, Settle(Blind(s), Some(pick), polled)) else s1
  }

  function Beaten(s: System, id: uint16, lastSeq: uint32): System {
    var m := UpdateLastSeq(Blind(s), id, lastSeq);
    s.(expectedSeq := m.expectedSeq, lastAppliedSeq := m.lastAppliedSeq, gaps := m.gaps)
  }

  function Move(s: System, a: Act): System {
    match a
    case Receive(ring, m) =>
      if ring < |s.rings| && ByProducer(m) then s.(rings := s.rings[ring := Spsc.Next(s.rings[ring], m).state]) else s
    case Call => if s.stage.Resting? then s.(stage := Looking(0, None)) else s
    case Work(polled) =>
      (match s.stage
       case Looking(next, pick) => if next < |s.rings| then LookStep(s, next, pick) else SettleStep(s, pick, polled)
       case Taking(pick, p) => TakeStep(s, pick, p)
       case _ => s)
    case Beat(id, lastSeq) => if s.stage.Resting? then Beaten(s, id, lastSeq) else s
  }

  function Moves(s: System, acts: seq<Act>): System
    decreases |acts|
  {
    if acts == [] then s else Moves(Move(s, acts[0]), acts[1..])
  }

  // ---- The abstraction ----

  ghost function Queues(rings: seq<Ring>): seq<seq<RawMessage>> {
    seq(|rings|, i requires 0 <= i < |rings| => Spsc.Queue(rings[i]))
  }

  /** Every message that Enqueue has accepted, ring by ring. */
  ghost function Accepted(rings: seq<Ring>): seq<seq<RawMessage>> {
    seq(|rings|, i requires 0 <= i < |rings| => rings[i].accepted)
  }

  ghost function Seeing(s: System): Merger {
    Merger(Queues(s.rings), s.expectedSeq, s.lastAppliedSeq, s.gaps)
  }

  ghost function PhaseOf(s: System): Phase {
    match s.stage
    case Resting => Idle
    case Looking(next, pick) => Scanning(next, pick)
    case Taking(pick, _) => Scanning(|s.rings|, Some(pick))
    case Halted => Stopped
  }

  ghost function Abs(s: System): Machine {
    Machine(Seeing(s), PhaseOf(s), Bag(Accepted(s.rings)), s.delivered, s.discarded)
  }

  // ---- The invariant ----

  predicate PeekStage(c: Spsc.Consumer<RawMessage>) {
    c.CIdle? || ((c.CLoaded? || c.CStale? || c.CReady?) && !c.remove)
  }

  predicate TakeStage(c: Spsc.Consumer<RawMessage>) {
    c.CIdle? || ((c.CLoaded? || c.CStale? || c.CReady?) && c.remove) || c.CTaken?
  }

  /** The consumer is inside at most one ring operation, the one its stage says. */
  ghost predicate Staged(s: System) {
    forall i :: 0 <= i < |s.rings| ==>
      match s.stage
      case Looking(next, _) => if i == next then PeekStage(s.rings[i].consumer) else s.rings[i].consumer.CIdle?
      case Taking(pick, _) => if i == pick.queue then TakeStage(s.rings[i].consumer) else s.rings[i].consumer.CIdle?
      case _ => s.rings[i].consumer.CIdle?
  }

  ghost predicate Decided(s: System) {
    match s.stage
    case Looking(next, pick) => next <= |s.rings| && Held(Queues(s.rings), pick)
    case Taking(pick, polled) =>
      && Held(Queues(s.rings), Some(pick))
      && var v := Settle(Blind(s), Some(pick), polled).verdict; v.Delivered? || v.Discarded?
    case _ => true
  }

  ghost predicate Sound(s: System) {
    && (forall i :: 0 <= i < |s.rings| ==> Spsc.Inv(s.rings[i]))
    && Staged(s) && Decided(s)
  }

  /** Fewer than 2^64 messages have gone through each ring. */
  ghost predicate InRange(s: System) {
    forall i :: 0 <= i < |s.rings| ==> |s.rings[i].accepted| < 0x1_0000_0000_0000_0000
  }

  // ---- Settling sees no queue ----

  lemma SettleBlind(m: Merger, n: Merger, pick: Option<Pick>, polled: bool)
    requires m.expectedSeq == n.expectedSeq && m.lastAppliedSeq == n.lastAppliedSeq && m.gaps == n.gaps
    requires |m.queues| == |n.queues|
    ensures var t, u := Settle(m, pick, polled), Settle(n, pick, polled);
            && t.verdict == u.verdict && t.merger.expectedSeq == u.merger.expectedSeq
            && t.merger.lastAppliedSeq == u.merger.lastAppliedSeq && t.merger.gaps == u.merger.gaps
  {
  }

  // ---- Producers ----

  lemma RingChanged(rings: seq<Ring>, i: nat, r: Ring)
    requires i < |rings|
    ensures Queues(rings[i := r]) == Queues(rings)[i := Spsc.Queue(r)]
    ensures Accepted(rings[i := r]) == Accepted(rings)[i := r.accepted]
    ensures Spsc.Queue(r) == Spsc.Queue(rings[i]) ==> Queues(rings[i := r]) == Queues(rings)
    ensures r.accepted == rings[i].accepted ==> Accepted(rings[i := r]) == Accepted(rings)
  {
    hide Spsc.Queue;
    assert Queues(rings)[i := Spsc.Queue(rings[i])] == Queues(rings);
    assert Accepted(rings)[i := rings[i].accepted] == Accepted(rings);
  }

  /** A producer's micro-step leaves the consumer's side of the ring alone, and accepts an item exactly when it says
      so. */
  lemma ProducerSide(r: Ring, m: Spsc.Move<RawMessage>)
    requires ByProducer(m)
    ensures var o := Spsc.Next(r, m);
            && o.state.consumer == r.consumer
            && o.state.accepted == (if o.event.Accepted? then r.accepted + [o.event.item] else r.accepted)
            && !o.event.Removed? && !o.event.Seen? && !o.event.FoundEmpty?
  {
  }

  lemma ConsumerSide(r: Ring, m: Spsc.Move<RawMessage>)
    requires Spsc.Inv(r) && !ByProducer(m)
    ensures var o := Spsc.Next(r, m);
            && Spsc.Inv(o.state) && o.state.accepted == r.accepted && !o.event.Accepted?
            && Spsc.Allowed(Spsc.Queue(r), r.len, o.event) && Spsc.Queue(o.state) == Spsc.Then(Spsc.Queue(r), o.event)
  {
    assert Spsc.Next(r, m).state.accepted == r.accepted && !Spsc.Next(r, m).event.Accepted?;
    assert |r.accepted| < 0x1_0000_0000_0000_0000;
    Spsc.NextInv(r, m);
    Spsc.NextRefines(r, m);
  }

  /** A peek runs to its answer, which leaves the consumer free again. */
  lemma Peeks(r: Ring)
    requires PeekStage(r.consumer)
    ensures forall c: Spsc.Consumer<RawMessage> :: c.CIdle? ==> PeekStage(c)
    ensures var o := Spsc.Next(r, ConsumerMove(r, false));
            || (o.event.Quiet? && PeekStage(o.state.consumer))
            || ((o.event.Seen? || o.event.FoundEmpty?) && o.state.consumer.CIdle?)
  {
    hide Spsc.Load;
  }

  lemma Takes(r: Ring)
    requires TakeStage(r.consumer)
    ensures var o := Spsc.Next(r, ConsumerMove(r, true));
            || ((o.event.Quiet? || o.event.Seen?) && TakeStage(o.state.consumer))
            || ((o.event.Removed? || o.event.FoundEmpty?) && o.state.consumer.CIdle?)
  {
    hide Spsc.Load;
  }

  lemma AcceptedKept(r: Ring, m: Spsc.Move<RawMessage>)
    ensures |r.accepted| <= |Spsc.Next(r, m).state.accepted|
  {
  }

  // ---- Refinement ----

  /** The action of the abstract machine that a micro-step completes, if any. */
  function Mirror(s: System, a: Act): Option<Action> {
    match a
    case Receive(ring, m) =>
      if ring < |s.rings| && ByProducer(m) && Spsc.Next(s.rings[ring], m).event.Accepted?
      then Some(Arrive(ring, Spsc.Next(s.rings[ring], m).event.item)) else None
    case Call => Some(Begin)
    case Work(polled) =>
      (match s.stage
       case Looking(next, pick) =>
         if next < |s.rings| then
           var e := Spsc.Next(s.rings[next], ConsumerMove(s.rings[next], false)).event;
           if e.Seen? || e.FoundEmpty? then Some(Advance(polled)) else None
         else
           var v := Settle(Blind(s), pick, polled).verdict;
           if v.Delivered? || v.Discarded? then None else Some(Advance(polled))
       case Taking(pick, p) =>
         if pick.queue >= |s.rings| then None else
         var e := Spsc.Next(s.rings[pick.queue], ConsumerMove(s.rings[pick.queue], true)).event;
         if e.Removed? || e.FoundEmpty? then Some(Advance(p)) else None
       case _ => None)
    case Beat(id, lastSeq) => Some(Heartbeat(id, lastSeq))
  }

  ghost function Follow(m: Machine, a: Option<Action>): Machine {
    if a == None then m else Step(m, a.value)
  }

  /** What one micro-step must keep. */
  ghost predicate Refined(s: System, a: Act) {
    Sound(Move(s, a)) && Abs(Move(s, a)) == Follow(Abs(s), Mirror(s, a))
  }

  lemma ReceiveRefined(s: System, ring: nat, m: Spsc.Move<RawMessage>)
    requires Sound(s) && ring < |s.rings| && ByProducer(m)
    requires |Spsc.Next(s.rings[ring], m).state.accepted| < 0x1_0000_0000_0000_0000
    ensures Refined(s, Receive(ring, m))
  {
    hide Spsc.Inv, Spsc.Next, Spsc.Queue, Bag, Settle;
    var r := s.rings[ring];
    var o := Spsc.Next(r, m);
    Spsc.NextInv(r, m);
    Spsc.NextRefines(r, m);
    ProducerSide(r, m);
    RingChanged(s.rings, ring, o.state);
    if o.event.Accepted? { BagAppended(Accepted(s.rings), ring, o.event.item); }
  }

  lemma LookRefined(s: System, polled: bool)
    requires Sound(s) && s.stage.Looking? && s.stage.next < |s.rings|
    ensures Refined(s, Work(polled))
  {
    hide Spsc.Inv, Spsc.Queue, Spsc.Next, PeekStage, Bag, Settle;
    var next := s.stage.next;
    var r := s.rings[next];
    var m := ConsumerMove(r, false);
    var o := Spsc.Next(r, m);
    Peeks(r);
    ConsumerSide(r, m);
    RingChanged(s.rings, next, o.state);
  }

  lemma SettleRefined(s: System, polled: bool)
    requires Sound(s) && s.stage.Looking? && s.stage.next >= |s.rings|
    ensures Refined(s, Work(polled))
  {
    hide Spsc.Inv, Spsc.Queue, Bag, Settle;
    SettleBlind(Blind(s), Seeing(s), s.stage.pick, polled);
    SettleQueues(Seeing(s), s.stage.pick, polled);
    if s.stage.pick == None { SettleNone(Blind(s), polled); }
  }

  lemma TakeRefined(s: System, polled: bool)
    requires Sound(s) && s.stage.Taking?
    ensures Refined(s, Work(polled))
  {
    hide Spsc.Inv, Spsc.Queue, Spsc.Next, TakeStage, Bag, Settle;
    var pick := s.stage.chosen;
    var r := s.rings[pick.queue];
    var m := ConsumerMove(r, true);
    var o := Spsc.Next(r, m);
    Takes(r);
    ConsumerSide(r, m);
    RingChanged(s.rings, pick.queue, o.state);
    SettleBlind(Blind(s), Seeing(s), Some(pick), s.stage.polled);
    SettleQueues(Seeing(s), Some(pick), s.stage.polled);
  }

  /** Every micro-step of any thread is no step or one step of the abstract machine. */
  lemma StepRefined(s: System, a: Act)
    requires Sound(s) && InRange(Move(s, a))
    ensures Refined(s, a)
  {
    hide Settle, Bag, Spsc.Inv, Spsc.Queue, Spsc.Next;
    match a
    case Receive(ring, m) =>
      if ring < |s.rings| && ByProducer(m) {
        assert Move(s, a).rings[ring] == Spsc.Next(s.rings[ring], m).state;
        ReceiveRefined(s, ring, m);
      }
    case Work(polled) =>
      if s.stage.Looking? {
        if s.stage.next < |s.rings| { LookRefined(s, polled); } else { SettleRefined(s, polled); }
      } else if s.stage.Taking? {
        TakeRefined(s, polled);
      }
    case Beat(id, lastSeq) =>
    case Call =>
  }

  lemma AcceptedStays(s: System, a: Act)
    ensures |Move(s, a).rings| == |s.rings|
    ensures forall i :: 0 <= i < |s.rings| ==> |s.rings[i].accepted| <= |Move(s, a).rings[i].accepted|
  {
    hide Settle, Spsc.Next;
    forall r: Ring, m ensures |r.accepted| <= |Spsc.Next(r, m).state.accepted| { AcceptedKept(r, m); }
  }

  lemma {:induction false} EarlierInRange(s: System, acts: seq<Act>)
    requires InRange(Moves(s, acts))
    ensures InRange(s)
    decreases |acts|
  {
    hide Move;
    if acts != [] {
      EarlierInRange(Move(s, acts[0]), acts[1..]);
      AcceptedStays(s, acts[0]);
    }
  }

  /** The schedule of the abstract machine that a schedule of micro-steps carries out. */
  ghost function Mirrors(s: System, acts: seq<Act>): seq<Action>
    decreases |acts|
  {
    if acts == [] then []
    else
      var rest := Mirrors(Move(s, acts[0]), acts[1..]);
      var a := Mirror(s, acts[0]);
      if a == None then rest else [a.value] + rest
  }

  /** Every interleaving of micro-steps is an interleaving of whole peeks, settlements, arrivals and heartbeats. */
  lemma {:induction false} RunRefined(s: System, acts: seq<Act>)
    requires Sound(s) && InRange(Moves(s, acts))
    ensures Sound(Moves(s, acts))
    ensures Abs(Moves(s, acts)) == RunSteps(Abs(s), Mirrors(s, acts))
    decreases |acts|
  {
    hide Sound, InRange, Move, Mirror, Abs, Step;
    if acts != [] {
      var s1 := Move(s, acts[0]);
      EarlierInRange(s1, acts[1..]);
      StepRefined(s, acts[0]);
      RunRefined(s1, acts[1..]);
      var a := Mirror(s, acts[0]);
      if a.Some? { RunFirst(Abs(s), a.value, Mirrors(s1, acts[1..])); }
    }
  }

  // ---- From new rings ----

  ghost predicate AllNew(rings: seq<Ring>, sizes: seq<uint64>) {
    |rings| == |sizes| && forall i :: 0 <= i < |sizes| ==> Spsc.NewQueue<RawMessage>(sizes[i]) == Some(rings[i])
  }

  function NewSystem(rings: seq<Ring>): System {
    System(rings, map[], map[], 0, Resting, [], [])
  }

  lemma NewRefined(rings: seq<Ring>, sizes: seq<uint64>)
    requires AllNew(rings, sizes)
    ensures Sound(NewSystem(rings)) && Abs(NewSystem(rings)) == NewMachine(|rings|)
  {
    hide Spsc.Inv, Spsc.NewQueue;
    forall i | 0 <= i < |sizes| ensures Spsc.Inv(rings[i]) && NewRing(rings[i]) {
      Spsc.NewInv<RawMessage>(sizes[i]);
      NewIsEmpty(sizes[i]);
    }
    assert Queues(rings) == NewMachine(|rings|).merger.queues;
    AllEmptyBag(Accepted(rings));
  }

  ghost predicate NewRing(r: Ring) {
    r.accepted == [] && Spsc.Queue(r) == [] && r.consumer.CIdle?
  }

  lemma NewIsEmpty(size: uint64)
    requires Spsc.NewQueue<RawMessage>(size).Some?
    ensures NewRing(Spsc.NewQueue<RawMessage>(size).value)
  {
  }

  /** From new rings of any sizes, over every interleaving of the threads' micro-steps in which no ring accepts its
      2^64-th message: each message that Enqueue accepted is delivered once, was discarded once below the number
      then awaited, or is still in its ring. */
  lemma NothingLostInRings(rings: seq<Ring>, sizes: seq<uint64>, acts: seq<Act>)
    requires AllNew(rings, sizes) && InRange(Moves(NewSystem(rings), acts))
    ensures var s := Moves(NewSystem(rings), acts);
            && Bag(Accepted(s.rings)) == multiset(s.delivered) + Thrown(s.discarded) + Bag(Queues(s.rings))
            && forall i :: 0 <= i < |s.discarded| ==>
                 s.discarded[i].Discarded? && s.discarded[i].msg.seqNo < s.discarded[i].expected
  {
    hide Moves, RunSteps, Sound, InRange, AllNew, Bag, Thrown;
    NewRefined(rings, sizes);
    RunRefined(NewSystem(rings), acts);
    NothingLost(|rings|, Mirrors(NewSystem(rings), acts));
  }

  /** Over the same interleavings: the delivered numbers of each stream strictly increase if and only if nothing was
      delivered on a stream after its number 2^32 - 1. */
  lemma OrderedThroughRings(rings: seq<Ring>, sizes: seq<uint64>, acts: seq<Act>)
    requires AllNew(rings, sizes) && InRange(Moves(NewSystem(rings), acts))
    ensures var d := Moves(NewSystem(rings), acts).delivered; Increasing(d) <==> NoneAfterLast(d)
  {
    hide Moves, RunSteps, Sound, InRange, AllNew, Increasing, NoneAfterLast;
    NewRefined(rings, sizes);
    RunRefined(NewSystem(rings), acts);
    assert Ordered(NewMachine(|rings|)) by { EmptyOrdered(|rings|); }
    IncreasesUntilLast(NewMachine(|rings|), Mirrors(NewSystem(rings), acts));
  }

  lemma EmptyOrdered(k: nat)
    ensures Ordered(NewMachine(k))
  {
  }
}
