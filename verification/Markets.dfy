/** Receivers, merger and books as one system: every micro-step of the rings interleaved with the handling of the
    delivered messages. Whatever the interleaving and whatever objects the allocator hands out, the book of a token is
    made by the acts of the messages delivered to it. */
module Markets {
  import opened Core
  import opened Books
  import opened BookInvariants
  import opened Actions
  import opened SimpleBooks
  import opened Outcomes
  import Mergers
  import MergerRuns
  import Pipelines
  import Spsc = SpscQueues

  datatype Market<K> = Market(
    system: Pipelines.System,
    pending: Option<RawMessage>,             // returned by GetNextMessage and not handled yet
    handled: seq<RawMessage>,                // history: the messages handled
    books: map<uint32, Book<K>>,
    history: map<uint32, seq<Step<K>>>)      // history: the steps taken on each book

  datatype Turn<K> =
    | Receive(ring: nat, move: Spsc.Move<RawMessage>)  // a producer's micro-step
    | Call                                             // the loop asks for the next message
    | Work(polled: bool)                               // the consumer's next micro-step
    | Handle(steps: seq<Step<K>>)                      // ProcessMessage, with the objects it is given

  ghost function BookAt<K>(m: Market<K>, token: uint32): Book<K> {
    if token in m.books then m.books[token] else Empty(BUCKET_MASK)
  }

  ghost function StepsAt<K>(m: Market<K>, token: uint32): seq<Step<K>> {
    if token in m.history then m.history[token] else []
  }

  /** A micro-step of the rings and the merger; what it delivers waits to be handled. */
  function Moved<K>(m: Market<K>, a: Pipelines.Act): Market<K> {
    var s := Pipelines.Move(m.system, a);
    var n := |m.system.delivered|;
    m.(system := s, pending := if |s.delivered| > n then Some(s.delivered[n]) else m.pending)
  }

  /** The micro-step of the merger that a handled message brings: a heartbeat. */
  function Beats(msg: RawMessage): Option<Pipelines.Act> {
    if msg.msgType == 'Z' && msg.lastSeq.Some? then Some(Pipelines.Beat(msg.streamId, msg.lastSeq.value)) else None
  }

  ghost function Handled<K>(m: Market<K>, msg: RawMessage, steps: seq<Step<K>>): Market<K> {
    var s := if Beats(msg).Some? then Pipelines.Move(m.system, Beats(msg).value) else m.system;
    var m1 := m.(system := s, pending := None, handled := m.handled + [msg]);
    match TokenOf(msg)
    case None => m1
    case Some(t) =>
      m1.(books := m.books[t := Run(BookAt(m, t), steps)], history := m.history[t := StepsAt(m, t) + steps])
  }

  /** Steps that the handling of a message may take. */
  ghost predicate Suits<K>(m: Market<K>, msg: RawMessage, steps: seq<Step<K>>) {
    match TokenOf(msg)
    case None => steps == []
    case Some(t) => Enacts(steps, ActsOf(msg)) && ServedAll(BookAt(m, t), steps)
  }

  ghost function Next<K>(m: Market<K>, t: Turn<K>): Market<K> {
    match t
    case Receive(ring, move) => Moved(m, Pipelines.Receive(ring, move))
    case Call => if m.pending.None? then Moved(m, Pipelines.Call) else m
    case Work(polled) => if m.pending.None? then Moved(m, Pipelines.Work(polled)) else m
    case Handle(steps) =>
      if m.pending.Some? && Suits(m, m.pending.value, steps) then Handled(m, m.pending.value, steps) else m
  }

  ghost function After<K>(m: Market<K>, turns: seq<Turn<K>>): Market<K>
    decreases |turns|
  {
    if turns == [] then m else After(Next(m, turns[0]), turns[1..])
  }

  // ---- The invariant ----

  ghost function Waiting<K>(m: Market<K>): seq<RawMessage> {
    if m.pending.Some? then [m.pending.value] else []
  }

  ghost predicate Inv<K>(m: Market<K>) {
    && m.system.delivered == m.handled + Waiting(m)
    && (m.pending.Some? ==> m.system.stage.Resting?)
    && forall t: uint32 :: Makes(Empty(BUCKET_MASK), StepsAt(m, t), ActsForAll(m.handled, t), BookAt(m, t))
  }

  /** One micro-step delivers at most one message, and only the consumer's does. */
  lemma MoveDelivers(s: Pipelines.System, a: Pipelines.Act)
    ensures var d := Pipelines.Move(s, a).delivered;
            d == s.delivered || (a.Work? && |d| == |s.delivered| + 1 && d == s.delivered + [d[|s.delivered|]])
    ensures |Pipelines.Move(s, a).delivered| > |s.delivered| || (a.Receive? && s.stage.Resting?) ==>
              Pipelines.Move(s, a).stage.Resting?
  {
    hide Mergers.Settle, Spsc.Next;
  }

  lemma MovedInv<K>(m: Market<K>, a: Pipelines.Act)
    requires Inv(m) && (m.pending.None? || a.Receive?)
    ensures Inv(Moved(m, a))
  {
    hide Pipelines.Move, Makes;
    MoveDelivers(m.system, a);
    var c := Moved(m, a);
    forall t: uint32
      ensures Makes(Empty(BUCKET_MASK), StepsAt(c, t), ActsForAll(c.handled, t), BookAt(c, t))
    {
      assert StepsAt(c, t) == StepsAt(m, t) && BookAt(c, t) == BookAt(m, t);
    }
  }

  lemma HandledInv<K>(m: Market<K>, steps: seq<Step<K>>)
    requires Inv(m) && m.pending.Some? && Suits(m, m.pending.value, steps)
    ensures Inv(Handled(m, m.pending.value, steps))
  {
    hide Pipelines.Move, Makes, TokenOf;
    var msg := m.pending.value;
    var c := Handled(m, msg, steps);
    if Beats(msg).Some? { MoveDelivers(m.system, Beats(msg).value); }
    forall t: uint32
      ensures Makes(Empty(BUCKET_MASK), StepsAt(c, t), ActsForAll(c.handled, t), BookAt(c, t))
    {
      assert Applied(msg, t, BookAt(m, t), steps, BookAt(c, t)) by { SuitsApplies(m, msg, steps, t); }
      AppliedNext(Empty(BUCKET_MASK), StepsAt(m, t), m.handled, t, BookAt(m, t), msg, steps, BookAt(c, t));
    }
  }

  lemma SuitsApplies<K>(m: Market<K>, msg: RawMessage, steps: seq<Step<K>>, t: uint32)
    requires Suits(m, msg, steps)
    ensures Applied(msg, t, BookAt(m, t), steps, BookAt(Handled(m, msg, steps), t))
  {
    hide Pipelines.Move, TokenOf, ServedAll;
  }

  /** Handling a message does to the books and to the merger what the contract of ProcessMessage says. */
  lemma HandleIsProcessMessage<K>(m: Market<K>, steps: seq<Step<K>>)
    requires Inv(m) && m.pending.Some? && Suits(m, m.pending.value, steps)
    ensures var msg, c := m.pending.value, Next(m, Handle(steps));
            && c.pending == None && c.handled == m.handled + [msg] && c.system.rings == m.system.rings
            && (forall t: uint32 :: Applied(msg, t, BookAt(m, t), steps, BookAt(c, t)))
            && Mergers.Noticed(Pipelines.Seeing(m.system), msg, Pipelines.Seeing(c.system))
  {
    hide Makes, TokenOf, Applied, Suits, Spsc.Queue;
    var msg := m.pending.value;
    forall t: uint32 ensures Applied(msg, t, BookAt(m, t), steps, BookAt(Handled(m, msg, steps), t)) {
      SuitsApplies(m, msg, steps, t);
    }
    if msg.lastSeq.Some? {
      Mergers.UpdateAnnounces(Pipelines.Blind(m.system), msg.streamId, msg.lastSeq.value);
    }
  }

  lemma NextInv<K>(m: Market<K>, t: Turn<K>)
    requires Inv(m)
    ensures Inv(Next(m, t))
  {
    hide Inv, Moved, Handled, Suits;
    match t
    case Receive(ring, move) => MovedInv(m, Pipelines.Receive(ring, move));
    case Call => if m.pending.None? { MovedInv(m, Pipelines.Call); }
    case Work(polled) => if m.pending.None? { MovedInv(m, Pipelines.Work(polled)); }
    case Handle(steps) => if m.pending.Some? && Suits(m, m.pending.value, steps) { HandledInv(m, steps); }
  }

  lemma {:induction false} RunInv<K>(m: Market<K>, turns: seq<Turn<K>>)
    requires Inv(m)
    ensures Inv(After(m, turns))
    decreases |turns|
  {
    hide Inv, Next;
    if turns != [] {
      NextInv(m, turns[0]);
      RunInv(Next(m, turns[0]), turns[1..]);
    }
  }

  // ---- The rings and the merger underneath ----

  /** What a turn does to the rings and the merger. */
  ghost function Under<K>(m: Market<K>, t: Turn<K>): seq<Pipelines.Act> {
    match t
    case Receive(ring, move) => [Pipelines.Receive(ring, move)]
    case Call => if m.pending.None? then [Pipelines.Call] else []
    case Work(polled) => if m.pending.None? then [Pipelines.Work(polled)] else []
    case Handle(steps) =>
      if m.pending.Some? && Suits(m, m.pending.value, steps) && Beats(m.pending.value).Some?
      then [Beats(m.pending.value).value] else []
  }

  lemma NextUnder<K>(m: Market<K>, t: Turn<K>)
    ensures Next(m, t).system == Pipelines.Moves(m.system, Under(m, t))
  {
    hide Pipelines.Move, Suits;
    forall a ensures Pipelines.Moves(m.system, [a]) == Pipelines.Move(m.system, a) {
      assert Pipelines.Moves(Pipelines.Move(m.system, a), [a][1..]) == Pipelines.Move(m.system, a);
    }
  }

  ghost function UnderAll<K>(m: Market<K>, turns: seq<Turn<K>>): seq<Pipelines.Act>
    decreases |turns|
  {
    if turns == [] then [] else Under(m, turns[0]) + UnderAll(Next(m, turns[0]), turns[1..])
  }

  lemma {:induction false} MovesConcat(s: Pipelines.System, x: seq<Pipelines.Act>, y: seq<Pipelines.Act>)
    ensures Pipelines.Moves(s, x + y) == Pipelines.Moves(Pipelines.Moves(s, x), y)
    decreases |x|
  {
    hide Pipelines.Move;
    if x == [] {
      assert x + y == y;
    } else {
      assert (x + y)[1..] == x[1..] + y;
      MovesConcat(Pipelines.Move(s, x[0]), x[1..], y);
    }
  }

  lemma {:induction false} RunUnder<K>(m: Market<K>, turns: seq<Turn<K>>)
    ensures After(m, turns).system == Pipelines.Moves(m.system, UnderAll(m, turns))
    decreases |turns|
  {
    hide Next, Under, Pipelines.Moves;
    if turns == [] {
      NoMoves(m.system);
    } else {
      NextUnder(m, turns[0]);
      RunUnder(Next(m, turns[0]), turns[1..]);
      MovesConcat(m.system, Under(m, turns[0]), UnderAll(Next(m, turns[0]), turns[1..]));
    }
  }

  lemma NoMoves(s: Pipelines.System)
    ensures Pipelines.Moves(s, []) == s
  {
  }

  // ---- From new rings and no contract ----

  ghost function NewMarket<K>(rings: seq<Pipelines.Ring>): Market<K> {
    Market(Pipelines.NewSystem(rings), None, [], map[], map[])
  }

  lemma NewInv<K>(rings: seq<Pipelines.Ring>)
    ensures Inv(NewMarket<K>(rings))
  {
    MakesNothing(Empty<K>(BUCKET_MASK));
  }

  /** From new rings and no contract, over every interleaving of the receivers, the merger and the handler in which no
      ring takes its 2^64-th message: every message that Enqueue accepted has been handled or waits to be, was
      discarded below the number then awaited, or is still in its ring; and the book of every token is made by the
      acts of the messages handled, in the order of delivery. */
  lemma EndToEnd<K>(rings: seq<Pipelines.Ring>, sizes: seq<uint64>, turns: seq<Turn<K>>, token: uint32)
    requires Pipelines.AllNew(rings, sizes) && Pipelines.InRange(After(NewMarket<K>(rings), turns).system)
    ensures var m := After(NewMarket<K>(rings), turns);
            var s := m.system;
            && Mergers.Bag(Pipelines.Accepted(s.rings))
               == multiset(m.handled + Waiting(m)) + MergerRuns.Thrown(s.discarded)
                  + Mergers.Bag(Pipelines.Queues(s.rings))
            && (MergerRuns.Increasing(m.handled + Waiting(m)) <==> MergerRuns.NoneAfterLast(m.handled + Waiting(m)))
            && Makes(Empty(BUCKET_MASK), StepsAt(m, token), ActsForAll(m.handled, token), BookAt(m, token))
  {
    hide After, Makes, Pipelines.Moves, Pipelines.AllNew, Pipelines.InRange, MergerRuns.Increasing,
      MergerRuns.NoneAfterLast, Mergers.Bag, MergerRuns.Thrown;
    var m0 := NewMarket<K>(rings);
    NewInv<K>(rings);
    RunInv(m0, turns);
    RunUnder(m0, turns);
    Pipelines.NothingLostInRings(rings, sizes, UnderAll(m0, turns));
    Pipelines.OrderedThroughRings(rings, sizes, UnderAll(m0, turns));
  }

  /** Hence, while the messages handled bring new ids, buckets have room and no quantity overflows, every book is the
      abstract book of the messages handled, whatever the interleaving and the allocator. */
  lemma MarketRefined<K>(rings: seq<Pipelines.Ring>, turns: seq<Turn<K>>, token: uint32)
    requires SmoothRun(NoOrders(), BUCKET_MASK, ActsForAll(After(NewMarket<K>(rings), turns).handled, token))
    ensures var m := After(NewMarket<K>(rings), turns);
            Clean(BookAt(m, token)) && Abstract(BookAt(m, token)) == SimpleRun(NoOrders(), ActsForAll(m.handled, token))
  {
    hide After, SmoothRun, SimpleRun, Abstract, Clean, AlwaysAgrees, Run, ServedAll, WellFormed;
    var m0 := NewMarket<K>(rings);
    NewInv<K>(rings);
    RunInv(m0, turns);
    var m := After(m0, turns);
    EmptyWellFormed<K>(BUCKET_MASK);
    EmptyAbstract<K>(BUCKET_MASK);
    var acts := ActsForAll(m.handled, token);
    RunRefines(Empty<K>(BUCKET_MASK), StepsAt(m, token), acts);
    AgreesAtEnd(Empty<K>(BUCKET_MASK), StepsAt(m, token), acts, NoOrders());
  }
}
