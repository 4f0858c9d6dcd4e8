/** The lock-free ring buffer as a protocol of atomic micro-steps of one producer and one consumer
    (internal/core/spsc_queue.go). Every interleaving is a sequence of moves. */
module SpscQueues {
  import opened Core
  import opened Bits

  /** Where the producer stands inside Enqueue or Depth. */
  datatype Producer<T> =
    | PIdle
    | PLoaded(item: T, pos: uint64)  // own index loaded; about to look at cachedTail
    | PStale(item: T, pos: uint64)   // full by cachedTail; about to load tail
    | PRoom(item: T, pos: uint64)    // not full; about to store the slot
    | PStored(item: T, pos: uint64)  // slot stored; about to publish head
    | PDepth(pos: uint64)            // head loaded; about to load tail

  /** Where the consumer stands inside Dequeue, Peek or Depth. */
  datatype Consumer<T> =
    | CIdle
    | CLoaded(remove: bool, pos: uint64)     // own index loaded; about to look at cachedHead
    | CStale(remove: bool, pos: uint64)      // empty by cachedHead; about to load head
    | CReady(remove: bool, pos: uint64)      // not empty; about to load the slot
    | CTaken(item: Option<T>, pos: uint64)   // slot loaded; about to publish tail
    | CDepth(headSeen: uint64)               // head loaded; about to load tail

  datatype State<T> = State(
    len: nat, mask: uint64, slots: seq<Option<T>>,
    head: uint64, cachedTail: uint64, tail: uint64, cachedHead: uint64,
    producer: Producer<T>, consumer: Consumer<T>,
    accepted: seq<T>,  // history: items whose Enqueue has published
    taken: nat)        // history: how many Dequeues have published

  datatype Move<T> = BeginEnqueue(item: T) | BeginDepth | Produce | BeginDequeue | BeginPeek | BeginDepthC | Consume

  /** What a micro-step makes known to its caller. */
  datatype Event<T> =
    | Quiet
    | Accepted(item: T)         // Enqueue publishes, to return true
    | Rejected                  // Enqueue loads tail, to return false
    | Removed(got: Option<T>)  // Dequeue publishes, to return an item
    | Seen(got: Option<T>)     // the slot is loaded: what Peek returns
    | FoundEmpty                // Dequeue or Peek loads head, to return nil
    | Measured(depth: uint64)   // Depth returns

  datatype Outcome<T> = Outcome(state: State<T>, event: Event<T>)

  function Add64(x: uint64, y: uint64): uint64 {
    (x + y) % 0x1_0000_0000_0000_0000
  }

  function Sub64(x: uint64, y: uint64): uint64 {
    (x - y) % 0x1_0000_0000_0000_0000
  }

  // ---- The micro-steps ----

  /** The constructor panics on a size that is neither zero nor a power of two. */
  function NewQueue<T>(size: uint64): Option<State<T>> {
    if And(size, Sub64(size, 1)) != 0 then None
    else Some(State(size, Sub64(size, 1), seq(size, _ => None), 0, 0, 0, 0, PIdle, CIdle, [], 0))
  }

  function Load<T>(s: State<T>, pos: uint64): Option<T> {
    var i := And(pos, s.mask);
    if i < |s.slots| then s.slots[i] else None
  }

  function Store<T>(s: State<T>, pos: uint64, item: T): State<T> {
    var i := And(pos, s.mask);
    if i < |s.slots| then s.(slots := s.slots[i := Some(item)]) else s
  }

  function LooksFull<T>(s: State<T>, pos: uint64, tail: uint64): bool {
    Sub64(Add64(pos, 1), tail) > s.len
  }

  function ProducerNext<T>(s: State<T>): Outcome<T> {
    match s.producer
    case PIdle => Outcome(s, Quiet)
    case PLoaded(item, pos) =>
      Outcome(s.(producer := if LooksFull(s, pos, s.cachedTail) then PStale(item, pos) else PRoom(item, pos)), Quiet)
    case PStale(item, pos) =>
      var s1 := s.(cachedTail := s.tail);
      if LooksFull(s, pos, s.tail) then Outcome(s1.(producer := PIdle), Rejected)
      else Outcome(s1.(producer := PRoom(item, pos)), Quiet)
    case PRoom(item, pos) => Outcome(Store(s, pos, item).(producer := PStored(item, pos)), Quiet)
    case PStored(item, pos) =>
      Outcome(s.(head := Add64(pos, 1), producer := PIdle, accepted := s.accepted + [item]), Accepted(item))
    case PDepth(pos) => Outcome(s.(producer := PIdle), Measured(Sub64(pos, s.tail)))
  }

  function ConsumerNext<T>(s: State<T>): Outcome<T> {
    match s.consumer
    case CIdle => Outcome(s, Quiet)
    case CLoaded(remove, pos) =>
      Outcome(s.(consumer := if pos >= s.cachedHead then CStale(remove, pos) else CReady(remove, pos)), Quiet)
    case CStale(remove, pos) =>
      var s1 := s.(cachedHead := s.head);
      if pos >= s.head then Outcome(s1.(consumer := CIdle), FoundEmpty)
      else Outcome(s1.(consumer := CReady(remove, pos)), Quiet)
    case CReady(remove, pos) =>
      var item := Load(s, pos);
      Outcome(s.(consumer := if remove then CTaken(item, pos) else CIdle), Seen(item))
    case CTaken(item, pos) =>
      Outcome(s.(tail := Add64(pos, 1), consumer := CIdle, taken := s.taken + 1), Removed(item))
    case CDepth(headSeen) => Outcome(s.(consumer := CIdle), Measured(Sub64(headSeen, s.tail)))
  }

  /** One move of the scheduler. A thread begins an operation only when it is in none. */
  function Next<T>(s: State<T>, m: Move<T>): Outcome<T> {
    match m
    case BeginEnqueue(item) => Outcome(if s.producer.PIdle? then s.(producer := PLoaded(item, s.head)) else s, Quiet)
    case BeginDepth => Outcome(if s.producer.PIdle? then s.(producer := PDepth(s.head)) else s, Quiet)
    case Produce => ProducerNext(s)
    case BeginDequeue => Outcome(if s.consumer.CIdle? then s.(consumer := CLoaded(true, s.tail)) else s, Quiet)
    case BeginPeek => Outcome(if s.consumer.CIdle? then s.(consumer := CLoaded(false, s.tail)) else s, Quiet)
    case BeginDepthC => Outcome(if s.consumer.CIdle? then s.(consumer := CDepth(s.head)) else s, Quiet)
    case Consume => ConsumerNext(s)
  }

  function After<T>(s: State<T>, moves: seq<Move<T>>): State<T>
    decreases |moves|
  {
    if moves == [] then s else After(Next(s, moves[0]).state, moves[1..])
  }

  function Events<T>(s: State<T>, moves: seq<Move<T>>): seq<Event<T>>
    decreases |moves|
  {
    if moves == [] then [] else [Next(s, moves[0]).event] + Events(Next(s, moves[0]).state, moves[1..])
  }

  // ---- The invariant ----

  ghost predicate Sized<T>(s: State<T>) {
    && |s.slots| == s.len < 0x1_0000_0000_0000_0000
    && s.mask == Sub64(s.len, 1)
    && (s.len == 0 || PowerOfTwo(s.len))
  }

  /** The chain of indices, and every slot between tail and head holding the item accepted there. */
  ghost predicate Chained<T>(s: State<T>) {
    && s.head == |s.accepted| && s.tail == s.taken
    && s.cachedTail <= s.tail <= s.cachedHead <= s.head <= s.cachedTail + s.len
  }

  ghost predicate Filled<T>(s: State<T>) {
    forall i: nat :: s.tail <= i < s.head && i < |s.accepted| ==> Cell(s, i) == Some(s.accepted[i])
  }

  ghost function Cell<T>(s: State<T>, i: nat): Option<T> {
    var j := And(i, s.mask);
    if j < |s.slots| then s.slots[j] else None
  }

  ghost predicate ProducerOk<T>(s: State<T>) {
    match s.producer
    case PIdle => true
    case PLoaded(_, pos) => pos == s.head
    case PStale(_, pos) => pos == s.head
    case PRoom(_, pos) => pos == s.head < s.cachedTail + s.len
    case PStored(item, pos) => pos == s.head < s.cachedTail + s.len && Cell(s, pos) == Some(item)
    case PDepth(pos) => pos == s.head
  }

  ghost predicate ConsumerOk<T>(s: State<T>) {
    match s.consumer
    case CIdle => true
    case CLoaded(_, pos) => pos == s.tail
    case CStale(_, pos) => pos == s.tail
    case CReady(_, pos) => pos == s.tail < s.cachedHead
    case CTaken(item, pos) => pos == s.tail < s.cachedHead && pos < |s.accepted| && item == Some(s.accepted[pos])
    case CDepth(headSeen) => s.tail <= headSeen <= s.head && headSeen <= s.tail + s.len
  }

  ghost predicate Inv<T>(s: State<T>) {
    Sized(s) && Chained(s) && Filled(s) && ProducerOk(s) && ConsumerOk(s)
  }

  // ---- Index arithmetic ----

  lemma SubExact(x: uint64, y: uint64)
    ensures y <= x ==> Sub64(x, y) == x - y
    ensures x < y ==> Sub64(x, y) == x - y + 0x1_0000_0000_0000_0000
  {
  }

  /** The full test is right even when head + 1 wraps. */
  lemma FullExact<T>(s: State<T>, pos: uint64, tail: uint64)
    requires Sized(s) && tail <= pos <= tail + s.len && s.len <= 0x8000_0000_0000_0000
    ensures LooksFull(s, pos, tail) <==> pos == tail + s.len
  {
    SubExact(Add64(pos, 1), tail);
  }

  lemma HalfRange(size: nat)
    requires PowerOfTwo(size) && size < 0x1_0000_0000_0000_0000
    ensures size <= 0x8000_0000_0000_0000
  {
    var n: nat :| size == Pow2(n);
    Pow2Word();
    if n >= 64 { Pow2Monotonic(64, n); } else { Pow2Monotonic(n, 63); }
  }

  lemma LenBound<T>(s: State<T>)
    requires Sized(s)
    ensures s.len <= 0x8000_0000_0000_0000
  {
    if s.len != 0 { HalfRange(s.len); }
  }

  /** Positions less than a buffer apart use different slots, and every slot exists: the producer never
      writes a slot the consumer may still read. */
  lemma CellsApart<T>(s: State<T>, i: nat, j: nat)
    requires Sized(s) && i < j < i + s.len
    ensures And(i, s.mask) != And(j, s.mask)
    ensures And(i, s.mask) < s.len && And(j, s.mask) < s.len
  {
    hide And;
    var n: nat :| s.len == Pow2(n);
    SubExact(s.len, 1);
    SlotsApart(i, j, n);
  }

  lemma CellExists<T>(s: State<T>, i: nat)
    requires Sized(s) && s.len > 0
    ensures And(i, s.mask) < s.len
  {
    SubExact(s.len, 1);
  }

  lemma StoredFills<T>(s: State<T>, pos: uint64, item: T)
    requires Inv(s) && pos == s.head < s.cachedTail + s.len
    ensures var s1 := Store(s, pos, item); Filled(s1) && Cell(s1, pos) == Some(item)
  {
    hide And;
    var s1 := Store(s, pos, item);
    CellExists(s, pos);
    forall i: nat | s.tail <= i < s.head ensures Cell(s1, i) == Cell(s, i) {
      CellsApart(s, i, pos);
    }
  }

  // ---- Every interleaving ----

  /** A move keeps the invariant exactly until the 2^64-th item is accepted, when head wraps to zero. */
  lemma NextInv<T>(s: State<T>, m: Move<T>)
    requires Inv(s)
    ensures Inv(Next(s, m).state) <==> |Next(s, m).state.accepted| < 0x1_0000_0000_0000_0000
  {
    hide And, PowerOfTwo, Sub64, Add64, LooksFull;
    LenBound(s);
    match m
    case Produce => ProduceInv(s);
    case Consume => ConsumeInv(s);
    case _ =>
  }

  lemma CellsSame<T>(s: State<T>, s1: State<T>)
    requires Filled(s) && s1.slots == s.slots && s1.mask == s.mask && s1.accepted == s.accepted
    requires s.tail <= s1.tail && s1.head == s.head
    ensures Filled(s1)
    ensures forall i: nat :: Cell(s1, i) == Cell(s, i)
  {
    hide And;
    forall i: nat ensures Cell(s1, i) == Cell(s, i) { }
  }

  lemma PublishFills<T>(s: State<T>)
    requires Inv(s) && s.producer.PStored? && |s.accepted| + 1 < 0x1_0000_0000_0000_0000
    ensures Filled(ProducerNext(s).state) && ProducerNext(s).state.head == s.head + 1
  {
    hide And;
    var s1 := ProducerNext(s).state;
    forall i: nat | s1.tail <= i < s1.head && i < |s1.accepted| ensures Cell(s1, i) == Some(s1.accepted[i]) {
      assert Cell(s1, i) == Cell(s, i);
    }
  }

  lemma ProduceInv<T>(s: State<T>)
    requires Inv(s)
    ensures Inv(ProducerNext(s).state) <==> |ProducerNext(s).state.accepted| < 0x1_0000_0000_0000_0000
  {
    hide And, PowerOfTwo, Sub64, LooksFull, Filled, Cell;
    LenBound(s);
    match s.producer
    case PLoaded(item, pos) => FullExact(s, pos, s.cachedTail); CellsSame(s, ProducerNext(s).state);
    case PStale(item, pos) => FullExact(s, pos, s.tail); CellsSame(s, ProducerNext(s).state);
    case PRoom(item, pos) => StoredFills(s, pos, item); CellsSame(Store(s, pos, item), ProducerNext(s).state);
    case PStored(item, pos) => if |s.accepted| + 1 < 0x1_0000_0000_0000_0000 { PublishFills(s); }
    case PDepth(pos) => CellsSame(s, ProducerNext(s).state);
    case PIdle =>
  }

  lemma ConsumeInv<T>(s: State<T>)
    requires Inv(s)
    ensures Inv(ConsumerNext(s).state)
  {
    hide And, PowerOfTwo, Sub64;
  }

  lemma NewInv<T>(size: uint64)
    ensures NewQueue<T>(size).Some? <==> size == 0 || PowerOfTwo(size)
    ensures NewQueue<T>(size).Some? ==> Inv(NewQueue<T>(size).value)
  {
    hide And, PowerOfTwo;
    SubExact(size, 1);
    if size == 0 { AndZero(Sub64(size, 1)); } else { PowerOfTwoTest(size); }
  }

  lemma AndZero(b: nat)
    ensures And(0, b) == 0
  {
  }

  // ---- Refinement of a bounded queue ----

  ghost function Queue<T>(s: State<T>): seq<T> {
    if s.taken <= |s.accepted| then s.accepted[s.taken..] else []
  }

  /** What a bounded queue holding `q` allows to happen. */
  ghost predicate Allowed<T>(q: seq<T>, len: nat, e: Event<T>) {
    match e
    case Quiet => true
    case Accepted(_) => |q| < len
    case Rejected => |q| == len
    case Removed(got) => q != [] && got == Some(q[0])
    case Seen(got) => q != [] && got == Some(q[0])
    case FoundEmpty => q == []
    case Measured(depth) => depth <= len
  }

  ghost function Then<T>(q: seq<T>, e: Event<T>): seq<T> {
    match e
    case Accepted(item) => q + [item]
    case Removed(_) => if q == [] then q else q[1..]
    case _ => q
  }

  ghost predicate AllowedAll<T>(q: seq<T>, len: nat, events: seq<Event<T>>)
    decreases |events|
  {
    events == [] || (Allowed(q, len, events[0]) && AllowedAll(Then(q, events[0]), len, events[1..]))
  }

  ghost function ThenAll<T>(q: seq<T>, events: seq<Event<T>>): seq<T>
    decreases |events|
  {
    if events == [] then q else ThenAll(Then(q, events[0]), events[1..])
  }

  /** Each micro-step does to the abstract queue what its event says, at the moment it says it. */
  lemma NextRefines<T>(s: State<T>, m: Move<T>)
    requires Inv(s) && |Next(s, m).state.accepted| < 0x1_0000_0000_0000_0000
    ensures var o := Next(s, m);
            && Allowed(Queue(s), s.len, o.event) && Queue(o.state) == Then(Queue(s), o.event)
            && o.state.len == s.len && |s.accepted| <= |o.state.accepted|
  {
    hide And, PowerOfTwo, LooksFull;
    LenBound(s);
    match m
    case Produce =>
      match s.producer {
        case PStale(item, pos) => FullExact(s, pos, s.tail);
        case PStored(item, pos) =>
        case PDepth(pos) => SubExact(pos, s.tail);
        case _ =>
      }
    case Consume =>
      match s.consumer {
        case CReady(remove, pos) => assert Cell(s, pos) == Load(s, pos);
        case CDepth(headSeen) => SubExact(headSeen, s.tail);
        case _ =>
      }
    case _ =>
  }

  lemma {:induction false} AcceptedGrows<T>(s: State<T>, moves: seq<Move<T>>)
    ensures |s.accepted| <= |After(s, moves).accepted|
    decreases |moves|
  {
    if moves != [] { AcceptedGrows(Next(s, moves[0]).state, moves[1..]); }
  }

  /** Linearizability: in every interleaving the events, each in the middle of its own operation, are a
      history of the bounded queue, and the buffer holds what that history leaves. */
  lemma {:induction false} RunLinearizes<T>(s: State<T>, moves: seq<Move<T>>)
    requires Inv(s) && |After(s, moves).accepted| < 0x1_0000_0000_0000_0000
    ensures Inv(After(s, moves))
    ensures AllowedAll(Queue(s), s.len, Events(s, moves))
    ensures Queue(After(s, moves)) == ThenAll(Queue(s), Events(s, moves))
    decreases |moves|
  {
    hide Inv, Next, Allowed, Then, Queue;
    if moves != [] {
      AcceptedGrows(Next(s, moves[0]).state, moves[1..]);
      NextInv(s, moves[0]);
      NextRefines(s, moves[0]);
      RunLinearizes(Next(s, moves[0]).state, moves[1..]);
      assert Events(s, moves)[1..] == Events(Next(s, moves[0]).state, moves[1..]);
    }
  }

  // ---- What a history of the bounded queue gives its users ----

  ghost function AcceptedItems<T>(events: seq<Event<T>>): seq<T> {
    if events == [] then []
    else if events[0].Accepted? then [events[0].item] + AcceptedItems(events[1..])
    else AcceptedItems(events[1..])
  }

  ghost function RemovedItems<T>(events: seq<Event<T>>): seq<Option<T>> {
    if events == [] then []
    else if events[0].Removed? then [events[0].got] + RemovedItems(events[1..])
    else RemovedItems(events[1..])
  }

  ghost function Somes<T>(q: seq<T>): seq<Option<T>> {
    seq(|q|, i requires 0 <= i < |q| => Some(q[i]))
  }

  lemma SomesAppend<T>(q: seq<T>, item: T, rest: seq<T>)
    ensures Somes(q + [item]) + Somes(rest) == Somes(q) + Somes([item] + rest)
  {
    assert Somes(q + [item]) == Somes(q) + [Some(item)];
    assert Somes([item] + rest) == [Some(item)] + Somes(rest);
  }

  lemma SomesNone<T>()
    ensures Somes<T>([]) == []
  {
  }

  lemma SomesFirst<T>(q: seq<T>)
    requires q != []
    ensures Somes(q) == [Some(q[0])] + Somes(q[1..])
  {
  }

  lemma {:induction false} FirstInFirstOut<T>(q: seq<T>, len: nat, events: seq<Event<T>>)
    requires AllowedAll(q, len, events) && |q| <= len
    ensures RemovedItems(events) + Somes(ThenAll(q, events)) == Somes(q) + Somes(AcceptedItems(events))
    ensures |ThenAll(q, events)| <= len
    decreases |events|
  {
    hide Somes;
    if events == [] {
      SomesNone<T>();
      assert [] + Somes(q) == Somes(q) + [];
    } else {
      var e := events[0];
      FirstInFirstOut(Then(q, e), len, events[1..]);
      var left := Somes(ThenAll(q, events));
      if e.Accepted? {
        SomesAppend(q, e.item, AcceptedItems(events[1..]));
      } else if e.Removed? {
        SomesFirst(q);
        assert ([e.got] + RemovedItems(events[1..])) + left == [e.got] + (RemovedItems(events[1..]) + left);
        assert ([e.got] + Somes(q[1..])) + Somes(AcceptedItems(events[1..]))
            == [e.got] + (Somes(q[1..]) + Somes(AcceptedItems(events[1..])));
      }
    }
  }

  /** On a new buffer, what Dequeue returns is, in order, a prefix of what Enqueue accepted, and never
      more than the buffer's length is in flight. */
  lemma DeliversInOrder<T>(size: uint64, moves: seq<Move<T>>)
    requires NewQueue<T>(size).Some?
    requires |After(NewQueue<T>(size).value, moves).accepted| < 0x1_0000_0000_0000_0000
    ensures var events := Events(NewQueue<T>(size).value, moves);
            && RemovedItems(events) <= Somes(AcceptedItems(events))
            && |AcceptedItems(events)| <= |RemovedItems(events)| + size
  {
    hide Inv, After, Events, ThenAll, AllowedAll, AcceptedItems, RemovedItems;
    var s := NewQueue<T>(size).value;
    var events := Events(s, moves);
    NewInv<T>(size);
    RunLinearizes(s, moves);
    FirstInFirstOut([], size, events);
    assert Somes<T>([]) == [];
    assert [] + Somes(AcceptedItems(events)) == Somes(AcceptedItems(events));
  }

  /** Between a Peek and the next removal the front cannot change: the item removed is the item seen,
      whatever is enqueued in between. */
  lemma {:induction false} RemovesWhatWasSeen<T>(q: seq<T>, len: nat, events: seq<Event<T>>)
    requires |events| >= 2 && AllowedAll(q, len, events)
    requires events[0].Seen? && events[|events| - 1].Removed?
    requires forall i :: 0 < i < |events| - 1 ==> !events[i].Removed?
    ensures events[|events| - 1].got == events[0].got
    decreases |events|
  {
    var e := events[1];
    var rest := events[1..];
    assert AllowedAll(q, len, rest);
    if !e.Removed? {
      var q1 := Then(q, e);
      var again := [events[0]] + rest[1..];
      assert AllowedAll(q1, len, rest[1..]);
      assert again[1..] == rest[1..];
      RemovesWhatWasSeen(q1, len, again);
    }
  }
}
