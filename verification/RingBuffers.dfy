/** The ring buffer as code (internal/core/spsc_queue.go). A call that runs alone is one schedule of the
    protocol of module SpscQueues, and does what a bounded queue does. */
module RingBuffers {
  import opened Core
  import opened Bits
  import opened SpscQueues

  /** One uninterrupted call: the operation begins and its thread moves until the operation is over;
      moves of an idle thread change nothing. */
  function CallMoves<T>(begin: Move<T>, move: Move<T>): seq<Move<T>> {
    [begin, move, move, move, move]
  }

  lemma CallUnfolds<T>(s: State<T>, begin: Move<T>, move: Move<T>)
    ensures var s1 := Next(s, begin).state;
            var s2 := Next(s1, move).state;
            var s3 := Next(s2, move).state;
            var s4 := Next(s3, move).state;
            After(s, CallMoves(begin, move)) == Next(s4, move).state
  {
    hide Next;
    AfterFirst(s, begin, [move, move, move, move]);
    var s1 := Next(s, begin).state;
    AfterFirst(s1, move, [move, move, move]);
    var s2 := Next(s1, move).state;
    AfterFirst(s2, move, [move, move]);
    var s3 := Next(s2, move).state;
    AfterFirst(s3, move, [move]);
    AfterFirst(Next(s3, move).state, move, []);
  }

  lemma AfterFirst<T>(s: State<T>, m: Move<T>, rest: seq<Move<T>>)
    ensures After(s, [m] + rest) == After(Next(s, m).state, rest)
    ensures rest == [] ==> After(s, [m]) == Next(s, m).state
  {
    assert ([m] + rest)[1..] == rest;
  }

  function Published<T>(s: State<T>, item: T): State<T> {
    Store(s, s.head, item).(head := Add64(s.head, 1), accepted := s.accepted + [item])
  }

  /** Two moves publish once there is room; what else the thread does changes nothing. */
  lemma PublishEnds<T>(s: State<T>, item: T)
    requires s.producer == PRoom(item, s.head)
    ensures var s1 := Next(Next(s, Produce).state, Produce).state;
            s1 == Published(s, item).(producer := PIdle) && Next(s1, Produce).state == s1
  {
    hide And, LooksFull, Add64;
  }

  /** Where an uninterrupted Enqueue ends. */
  lemma EnqueueEnds<T>(s: State<T>, item: T)
    requires s.producer.PIdle?
    ensures After(s, CallMoves(BeginEnqueue(item), Produce))
         == if !LooksFull(s, s.head, s.cachedTail) then Published(s, item)
            else if LooksFull(s, s.head, s.tail) then s.(cachedTail := s.tail)
            else Published(s.(cachedTail := s.tail), item)
  {
    hide And, After, Add64, Sub64, Published;
    CallUnfolds(s, BeginEnqueue(item), Produce);
    var s1 := Next(s, BeginEnqueue(item)).state;
    var s2 := Next(s1, Produce).state;
    PublishedIdle(s, item);
    if !LooksFull(s, s.head, s.cachedTail) {
      assert s2 == s.(producer := PRoom(item, s.head));
      PublishEnds(s2, item);
      PublishedSame(s, s2, item);
    } else {
      assert s2 == s.(producer := PStale(item, s.head));
      var s3 := Next(s2, Produce).state;
      if LooksFull(s, s.head, s.tail) {
        assert s3 == s.(cachedTail := s.tail);
      } else {
        assert s3 == s.(cachedTail := s.tail, producer := PRoom(item, s.head));
        PublishEnds(s3, item);
        PublishedSame(s.(cachedTail := s.tail), s3, item);
      }
    }
  }

  lemma PublishedIdle<T>(s: State<T>, item: T)
    ensures Published(s, item).producer == s.producer
  {
    hide And, Add64;
  }

  lemma PublishedSame<T>(s: State<T>, t: State<T>, item: T)
    requires s.producer.PIdle? && s == t.(producer := PIdle)
    ensures Published(s, item) == Published(t, item).(producer := PIdle)
  {
    hide And, Add64;
  }

  function Taken<T>(s: State<T>): State<T> {
    s.(tail := Add64(s.tail, 1), taken := s.taken + 1)
  }

  /** Where an uninterrupted Dequeue or Peek ends. */
  lemma TakeEnds<T>(s: State<T>, remove: bool)
    requires s.consumer.CIdle?
    ensures After(s, CallMoves(if remove then BeginDequeue else BeginPeek, Consume))
         == if s.tail < s.cachedHead then (if remove then Taken(s) else s)
            else if s.tail >= s.head then s.(cachedHead := s.head)
            else if remove then Taken(s.(cachedHead := s.head)) else s.(cachedHead := s.head)
  {
    hide And, Load, After, Add64;
    var begin := if remove then BeginDequeue else BeginPeek;
    CallUnfolds(s, begin, Consume);
    var s1 := Next(s, begin).state;
    var s2 := Next(s1, Consume).state;
    if s.tail < s.cachedHead {
      assert s2 == s.(consumer := CReady(remove, s.tail));
      ReadyEnds(s2, remove);
    } else {
      assert s2 == s.(consumer := CStale(remove, s.tail));
      var s3 := Next(s2, Consume).state;
      if s.tail < s.head {
        assert s3 == s.(cachedHead := s.head, consumer := CReady(remove, s.tail));
        ReadyEnds(s3, remove);
      }
    }
  }

  lemma ReadyEnds<T>(s: State<T>, remove: bool)
    requires s.consumer == CReady(remove, s.tail)
    ensures var s1 := Next(Next(s, Consume).state, Consume).state;
            && s1 == (if remove then Taken(s) else s).(consumer := CIdle) && Next(s1, Consume).state == s1
            && (!remove ==> Next(s, Consume).state == s1)
  {
    hide And, Load, Add64;
  }

  /** Enqueue alone: it succeeds exactly when the queue is not full. */
  lemma EnqueueAlone<T>(s: State<T>, item: T)
    requires Inv(s) && s.producer.PIdle? && s.consumer.CIdle?
    ensures var s1 := After(s, CallMoves(BeginEnqueue(item), Produce));
            && s1.accepted == (if |Queue(s)| < s.len then s.accepted + [item] else s.accepted)
            && (|s1.accepted| < 0x1_0000_0000_0000_0000 ==> Inv(s1))
            && Queue(s1) == (if |Queue(s)| < s.len then Queue(s) + [item] else Queue(s))
            && s1.head == (if |Queue(s)| < s.len then Add64(s.head, 1) else s.head)
            && s1.tail == s.tail && s1.cachedHead == s.cachedHead && s1.taken == s.taken && s1.len == s.len
            && s1.producer.PIdle? && s1.consumer.CIdle?
  {
    hide And, PowerOfTwo, Sub64, Add64, Inv, After, CallMoves, Next;
    var moves := CallMoves(BeginEnqueue(item), Produce);
    EnqueueEnds(s, item);
    assert s.cachedTail <= s.tail <= s.head <= s.cachedTail + s.len && s.len <= 0x8000_0000_0000_0000
      && s.tail == s.taken && s.head == |s.accepted| && Sized(s) by { InvChain(s); }
    FullExact(s, s.head, s.cachedTail);
    FullExact(s, s.head, s.tail);
    if |After(s, moves).accepted| < 0x1_0000_0000_0000_0000 { RunLinearizes(s, moves); }
  }

  lemma InvChain<T>(s: State<T>)
    requires Inv(s)
    ensures Sized(s) && Chained(s) && s.len <= 0x8000_0000_0000_0000
    ensures forall i :: s.tail <= i < s.head ==> i < |s.accepted| && Load(s, i) == Some(s.accepted[i])
    ensures s.len > 0 ==> And(s.head, s.mask) < s.len && And(s.tail, s.mask) < s.len
  {
    hide And;
    LenBound(s);
    if s.len > 0 {
      CellExists(s, s.head);
      CellExists(s, s.tail);
    }
    forall i: uint64 | s.tail <= i < s.head ensures i < |s.accepted| && Load(s, i) == Some(s.accepted[i]) {
      assert Cell(s, i) == Load(s, i);
    }
  }

  /** Dequeue and Peek alone: they return the front exactly when there is one. */
  lemma TakeAlone<T>(s: State<T>, remove: bool)
    requires Inv(s) && s.producer.PIdle? && s.consumer.CIdle?
    ensures var s1 := After(s, CallMoves(if remove then BeginDequeue else BeginPeek, Consume));
            && s1.accepted == s.accepted && Inv(s1)
            && s1.taken == (if remove && Queue(s) != [] then s.taken + 1 else s.taken)
            && Queue(s1) == (if remove && Queue(s) != [] then Queue(s)[1..] else Queue(s))
            && s1.len == s.len && s1.producer.PIdle? && s1.consumer.CIdle?
  {
    hide And, PowerOfTwo, Add64, Inv, After, CallMoves, Next;
    var moves := CallMoves(if remove then BeginDequeue else BeginPeek, Consume);
    TakeEnds(s, remove);
    InvChain(s);
    RunLinearizes(s, moves);
  }

  // ---- The limit ----

  lemma {:induction false} AfterConcat<T>(s: State<T>, x: seq<Move<T>>, y: seq<Move<T>>)
    ensures After(s, x + y) == After(After(s, x), y)
    ensures Events(s, x + y) == Events(s, x) + Events(After(s, x), y)
    decreases |x|
  {
    hide Next;
    if x == [] {
      assert x + y == y;
    } else {
      assert (x + y)[0] == x[0] && (x + y)[1..] == x[1..] + y;
      AfterConcat(Next(s, x[0]).state, x[1..], y);
    }
  }

  /** n calls of Enqueue, each followed by one of Dequeue. */
  lemma {:induction false} Rounds<T>(size: uint64, item: T, n: nat) returns (moves: seq<Move<T>>)
    requires PowerOfTwo(size) && size > 0 && n < 0x1_0000_0000_0000_0000
    ensures NewQueue<T>(size).Some?
    ensures var s := After(NewQueue<T>(size).value, moves);
            Inv(s) && s.len == size && s.producer.PIdle? && s.consumer.CIdle? && |s.accepted| == s.taken == n
    decreases n
  {
    hide Inv, After, Queue, Add64, PowerOfTwo;
    NewInv<T>(size);
    var s0 := NewQueue<T>(size).value;
    if n == 0 {
      moves := [];
      assert After(s0, []) == s0 by { AfterNone(s0); }
    } else {
      var before := Rounds(size, item, n - 1);
      var s := After(s0, before);
      var put, take := CallMoves(BeginEnqueue(item), Produce), CallMoves(BeginDequeue, Consume);
      moves := before + put + take;
      AfterConcat(s0, before, put);
      AfterConcat(s0, before + put, take);
      assert Queue(s) == [] by { QueueSpent(s); }
      EnqueueAlone(s, item);
      TakeAlone(After(s, put), true);
    }
  }

  lemma AfterNone<T>(s: State<T>)
    ensures After(s, []) == s
  {
  }

  lemma QueueSpent<T>(s: State<T>)
    requires |s.accepted| == s.taken
    ensures Queue(s) == []
  {
  }

  /** A consumer that has caught up with a head that has gone back to zero is told that the buffer is empty. */
  lemma ZeroHeadHides<T>(s: State<T>)
    requires s.consumer.CIdle? && s.head == 0 && s.cachedHead <= s.tail
    ensures var moves := [BeginDequeue, Consume, Consume];
            Events(s, moves) == [Quiet, Quiet, FoundEmpty] && Queue(After(s, moves)) == Queue(s)
  {
    hide Load, Store, LooksFull;
    var s1 := Next(s, BeginDequeue).state;
    var s2 := Next(s1, Consume).state;
    EventsFirst(s, BeginDequeue, [Consume, Consume]);
    EventsFirst(s1, Consume, [Consume]);
    EventsFirst(s2, Consume, []);
  }

  lemma EventsFirst<T>(s: State<T>, m: Move<T>, rest: seq<Move<T>>)
    ensures After(s, [m] + rest) == After(Next(s, m).state, rest)
    ensures Events(s, [m] + rest) == [Next(s, m).event] + Events(Next(s, m).state, rest)
    ensures After(Next(s, m).state, []) == Next(s, m).state && Events(Next(s, m).state, []) == []
    ensures [m] + [] == [m]
  {
    assert ([m] + rest)[1..] == rest;
  }

  /** Why 2^64 is the limit, from a new buffer: publishing item number 2^64 takes head back to zero, and a consumer
      that has caught up is then told the buffer is empty while that item is in it. */
  lemma WrapHidesItem<T>(size: uint64, item: T) returns (moves: seq<Move<T>>)
    requires PowerOfTwo(size) && size > 0
    ensures NewQueue<T>(size).Some?
    ensures var s, events := After(NewQueue<T>(size).value, moves), Events(NewQueue<T>(size).value, moves);
            |events| > 0 && events[|events| - 1] == FoundEmpty && Queue(s) == [item]
  {
    hide After, Events, Queue, PowerOfTwo, CallMoves;
    var before := Rounds(size, item, 0xffff_ffff_ffff_ffff);
    var s0 := NewQueue<T>(size).value;
    var s := After(s0, before);
    var put := CallMoves(BeginEnqueue(item), Produce);
    var take: seq<Move<T>> := [BeginDequeue, Consume, Consume];
    moves := before + put + take;
    AfterConcat(s0, before, put);
    AfterConcat(s0, before + put, take);
    assert Queue(s) == [] by { QueueSpent(s); }
    EnqueueAlone(s, item);
    InvChain(s);
    ZeroHeadHides(After(s, put));
  }

  class RingBuffer<T> {
    const buffer: array<Option<T>>
    const mask: uint64
    var head: uint64
    var cachedTail: uint64
    var tail: uint64
    var cachedHead: uint64
    ghost var accepted: seq<T>
    ghost var taken: nat

    ghost function Snapshot(): State<T>
      reads this, buffer
    {
      State(buffer.Length, mask, buffer[..], head, cachedTail, tail, cachedHead, PIdle, CIdle, accepted, taken)
    }

    ghost predicate Valid()
      reads this, buffer
    {
      Inv(Snapshot())
    }

    ghost function Contents(): seq<T>
      reads this, buffer
    {
      Queue(Snapshot())
    }

    constructor (size: uint64)
      requires size == 0 || PowerOfTwo(size)
      ensures Valid() && Contents() == [] && buffer.Length == size && fresh(buffer)
    {
      buffer := new Option<T>[size](_ => None);
      mask := Sub64(size, 1);
      head, cachedTail, tail, cachedHead := 0, 0, 0, 0;
      accepted, taken := [], 0;
      new;
      NewInv<T>(size);
    }

    method Enqueue(item: T) returns (ok: bool)
      requires Valid()
      modifies this`head, this`cachedTail, this`accepted, buffer
      ensures Snapshot() == After(old(Snapshot()), CallMoves(BeginEnqueue(item), Produce))
      ensures ok == (|old(Contents())| < buffer.Length)
      ensures Contents() == if ok then old(Contents()) + [item] else old(Contents())
      ensures |accepted| < 0x1_0000_0000_0000_0000 ==> Valid()
    {
      hide And, PowerOfTwo, Inv, Queue, Sub64, Add64, After, CallMoves;
      ghost var s := Snapshot();
      EnqueueAlone(s, item);
      EnqueueEnds(s, item);
      InvChain(s);
      var pos := head;
      if Sub64(Add64(pos, 1), cachedTail) > buffer.Length {
        cachedTail := tail;
        if Sub64(Add64(pos, 1), cachedTail) > buffer.Length {
          return false;
        }
      }
      NotFullRoom(s, pos);
      buffer[And(pos, mask)] := Some(item);
      head := Add64(pos, 1);
      accepted := accepted + [item];
      ok := true;
    }

    method Dequeue() returns (item: Option<T>)
      requires Valid()
      modifies this`tail, this`cachedHead, this`taken
      ensures Snapshot() == After(old(Snapshot()), CallMoves(BeginDequeue, Consume))
      ensures Valid()
      ensures if old(Contents()) == [] then item == None && Contents() == []
              else item == Some(old(Contents())[0]) && Contents() == old(Contents())[1..]
    {
      hide And, PowerOfTwo, Inv, Add64, After, CallMoves;
      ghost var s := Snapshot();
      TakeAlone(s, true);
      TakeEnds(s, true);
      InvChain(s);
      var pos := tail;
      if pos >= cachedHead {
        cachedHead := head;
        if pos >= cachedHead { return None; }
      }
      item := buffer[And(pos, mask)];
      tail := Add64(pos, 1);
      taken := taken + 1;
    }

    method Peek() returns (item: Option<T>)
      requires Valid()
      modifies this`cachedHead
      ensures Snapshot() == After(old(Snapshot()), CallMoves(BeginPeek, Consume))
      ensures Valid() && Contents() == old(Contents())
      ensures item == if Contents() == [] then None else Some(Contents()[0])
    {
      hide And, PowerOfTwo, Inv, Add64, After, CallMoves;
      ghost var s := Snapshot();
      TakeAlone(s, false);
      TakeEnds(s, false);
      InvChain(s);
      var pos := tail;
      if pos >= cachedHead {
        cachedHead := head;
        if pos >= cachedHead { return None; }
      }
      item := buffer[And(pos, mask)];
    }

    method Depth() returns (depth: uint64)
      requires Valid()
      ensures depth == |Contents()|
    {
      depth := Sub64(head, tail);
    }
  }

  lemma NotFullRoom<T>(s: State<T>, pos: uint64)
    requires Inv(s) && pos == s.head
    requires !LooksFull(s, pos, s.cachedTail) || !LooksFull(s, pos, s.tail)
    ensures s.len > 0
  {
    hide And, PowerOfTwo, LooksFull;
    LenBound(s);
    FullExact(s, pos, s.cachedTail);
    FullExact(s, pos, s.tail);
  }
}
