/** The sequence merger: which message comes next, what happens to gaps and duplicates, and how
    heartbeats move the expected numbers (internal/orderbook/sequencer.go).

    The gap buffer of the source is never filled, so it does not appear. */
module Mergers {
  import opened Core

  /** What the consumer thread owns: the queues' contents and the two sequence maps. */
  datatype Merger = Merger(
    queues: seq<seq<RawMessage>>,
    expectedSeq: map<uint16, uint32>,
    lastAppliedSeq: map<uint16, uint32>,
    gaps: nat)

  /** The oldest message seen so far in a scan, and the queue it heads. */
  datatype Pick = Pick(msg: RawMessage, queue: nat)

  datatype Verdict =
    | Nothing
    | Delivered(msg: RawMessage)
    | Skipped
    | Discarded(msg: RawMessage, expected: uint32)
    | Panicked

  datatype Turn = Turn(merger: Merger, verdict: Verdict)

  function SeqOf(m: map<uint16, uint32>, id: uint16): uint32 {
    if id in m then m[id] else 0
  }

  function Add32(x: uint32, y: uint32): uint32 {
    (x + y) % 0x1_0000_0000
  }

  function Sub32(x: uint32, y: uint32): uint32 {
    (x - y) % 0x1_0000_0000
  }

  // ---- One call of GetNextMessage ----

  predicate Older(a: RawMessage, b: RawMessage) {
    a.seqNo < b.seqNo || (a.seqNo == b.seqNo && a.streamId < b.streamId)
  }

  /** One iteration of the scan: Peek at queue `i`. */
  function PeekAt(queues: seq<seq<RawMessage>>, i: nat, pick: Option<Pick>): Option<Pick>
    requires i < |queues|
  {
    if queues[i] == [] then pick
    else if pick == None || Older(queues[i][0], pick.value.msg) then Some(Pick(queues[i][0], i))
    else pick
  }

  function ScanFrom(queues: seq<seq<RawMessage>>, i: nat, pick: Option<Pick>): Option<Pick>
    decreases |queues| - i
  {
    if i >= |queues| then pick else ScanFrom(queues, i + 1, PeekAt(queues, i, pick))
  }

  function Expect(m: Merger, id: uint16, seqNo: uint32): Merger {
    m.(expectedSeq := m.expectedSeq[id := seqNo])
  }

  /** handleGap: the missing numbers are given up. */
  function HandleGap(m: Merger, id: uint16, endSeq: uint32): Merger {
    Expect(m, id, Add32(endSeq, 1)).(gaps := m.gaps + 1)
  }

  function Drop(m: Merger, queue: nat): Merger {
    if queue < |m.queues| && m.queues[queue] != [] then m.(queues := m.queues[queue := m.queues[queue][1..]]) else m
  }

  /** The number a stream is waiting for; a stream not seen before starts at 1. */
  function Awaited(m: Merger, id: uint16): uint32 {
    if SeqOf(m.expectedSeq, id) == 0 then 1 else SeqOf(m.expectedSeq, id)
  }

  /** What GetNextMessage does once it knows the oldest head. `polled` says whether the clock left the
      spin-wait time for at least one look at the queues; that look indexes queues 0 to 3. */
  function Settle(m: Merger, pick: Option<Pick>, polled: bool): Turn {
    if pick == None then Turn(m, Nothing) else
    var msg, queue := pick.value.msg, pick.value.queue;
    var id, seqNo, expected := msg.streamId, msg.seqNo, Awaited(m, msg.streamId);
    var m1 := if SeqOf(m.expectedSeq, id) == 0 then Expect(m, id, 1) else m;
    if seqNo == expected then
      var m2 := Drop(m1, queue).(lastAppliedSeq := m.lastAppliedSeq[id := seqNo]);
      Turn(Expect(m2, id, Add32(seqNo, 1)), Delivered(msg))
    else if seqNo > expected then
      if Sub32(seqNo, expected) <= MAX_SPIN_WAIT_GAP && polled && |m.queues| < 4 then Turn(m1, Panicked)
      else Turn(HandleGap(m1, id, Sub32(seqNo, 1)), Skipped)
    else
      Turn(Drop(m1, queue), Discarded(msg, expected))
  }

  /** One whole call with nothing arriving meanwhile: settle, and start over after a discard. */
  function GetNext(m: Merger, polled: bool): Turn
    decreases |Bag(m.queues)|
  {
    var t := Settle(m, ScanFrom(m.queues, 0, None), polled);
    if t.verdict.Discarded? then
      DiscardShrinks(m, polled);
      GetNext(t.merger, polled)
    else t
  }

  /** A heartbeat announces the last number sent on a stream. */
  function UpdateLastSeq(m: Merger, id: uint16, lastSeq: uint32): Merger {
    var current := SeqOf(m.lastAppliedSeq, id);
    if lastSeq > current && lastSeq - current > 1 then HandleGap(m, id, Sub32(lastSeq, 1)) else m
  }

  /** What a heartbeat does, written out: a last number that is more than one ahead of the last applied one becomes
      the awaited number and counts as a gap; any other changes nothing. */
  ghost predicate Announced(m: Merger, id: uint16, lastSeq: uint32, n: Merger) {
    var applied: int := if id in m.lastAppliedSeq then m.lastAppliedSeq[id] else 0;
    && n.queues == m.queues && n.lastAppliedSeq == m.lastAppliedSeq
    && n.expectedSeq == (if lastSeq > applied + 1 then m.expectedSeq[id := lastSeq] else m.expectedSeq)
    && n.gaps == (if lastSeq > applied + 1 then m.gaps + 1 else m.gaps)
  }

  lemma UpdateAnnounces(m: Merger, id: uint16, lastSeq: uint32)
    ensures Announced(m, id, lastSeq, UpdateLastSeq(m, id, lastSeq))
  {
  }

  /** What a message does to the merger that delivered it: heartbeats announce, nothing else counts. */
  ghost predicate Noticed(m: Merger, msg: RawMessage, n: Merger) {
    if msg.msgType == 'Z' && msg.lastSeq.Some? then Announced(m, msg.streamId, msg.lastSeq.value, n) else n == m
  }

  // ---- Queued messages ----

  /** All queued messages. */
  ghost function Bag(queues: seq<seq<RawMessage>>): multiset<RawMessage> {
    if queues == [] then multiset{} else multiset(queues[0]) + Bag(queues[1..])
  }

  lemma AddBoth<T>(a: multiset<T>, b: multiset<T>, c: multiset<T>, d: multiset<T>, e: multiset<T>)
    requires b + c == d + e
    ensures (a + b) + c == (a + d) + e
  {
    forall x ensures ((a + b) + c)[x] == ((a + d) + e)[x] { assert (b + c)[x] == (d + e)[x]; }
  }

  lemma CancelBoth<T>(a: multiset<T>, b: multiset<T>, c: multiset<T>, d: multiset<T>)
    requires a + (b + c) == d + c
    ensures d == a + b
  {
    forall x ensures d[x] == (a + b)[x] { assert (a + (b + c))[x] == (d + c)[x]; }
  }

  lemma {:induction false} BagUpdate(queues: seq<seq<RawMessage>>, i: nat, q: seq<RawMessage>)
    requires i < |queues|
    ensures Bag(queues[i := q]) + multiset(queues[i]) == Bag(queues) + multiset(q)
  {
    var first, rest := multiset(queues[0]), queues[1..];
    if i == 0 {
      assert queues[0 := q][1..] == rest;
    } else {
      BagUpdate(rest, i - 1, q);
      assert queues[i := q][1..] == rest[i - 1 := q];
      assert Bag(queues[i := q]) == first + Bag(rest[i - 1 := q]);
      AddBoth(first, Bag(rest[i - 1 := q]), multiset(queues[i]), Bag(rest), multiset(q));
    }
  }

  lemma BagAppended(queues: seq<seq<RawMessage>>, i: nat, x: RawMessage)
    requires i < |queues|
    ensures Bag(queues[i := queues[i] + [x]]) == Bag(queues) + multiset{x}
  {
    hide Bag;
    BagUpdate(queues, i, queues[i] + [x]);
    var grown := Bag(queues[i := queues[i] + [x]]);
    assert multiset(queues[i] + [x]) == multiset(queues[i]) + multiset{x};
    forall y ensures grown[y] == (Bag(queues) + multiset{x})[y] {
      assert (grown + multiset(queues[i]))[y] == (Bag(queues) + multiset(queues[i] + [x]))[y];
    }
  }

  lemma DropBag(m: Merger, queue: nat)
    requires queue < |m.queues| && m.queues[queue] != []
    ensures Bag(m.queues) == Bag(Drop(m, queue).queues) + multiset{m.queues[queue][0]}
  {
    hide Bag;
    var q := m.queues[queue];
    BagUpdate(m.queues, queue, q[1..]);
    assert q == [q[0]] + q[1..];
    CancelBoth(Bag(Drop(m, queue).queues), multiset{q[0]}, multiset(q[1..]), Bag(m.queues));
  }

  lemma {:induction false} InBag(queues: seq<seq<RawMessage>>, i: nat, k: nat)
    requires i < |queues| && k < |queues[i]|
    ensures queues[i][k] in Bag(queues)
  {
    if i > 0 { InBag(queues[1..], i - 1, k); }
  }

  lemma {:induction false} AllEmptyBag(queues: seq<seq<RawMessage>>)
    requires forall i :: 0 <= i < |queues| ==> queues[i] == []
    ensures Bag(queues) == multiset{}
  {
    if queues != [] { AllEmptyBag(queues[1..]); }
  }

  // ---- The scan ----

  /** The pick heads its queue. */
  ghost predicate Held(queues: seq<seq<RawMessage>>, pick: Option<Pick>) {
    pick.Some? ==>
      pick.value.queue < |queues| && queues[pick.value.queue] != [] && queues[pick.value.queue][0] == pick.value.msg
  }

  /** The pick comes before, or level with, every head among the first `i` queues: by number, then by stream. */
  ghost predicate OldestSoFar(queues: seq<seq<RawMessage>>, i: nat, pick: Option<Pick>)
    requires i <= |queues|
  {
    forall j :: 0 <= j < i && queues[j] != [] ==>
      && pick.Some?
      && var p, h := pick.value.msg, queues[j][0];
         p.seqNo < h.seqNo || (p.seqNo == h.seqNo && p.streamId <= h.streamId)
  }

  /** The scan finds a head that no other head is older than, and finds none only when all queues are
      empty. */
  lemma {:induction false} ScanOldest(queues: seq<seq<RawMessage>>, i: nat, pick: Option<Pick>)
    requires i <= |queues| && Held(queues, pick) && OldestSoFar(queues, i, pick)
    ensures var p := ScanFrom(queues, i, pick); Held(queues, p) && OldestSoFar(queues, |queues|, p)
    decreases |queues| - i
  {
    if i < |queues| { ScanOldest(queues, i + 1, PeekAt(queues, i, pick)); }
  }

  lemma DiscardShrinks(m: Merger, polled: bool)
    ensures var t := Settle(m, ScanFrom(m.queues, 0, None), polled);
            t.verdict.Discarded? ==> |Bag(t.merger.queues)| < |Bag(m.queues)|
  {
    hide Bag;
    ScanOldest(m.queues, 0, None);
    var pick := ScanFrom(m.queues, 0, None);
    if pick.Some? {
      SettleQueues(m, pick, polled);
      DropBag(m, pick.value.queue);
    }
  }

  lemma SettleQueues(m: Merger, pick: Option<Pick>, polled: bool)
    ensures var t := Settle(m, pick, polled);
            t.merger.queues ==
              if t.verdict.Delivered? || t.verdict.Discarded? then Drop(m, pick.value.queue).queues else m.queues
    ensures pick.Some? ==> !Settle(m, pick, polled).verdict.Nothing?
  {
  }
}
