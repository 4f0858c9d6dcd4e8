/** Repeated calls of GetNextMessage with nothing arriving: how fast they drain the queues, and when they
    are a k-way merge. */
module MergerDrains {
  import opened Core
  import opened Mergers
  import opened MergerRuns

  datatype Drained = Drained(merger: Merger, delivered: seq<RawMessage>)

  /** One call for each element of `polls`, which says whether that call had time to poll. */
  function Drain(m: Merger, polls: seq<bool>): Drained
    decreases |polls|
  {
    if polls == [] then Drained(m, []) else
    var t := GetNext(m, polls[0]);
    var d := Drain(t.merger, polls[1..]);
    if t.verdict.Delivered? then Drained(d.merger, [t.verdict.msg] + d.delivered) else d
  }

  ghost predicate AllEmpty(queues: seq<seq<RawMessage>>) {
    forall i :: 0 <= i < |queues| ==> queues[i] == []
  }

  // ---- Draining ----

  /** A call never grows the queues; it panics only when it polls with fewer than four of them; it returns
      nil only after emptying the queues or after skipping a gap. */
  lemma {:induction false} GetNextOutcome(m: Merger, polled: bool)
    ensures var t := GetNext(m, polled);
            && |t.merger.queues| == |m.queues| && |Bag(t.merger.queues)| <= |Bag(m.queues)|
            && !t.verdict.Discarded?
            && (t.verdict.Panicked? ==> polled && |m.queues| < 4)
            && (t.verdict.Nothing? ==> AllEmpty(t.merger.queues))
            && (t.verdict.Delivered? ==> |Bag(t.merger.queues)| < |Bag(m.queues)|)
            && (t.verdict.Skipped? ==> HeadAwaited(t.merger))
    decreases |Bag(m.queues)|
  {
    hide Bag;
    var pick := ScanFrom(m.queues, 0, None);
    var t := Settle(m, pick, polled);
    ScanOldest(m.queues, 0, None);
    SettleQueues(m, pick, polled);
    if pick.Some? { DropBag(m, pick.value.queue); }
    if t.verdict.Discarded? {
      GetNextOutcome(t.merger, polled);
    } else if t.verdict.Skipped? {
      SettleMaps(m, pick, polled);
      SkippedAbove(m, pick, polled);
    }
  }

  lemma SkippedAbove(m: Merger, pick: Option<Pick>, polled: bool)
    requires Settle(m, pick, polled).verdict.Skipped?
    ensures pick.Some? && pick.value.msg.seqNo > 1
  {
  }

  /** The oldest head carries the number its stream awaits. */
  ghost predicate HeadAwaited(m: Merger) {
    var pick := ScanFrom(m.queues, 0, None);
    pick.Some? && pick.value.msg.seqNo == Awaited(m, pick.value.msg.streamId)
  }

  lemma AwaitedNext(m: Merger, polled: bool)
    requires HeadAwaited(m)
    ensures GetNext(m, polled).verdict == Delivered(ScanFrom(m.queues, 0, None).value.msg)
    ensures GetNext(m, polled) == Settle(m, ScanFrom(m.queues, 0, None), polled)
  {
    hide Settle;
    AwaitedDelivers(m, ScanFrom(m.queues, 0, None), polled);
  }

  /** With four queues or more a call ends without a panic, and a nil result means that all queues are
      empty or that the next call returns a message. */
  lemma NilMeansEmptyOrNext(m: Merger, polled: bool, polledNext: bool)
    requires |m.queues| >= 4
    ensures var t := GetNext(m, polled);
            t.verdict.Delivered? || AllEmpty(t.merger.queues) || GetNext(t.merger, polledNext).verdict.Delivered?
  {
    hide GetNext;
    GetNextOutcome(m, polled);
    if HeadAwaited(GetNext(m, polled).merger) { AwaitedNext(GetNext(m, polled).merger, polledNext); }
  }

  lemma TwoCallsShrink(m: Merger, p: bool, q: bool)
    requires |m.queues| >= 4 && |Bag(m.queues)| > 0
    ensures var m1 := GetNext(m, p).merger; |Bag(GetNext(m1, q).merger.queues)| < |Bag(m.queues)|
  {
    hide GetNext, Bag, HeadAwaited;
    var t := GetNext(m, p);
    GetNextOutcome(m, p);
    GetNextOutcome(t.merger, q);
    if t.verdict.Nothing? { AllEmptyBag(t.merger.queues); }
    if t.verdict.Skipped? { AwaitedNext(t.merger, q); }
  }

  /** n queued messages are gone after at most 2n calls. */
  lemma {:induction false} DrainsInTwice(m: Merger, polls: seq<bool>)
    requires |m.queues| >= 4 && |polls| >= 2 * |Bag(m.queues)|
    ensures AllEmpty(Drain(m, polls).merger.queues)
    decreases |polls|
  {
    hide GetNext, Bag, HeadAwaited;
    if |Bag(m.queues)| == 0 {
      EmptyFromBag(m.queues);
      StaysEmpty(m, polls);
    } else {
      var m1 := GetNext(m, polls[0]).merger;
      var m2 := GetNext(m1, polls[1]).merger;
      GetNextOutcome(m, polls[0]);
      GetNextOutcome(m1, polls[1]);
      TwoCallsShrink(m, polls[0], polls[1]);
      DrainsInTwice(m2, polls[2..]);
      assert polls[1..][1..] == polls[2..] && polls[1..][0] == polls[1];
    }
  }

  lemma EmptyFromBag(queues: seq<seq<RawMessage>>)
    requires |Bag(queues)| == 0
    ensures AllEmpty(queues)
  {
    forall i | 0 <= i < |queues| ensures queues[i] == [] {
      if queues[i] != [] { InBag(queues, i, 0); }
    }
  }

  lemma {:induction false} StaysEmpty(m: Merger, polls: seq<bool>)
    requires AllEmpty(m.queues)
    ensures AllEmpty(Drain(m, polls).merger.queues)
    decreases |polls|
  {
    hide Settle;
    if polls != [] {
      ScanOldest(m.queues, 0, None);
      SettleNone(m, polls[0]);
      StaysEmpty(m, polls[1..]);
    }
  }

  // ---- Exactly what a call returns ----

  /** The oldest head, once the heads that are older than awaited have been thrown away. */
  ghost function FirstKept(m: Merger): (p: Option<Pick>)
    ensures p.Some? ==> p.value.msg.seqNo >= Awaited(m, p.value.msg.streamId)
    decreases |Bag(m.queues)|
  {
    var pick := ScanFrom(m.queues, 0, None);
    if pick.Some? && pick.value.msg.seqNo < Awaited(m, pick.value.msg.streamId) then
      ScanOldest(m.queues, 0, None);
      DropBag(m, pick.value.queue);
      FirstKept(Drop(m, pick.value.queue))
    else pick
  }

  lemma {:induction false} FirstKeptSame(m: Merger, n: Merger)
    requires m.queues == n.queues && forall id :: Awaited(m, id) == Awaited(n, id)
    ensures FirstKept(m) == FirstKept(n)
    decreases |Bag(m.queues)|
  {
    hide Bag, Awaited;
    var pick := ScanFrom(m.queues, 0, None);
    if pick.Some? && pick.value.msg.seqNo < Awaited(m, pick.value.msg.streamId) {
      ScanOldest(m.queues, 0, None);
      DropBag(m, pick.value.queue);
      DropAwaits(m, pick.value.queue);
      DropAwaits(n, pick.value.queue);
      FirstKeptSame(Drop(m, pick.value.queue), Drop(n, pick.value.queue));
    }
  }

  lemma DropAwaits(m: Merger, queue: nat)
    ensures forall id :: Awaited(Drop(m, queue), id) == Awaited(m, id)
  {
  }

  /** The queues without the head of one of them. */
  ghost predicate HeadTaken(queues: seq<seq<RawMessage>>, i: nat, rest: seq<seq<RawMessage>>) {
    i < |queues| && queues[i] != [] && rest == queues[i := queues[i][1..]]
  }

  /** What settling a head does, written out: equal to the number awaited, it is delivered and the next number
      awaited; ahead of it, the call panics on a polled wait for one to eight numbers with fewer than four queues,
      and otherwise counts a gap and awaits the head's number; behind it, the head is thrown away. */
  lemma SettleExactly(m: Merger, pick: Option<Pick>, polled: bool)
    requires pick.Some? && Held(m.queues, pick)
    ensures var t, msg, id := Settle(m, pick, polled), pick.value.msg, pick.value.msg.streamId;
            var seen := id in m.expectedSeq && m.expectedSeq[id] != 0;
            var expected := if seen then m.expectedSeq[id] else 1;
            var started := if seen then m.expectedSeq else m.expectedSeq[id := 1];
            var waits := polled && |m.queues| < 4 && 1 <= msg.seqNo - expected <= 8;
            && (msg.seqNo == expected ==>
                  && t.verdict == Delivered(msg) && HeadTaken(m.queues, pick.value.queue, t.merger.queues)
                  && t.merger.expectedSeq == m.expectedSeq[id := (msg.seqNo + 1) % 0x1_0000_0000]
                  && t.merger.lastAppliedSeq == m.lastAppliedSeq[id := msg.seqNo] && t.merger.gaps == m.gaps)
            && (msg.seqNo < expected ==>
                  && t.verdict == Discarded(msg, expected) && HeadTaken(m.queues, pick.value.queue, t.merger.queues)
                  && t.merger == m.(queues := t.merger.queues, expectedSeq := started))
            && (waits ==> t == Turn(m.(expectedSeq := started), Panicked))
            && (msg.seqNo > expected && !waits ==>
                  t == Turn(m.(expectedSeq := m.expectedSeq[id := msg.seqNo], gaps := m.gaps + 1), Skipped))
  {
    hide Add32, Sub32;
    var msg := pick.value.msg;
    NextOfPrevious(msg.seqNo);
    GapBetween(msg.seqNo, Awaited(m, msg.streamId));
    assert m.expectedSeq[msg.streamId := 1][msg.streamId := Add32(msg.seqNo, 1)]
        == m.expectedSeq[msg.streamId := Add32(msg.seqNo, 1)];
    assert m.expectedSeq[msg.streamId := 1][msg.streamId := msg.seqNo] == m.expectedSeq[msg.streamId := msg.seqNo];
    assert Add32(msg.seqNo, 1) == (msg.seqNo + 1) % 0x1_0000_0000 by { NextNumber(msg.seqNo); }
  }

  lemma NextNumber(x: uint32)
    ensures Add32(x, 1) == (x + 1) % 0x1_0000_0000
  {
  }

  lemma GapBetween(x: uint32, y: uint32)
    ensures x > y ==> Sub32(x, y) == x - y
  {
  }

  /** A call returns nil exactly when every queued message is older than awaited, and a message exactly when the
      first that is not is the one awaited. It panics exactly when it polls, there are fewer than four
      queues, and that message is one to eight numbers ahead. */
  lemma {:induction false} GetNextExactly(m: Merger, polled: bool)
    ensures var p, v := FirstKept(m), GetNext(m, polled).verdict;
            && (v.Nothing? <==> p == None)
            && (v.Delivered? <==> p.Some? && p.value.msg.seqNo == Awaited(m, p.value.msg.streamId))
            && (v.Delivered? ==> v.msg == p.value.msg)
            && (v.Panicked? <==>
                  (polled && |m.queues| < 4 && p.Some?
                   && 1 <= p.value.msg.seqNo - Awaited(m, p.value.msg.streamId) <= 8))
    decreases |Bag(m.queues)|
  {
    hide Settle, Bag, Awaited, Drop;
    var pick := ScanFrom(m.queues, 0, None);
    var t := Settle(m, pick, polled);
    ScanOldest(m.queues, 0, None);
    if pick == None {
      SettleNone(m, polled);
      return;
    }
    SettleExactly(m, pick, polled);
    AwaitedIs(m, pick.value.msg.streamId);
    if t.verdict.Discarded? {
      DiscardShrinks(m, polled);
      GetNextExactly(t.merger, polled);
      DropAwaits(m, pick.value.queue);
      forall id ensures Awaited(t.merger, id) == Awaited(m, id) { AwaitedIs(t.merger, id); AwaitedIs(m, id); }
      DropIs(m, pick.value.queue);
      FirstKeptSame(t.merger, Drop(m, pick.value.queue));
    }
  }

  lemma AwaitedIs(m: Merger, id: uint16)
    ensures Awaited(m, id) == if id in m.expectedSeq && m.expectedSeq[id] != 0 then m.expectedSeq[id] else 1
  {
  }

  lemma DropIs(m: Merger, queue: nat)
    requires queue < |m.queues| && m.queues[queue] != []
    ensures Drop(m, queue).queues == m.queues[queue := m.queues[queue][1..]]
  {
  }

  /** After a heartbeat that is ahead, in queues that hold only its stream, everything below its number is thrown
      away and the message that carries its number is the next one delivered. */
  lemma {:induction false} AnnouncedDelivers(n: Merger, id: uint16, lastSeq: uint32, i: nat, olds: seq<RawMessage>,
                                             msg: RawMessage, rest: seq<RawMessage>, polled: bool)
    requires id in n.expectedSeq && n.expectedSeq[id] == lastSeq > 1
    requires i < |n.queues| && n.queues[i] == olds + [msg] + rest
    requires forall j :: 0 <= j < |n.queues| && j != i ==> n.queues[j] == []
    requires forall k :: 0 <= k < |olds| ==> olds[k].streamId == id && olds[k].seqNo < lastSeq
    requires msg.streamId == id && msg.seqNo == lastSeq
    ensures var t := GetNext(n, polled); t.verdict == Delivered(msg) && t.merger.queues == n.queues[i := rest]
    decreases |olds|
  {
    hide Settle, Bag;
    var head := n.queues[i][0];
    ScanOldest(n.queues, 0, None);
    assert n.queues[i] != [];
    var pick := ScanFrom(n.queues, 0, None);
    assert pick == Some(Pick(head, i));
    SettleExactly(n, pick, polled);
    var t := Settle(n, pick, polled);
    if olds == [] {
      assert n.queues[i][1..] == rest;
    } else {
      DiscardShrinks(n, polled);
      assert n.queues[i][1..] == olds[1..] + [msg] + rest;
      AnnouncedDelivers(t.merger, id, lastSeq, i, olds[1..], msg, rest, polled);
      assert n.queues[i := n.queues[i][1..]][i := rest] == n.queues[i := rest];
    }
  }

  /** The same from the heartbeat on: the announced number is delivered next although numbers are missing. */
  lemma HeartbeatDelivers(m: Merger, n: Merger, id: uint16, lastSeq: uint32, i: nat, olds: seq<RawMessage>,
                          msg: RawMessage, rest: seq<RawMessage>, polled: bool)
    requires Announced(m, id, lastSeq, n)
    requires var applied: int := if id in m.lastAppliedSeq then m.lastAppliedSeq[id] else 0; lastSeq > applied + 1
    requires i < |m.queues| && m.queues[i] == olds + [msg] + rest
    requires forall j :: 0 <= j < |m.queues| && j != i ==> m.queues[j] == []
    requires forall k :: 0 <= k < |olds| ==> olds[k].streamId == id && olds[k].seqNo < lastSeq
    requires msg.streamId == id && msg.seqNo == lastSeq
    ensures var t := GetNext(n, polled); t.verdict == Delivered(msg) && t.merger.queues == m.queues[i := rest]
    ensures n.gaps == m.gaps + 1
  {
    hide GetNext;
    AnnouncedDelivers(n, id, lastSeq, i, olds, msg, rest, polled);
  }

  /** A new merger over one queue that starts a little late panics on its first call. */
  lemma SmallGapPanics(msg: RawMessage)
    requires 2 <= msg.seqNo <= 9
    ensures GetNext(Merger([[msg]], map[], map[], 0), true).verdict.Panicked?
  {
    hide GetNext;
    var m := Merger([[msg]], map[], map[], 0);
    GetNextExactly(m, true);
    assert ScanFrom(m.queues, 0, None) == Some(Pick(msg, 0));
  }

  // ---- The k-way merge ----

  /** Queue i carries stream ids[i] alone, in consecutive numbers, and its head is the number awaited. */
  ghost predicate Ready(m: Merger, ids: seq<uint16>) {
    && |ids| == |m.queues|
    && (forall i, j :: 0 <= i < j < |ids| ==> ids[i] != ids[j])
    && (forall i, k :: 0 <= i < |ids| && 0 <= k < |m.queues[i]| ==> Consecutive(m.queues[i], k, ids[i]))
    && (forall i :: 0 <= i < |ids| && m.queues[i] != [] ==> m.queues[i][0].seqNo == Awaited(m, ids[i]))
  }

  ghost predicate Consecutive(q: seq<RawMessage>, k: nat, id: uint16)
    requires k < |q|
  {
    q[k].streamId == id && q[k].seqNo == q[0].seqNo + k
  }

  /** Strictly increasing in (SeqNo, StreamID). */
  ghost predicate Ahead(a: RawMessage, b: RawMessage) {
    a.seqNo < b.seqNo || (a.seqNo == b.seqNo && a.streamId < b.streamId)
  }

  ghost predicate Before(msg: RawMessage, queues: seq<seq<RawMessage>>) {
    forall i, k :: 0 <= i < |queues| && 0 <= k < |queues[i]| ==> Ahead(msg, queues[i][k])
  }

  lemma ReadyPick(m: Merger, ids: seq<uint16>)
    requires Ready(m, ids) && !AllEmpty(m.queues)
    ensures HeadAwaited(m)
    ensures var pick := ScanFrom(m.queues, 0, None);
            Held(m.queues, pick) && OldestSoFar(m.queues, |m.queues|, pick)
            && pick.value.msg.streamId == ids[pick.value.queue]
  {
    ScanOldest(m.queues, 0, None);
    var pick := ScanFrom(m.queues, 0, None);
    var i :| 0 <= i < |m.queues| && m.queues[i] != [];
    assert Consecutive(m.queues[pick.value.queue], 0, ids[pick.value.queue]);
  }

  lemma PickBefore(m: Merger, ids: seq<uint16>, pick: Option<Pick>)
    requires Ready(m, ids) && pick.Some? && Held(m.queues, pick) && OldestSoFar(m.queues, |m.queues|, pick)
    ensures Before(pick.value.msg, Drop(m, pick.value.queue).queues)
  {
    var qs := Drop(m, pick.value.queue).queues;
    forall i, k | 0 <= i < |qs| && 0 <= k < |qs[i]| ensures Ahead(pick.value.msg, qs[i][k]) {
      assert Consecutive(m.queues[i], 0, ids[i]);
      assert Consecutive(m.queues[pick.value.queue], 0, ids[pick.value.queue]);
      if i == pick.value.queue {
        assert qs[i][k] == m.queues[i][k + 1] && Consecutive(m.queues[i], k + 1, ids[i]);
      } else {
        assert qs[i][k] == m.queues[i][k] && Consecutive(m.queues[i], k, ids[i]);
        assert m.queues[i] != [];
      }
    }
  }

  lemma ReadyKept(m: Merger, ids: seq<uint16>, pick: Option<Pick>, polled: bool)
    requires Ready(m, ids) && pick.Some? && Held(m.queues, pick) && pick.value.msg.streamId == ids[pick.value.queue]
    requires Settle(m, pick, polled).verdict.Delivered?
    ensures Ready(Settle(m, pick, polled).merger, ids)
  {
    hide Settle, Add32;
    var t, j := Settle(m, pick, polled), pick.value.queue;
    var qs := t.merger.queues;
    SettleMaps(m, pick, polled);
    SettleQueues(m, pick, polled);
    forall i, k | 0 <= i < |ids| && 0 <= k < |qs[i]| ensures Consecutive(qs[i], k, ids[i]) {
      if i == j {
        assert Consecutive(m.queues[i], k + 1, ids[i]) && Consecutive(m.queues[i], 1, ids[i]);
      } else {
        assert Consecutive(m.queues[i], k, ids[i]);
      }
    }
    forall i | 0 <= i < |ids| && qs[i] != [] ensures qs[i][0].seqNo == Awaited(t.merger, ids[i]) {
      if i == j {
        assert Consecutive(m.queues[i], 1, ids[i]);
        SmallAdd(m.queues[i][0].seqNo, m.queues[i][1].seqNo);
      } else {
        assert ids[i] != ids[j] by { assert i < j || j < i; }
      }
    }
  }

  lemma SmallAdd(x: uint32, y: uint32)
    requires y == x + 1
    ensures Add32(x, 1) == y
  {
  }

  lemma SameGaps(m: Merger, pick: Option<Pick>, polled: bool)
    requires Settle(m, pick, polled).verdict.Delivered?
    ensures Settle(m, pick, polled).merger.gaps == m.gaps
  {
  }

  ghost predicate Sorted(s: seq<RawMessage>) {
    forall i, j :: 0 <= i < j < |s| ==>
      s[i].seqNo < s[j].seqNo || (s[i].seqNo == s[j].seqNo && s[i].streamId < s[j].streamId)
  }

  /** When every stream has a queue of its own, consecutive from the number awaited, n calls deliver the n
      queued messages once each, in strictly increasing order of (SeqNo, StreamID), without a gap. */
  lemma {:induction false} MergesInOrder(m: Merger, ids: seq<uint16>, polls: seq<bool>)
    requires Ready(m, ids) && |polls| == |Bag(m.queues)|
    ensures var d := Drain(m, polls);
            && Sorted(d.delivered) && multiset(d.delivered) == Bag(m.queues)
            && AllEmpty(d.merger.queues) && d.merger.gaps == m.gaps
    decreases |polls|
  {
    hide Bag, GetNext, Settle, Ready, HeadAwaited, Drop;
    if polls == [] {
      EmptyFromBag(m.queues);
    } else {
      if AllEmpty(m.queues) { AllEmptyBag(m.queues); assert false; }
      var pick := ScanFrom(m.queues, 0, None);
      ReadyPick(m, ids);
      AwaitedNext(m, polls[0]);
      var t := GetNext(m, polls[0]);
      var msg := t.verdict.msg;
      SettleQueues(m, pick, polls[0]);
      DropBag(m, pick.value.queue);
      PickBefore(m, ids, pick);
      ReadyKept(m, ids, pick, polls[0]);
      SameGaps(m, pick, polls[0]);
      MergesInOrder(t.merger, ids, polls[1..]);
      var rest := Drain(t.merger, polls[1..]).delivered;
      assert multiset([msg] + rest) == multiset{msg} + multiset(rest);
      forall i | 0 <= i < |rest| ensures Ahead(msg, rest[i]) {
        assert rest[i] in multiset(rest);
        FromBag(t.merger.queues, rest[i], msg);
      }
    }
  }

  lemma {:induction false} FromBag(queues: seq<seq<RawMessage>>, x: RawMessage, msg: RawMessage)
    requires x in Bag(queues) && Before(msg, queues)
    ensures Ahead(msg, x)
  {
    if x in multiset(queues[0]) {
      assert x in queues[0];
    } else {
      assert Before(msg, queues[1..]) by {
        forall i, k | 0 <= i < |queues[1..]| && 0 <= k < |queues[1..][i]| ensures Ahead(msg, queues[1..][i][k]) {
          assert queues[1..][i] == queues[i + 1];
        }
      }
      FromBag(queues[1..], x, msg);
    }
  }

  /** A new merger over queues that each carry one stream from number 1 merges them. */
  lemma NewMergerMerges(queues: seq<seq<RawMessage>>, ids: seq<uint16>, polls: seq<bool>)
    requires |ids| == |queues| && |polls| == |Bag(queues)|
    requires forall i, j :: 0 <= i < j < |ids| ==> ids[i] != ids[j]
    requires forall i, k :: 0 <= i < |ids| && 0 <= k < |queues[i]| ==>
               queues[i][k].streamId == ids[i] && queues[i][k].seqNo == k + 1
    ensures var d := Drain(Merger(queues, map[], map[], 0), polls);
            Sorted(d.delivered) && multiset(d.delivered) == Bag(queues)
            && AllEmpty(d.merger.queues) && d.merger.gaps == 0
  {
    hide Drain;
    var m := Merger(queues, map[], map[], 0);
    assert Ready(m, ids);
    MergesInOrder(m, ids, polls);
  }
}
