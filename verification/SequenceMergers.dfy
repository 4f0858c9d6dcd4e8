/** The sequence merger as code over its ring buffers (internal/orderbook/sequencer.go). A call that runs
    alone does what the functions of module Mergers say. */
module SequenceMergers {
  import opened Core
  import opened RingBuffers
  import opened Mergers

  type Ring = RingBuffer<RawMessage>

  ghost function Rings(queues: seq<Ring>): set<object> {
    (set q: Ring | q in queues :: q as object) + (set q: Ring | q in queues :: q.buffer as object)
  }

  lemma RingsHold(queues: seq<Ring>)
    ensures forall i :: 0 <= i < |queues| ==> queues[i] in Rings(queues) && queues[i].buffer in Rings(queues)
  {
    forall i | 0 <= i < |queues| ensures queues[i] in Rings(queues) && queues[i].buffer in Rings(queues) {
      assert queues[i] in queues;
    }
  }

  /** Every queue is in order, and no two share anything. */
  ghost predicate Sound(queues: seq<Ring>)
    reads Rings(queues)
  {
    && (forall i :: 0 <= i < |queues| ==>
          queues[i] in Rings(queues) && queues[i].buffer in Rings(queues) && queues[i].Valid())
    && (forall i, j :: 0 <= i < j < |queues| ==> queues[i] != queues[j] && queues[i].buffer != queues[j].buffer)
  }

  ghost function Queued(queues: seq<Ring>): seq<seq<RawMessage>>
    reads Rings(queues)
  {
    RingsHold(queues);
    seq(|queues|, i requires 0 <= i < |queues| reads Rings(queues) => queues[i].Contents())
  }

  class SequenceMerger {
    var queues: seq<Ring>
    var lastAppliedSeq: map<uint16, uint32>
    var expectedSeq: map<uint16, uint32>
    var gapsDetected: nat

    ghost predicate Valid()
      reads this, Rings(queues)
    {
      Sound(queues)
    }

    ghost function View(): Merger
      reads this, Rings(queues)
    {
      Merger(Queued(queues), expectedSeq, lastAppliedSeq, gapsDetected)
    }

    constructor (queues: seq<Ring>)
      requires Sound(queues)
      ensures Valid() && this.queues == queues && View() == Merger(Queued(queues), map[], map[], 0)
    {
      this.queues := queues;
      lastAppliedSeq, expectedSeq, gapsDetected := map[], map[], 0;
    }

    method PeekQueue(i: nat) returns (msg: Option<RawMessage>)
      requires Valid() && i < |queues|
      modifies queues[i]
      ensures Valid() && View() == old(View())
      ensures msg == if View().queues[i] == [] then None else Some(View().queues[i][0])
    {
      hide RingBuffer.Valid, RingBuffer.Contents;
      msg := queues[i].Peek();
    }

    /** The scan over all queues. */
    method OldestHead() returns (pick: Option<Pick>)
      requires Valid()
      modifies set q: Ring | q in queues
      ensures Valid() && View() == old(View())
      ensures pick == ScanFrom(View().queues, 0, None)
      ensures Held(View().queues, pick) && OldestSoFar(View().queues, |View().queues|, pick)
    {
      hide Sound, Queued;
      pick := None;
      var i := 0;
      assert |View().queues| == |queues| by { QueuedLength(); }
      while i < |queues|
        invariant 0 <= i <= |queues| && Valid() && View() == old(View())
        invariant ScanFrom(View().queues, 0, None) == ScanFrom(View().queues, i, pick)
      {
        var msg := PeekQueue(i);
        if msg.Some? && (pick == None || Older(msg.value, pick.value.msg)) {
          pick := Some(Pick(msg.value, i));
        }
        i := i + 1;
      }
      ScanOldest(View().queues, 0, None);
    }

    lemma Apart()
      ensures this !in Rings(queues)
    {
    }

    lemma QueuedLength()
      ensures |View().queues| == |queues|
    {
    }

    /** Dequeue on one queue. */
    method TakeFrom(i: nat)
      requires Valid() && i < |queues| && View().queues[i] != []
      modifies set q: Ring | q in queues
      ensures Valid() && queues == old(queues)
      ensures expectedSeq == old(expectedSeq) && lastAppliedSeq == old(lastAppliedSeq)
      ensures View() == Drop(old(View()), i)
    {
      hide RingBuffer.Valid, RingBuffer.Contents;
      var _ := queues[i].Dequeue();
      assert View().queues == old(View()).queues[i := old(View()).queues[i][1..]];
    }

    method HandleGap(streamId: uint16, endSeq: uint32)
      requires Valid()
      modifies this`expectedSeq, this`gapsDetected
      ensures Valid() && View() == Mergers.HandleGap(old(View()), streamId, endSeq)
      ensures expectedSeq == old(expectedSeq)[streamId := (endSeq + 1) % 0x1_0000_0000]
      ensures gapsDetected == old(gapsDetected) + 1
    {
      gapsDetected := gapsDetected + 1;
      expectedSeq := expectedSeq[streamId := Add32(endSeq, 1)];
    }

    /** The spin wait: looks at the depths of queues 0 to 3 and always reports that nothing turned up.
        `polled` says whether the clock allowed a look; looking at a queue that is not there panics. */
    method SpinWaitForGap(polled: bool) returns (panicked: bool)
      requires Valid()
      ensures panicked == (polled && |queues| < 4)
    {
      if polled {
        var i := 0;
        while i < 4
          invariant 0 <= i <= 4 && i <= |queues|
        {
          if i >= |queues| { return true; }
          var _ := queues[i].Depth();
          i := i + 1;
        }
      }
      return false;
    }

    /** What follows the scan when some queue holds a message: deliver it, throw it away, or give up the
        numbers in front of it. */
    method SettleHead(pick: Option<Pick>, polled: bool) returns (verdict: Verdict)
      requires Valid() && pick.Some? && Held(View().queues, pick)
      modifies this`expectedSeq, this`lastAppliedSeq, this`gapsDetected, set q: Ring | q in queues
      ensures Valid() && queues == old(queues)
      ensures var t := Settle(old(View()), pick, polled); View() == t.merger && verdict == t.verdict
    {
      hide Sound, Queued;
      QueuedLength();
      Apart();
      var oldest, i := pick.value.msg, pick.value.queue;
      var id, seqNo := oldest.streamId, oldest.seqNo;
      var expected := SeqOf(expectedSeq, id);
      if expected == 0 {
        expectedSeq := expectedSeq[id := 1];
        expected := 1;
      }
      if seqNo == expected {
        TakeFrom(i);
        lastAppliedSeq := lastAppliedSeq[id := seqNo];
        expectedSeq := expectedSeq[id := Add32(seqNo, 1)];
        verdict := Delivered(oldest);
      } else if seqNo > expected {
        if Sub32(seqNo, expected) <= MAX_SPIN_WAIT_GAP {
          var panicked := SpinWaitForGap(polled);
          if panicked { return Panicked; }
        }
        HandleGap(id, Sub32(seqNo, 1));
        verdict := Skipped;
      } else {
        TakeFrom(i);
        verdict := Discarded(oldest, expected);
      }
    }

    /** The next message in sequence, or None; starts over after throwing away a message that is older
        than the number awaited. */
    method GetNextMessage(polled: bool) returns (msg: Option<RawMessage>, panicked: bool)
      requires Valid()
      modifies this`expectedSeq, this`lastAppliedSeq, this`gapsDetected, set q: Ring | q in queues
      ensures Valid() && queues == old(queues)
      ensures var t := GetNext(old(View()), polled);
              && View() == t.merger && panicked == t.verdict.Panicked?
              && msg == if t.verdict.Delivered? then Some(t.verdict.msg) else None
      decreases |Bag(View().queues)|
    {
      hide Sound, Queued, Settle, Bag;
      ghost var m := View();
      var pick := OldestHead();
      ScanOldest(m.queues, 0, None);
      DiscardShrinks(m, polled);
      if pick == None { SettleNothing(m, polled); return None, false; }
      var verdict := SettleHead(pick, polled);
      if verdict.Discarded? {
        msg, panicked := GetNextMessage(polled);
      } else {
        msg := if verdict.Delivered? then Some(verdict.msg) else None;
        panicked := verdict.Panicked?;
      }
    }

    lemma SettleNothing(m: Merger, polled: bool)
      ensures Settle(m, None, polled) == Turn(m, Nothing)
    {
    }

    method UpdateLastSeq(streamId: uint16, lastSeq: uint32)
      requires Valid()
      modifies this`expectedSeq, this`gapsDetected
      ensures Valid() && View() == Mergers.UpdateLastSeq(old(View()), streamId, lastSeq)
      ensures var applied: int := if streamId in lastAppliedSeq then lastAppliedSeq[streamId] else 0;
              if lastSeq > applied + 1 then
                expectedSeq == old(expectedSeq)[streamId := lastSeq] && gapsDetected == old(gapsDetected) + 1
              else
                expectedSeq == old(expectedSeq) && gapsDetected == old(gapsDetected)
    {
      var current := SeqOf(lastAppliedSeq, streamId);
      if lastSeq > current {
        var gap := lastSeq - current;
        if gap > 1 {
          HandleGap(streamId, Sub32(lastSeq, 1));
        }
      }
    }
  }
}
