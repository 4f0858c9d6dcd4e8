/** What each message type does to a book, written out from the message's own fields: which order it reaches, which
    fields it sets, which queue and which total it changes, and that nothing else changes. The definitions name none
    of the handlers' functions. */
module Meanings {
  import opened Core
  import opened Sequences
  import opened Books
  import opened Actions
  import opened Views
  import opened Outcomes

  /** Every other order keeps its fields. */
  ghost predicate OrdersKept<K>(b: Book<K>, c: Book<K>, k: K) {
    forall o :: o in b.recs && o != k ==> o in c.recs && c.recs[o] == b.recs[o]
  }

  ghost predicate LevelsKept<K>(b: Book<K>, c: Book<K>, keys: set<Key>) {
    forall key :: key !in keys ==> Fifo(c, key) == Fifo(b, key) && TotalAt(c, key) == TotalAt(b, key)
  }

  ghost predicate QueuesKept<K>(b: Book<K>, c: Book<K>) {
    forall key :: Fifo(c, key) == Fifo(b, key)
  }

  /** The id is known, or its bucket holds fewer than eight. */
  ghost predicate Room<K>(b: Book<K>, id: uint64) {
    id in b.index || |set x | x in b.index && Slot(x, b.mask) == Slot(id, b.mask)| < 8
  }

  ghost predicate Known<K>(b: Book<K>, id: uint64) {
    id in b.index && b.index[id] in b.recs
  }

  /** A new order: an object that was in no level joins the tail of the queue that side and price name, in the
      bids for side byte 'B' and in the asks for any other; its id finds it when there is room. */
  ghost predicate Added<K>(b: Book<K>, c: Book<K>, id: uint64, side: uint8, price: int32, quantity: int32) {
    var key := Key(side == 66, price);
    var n := |Fifo(b, key)|;
    && |Fifo(c, key)| == n + 1 && Fifo(c, key)[..n] == Fifo(b, key)
    && var k := Fifo(c, key)[n];
       && k !in b.recs && c.recs.Keys == b.recs.Keys + {k} && OrdersKept(b, c, k)
       && c.recs[k].id == id && c.recs[k].side == side && c.recs[k].price == price && c.recs[k].qty == quantity
       && c.index == (if Room(b, id) then b.index[id := k] else b.index)
       && TotalAt(c, key) == Wrap64(TotalAt(b, key) + quantity)
       && LevelsKept(b, c, {key})
  }

  /** The order of a known id takes a price and a quantity and keeps id and side. At its old price every queue stays;
      at another one it leaves its queue and joins the tail of the new price's on its own side. */
  ghost predicate Changed<K>(b: Book<K>, c: Book<K>, id: uint64, price: int32, quantity: int32)
    requires Known(b, id)
  {
    var k := b.index[id];
    var r := b.recs[k];
    var from, to := Key(r.side == 66, r.price), Key(r.side == 66, price);
    && c.index == b.index && c.recs.Keys == b.recs.Keys && OrdersKept(b, c, k)
    && c.recs[k].id == r.id && c.recs[k].side == r.side && c.recs[k].price == price && c.recs[k].qty == quantity
    && LevelsKept(b, c, {from, to})
    && if price == r.price then
         QueuesKept(b, c) && TotalAt(c, from) == Wrap64(TotalAt(b, from) + Wrap32(quantity - r.qty))
       else
         && Fifo(c, from) == Without(Fifo(b, from), k) && Fifo(c, to) == Fifo(b, to) + [k]
         && TotalAt(c, from) == Wrap64(TotalAt(b, from) - r.qty)
         && TotalAt(c, to) == Wrap64(Wrap64(TotalAt(b, to) + r.qty) + Wrap32(quantity - r.qty))
  }

  /** The order of a known id leaves the book, its queue and the index; `amount` leaves the total of its level. */
  ghost predicate Gone<K>(b: Book<K>, c: Book<K>, id: uint64, amount: int)
    requires Known(b, id)
  {
    var k := b.index[id];
    var key := Key(b.recs[k].side == 66, b.recs[k].price);
    && c.index == b.index - {id} && c.recs.Keys == b.recs.Keys - {k} && OrdersKept(b, c, k)
    && Fifo(c, key) == Without(Fifo(b, key), k) && TotalAt(c, key) == Wrap64(TotalAt(b, key) - amount)
    && LevelsKept(b, c, {key})
  }

  /** The order of a known id takes a quantity and nothing else; the total of its level moves by `amount`. */
  ghost predicate Resized<K>(b: Book<K>, c: Book<K>, id: uint64, quantity: int32, amount: int)
    requires Known(b, id)
  {
    var k := b.index[id];
    var r := b.recs[k];
    var key := Key(r.side == 66, r.price);
    && c.index == b.index && c.recs.Keys == b.recs.Keys && OrdersKept(b, c, k)
    && c.recs[k].id == r.id && c.recs[k].side == r.side && c.recs[k].price == r.price && c.recs[k].qty == quantity
    && QueuesKept(b, c) && TotalAt(c, key) == Wrap64(TotalAt(b, key) + amount)
    && LevelsKept(b, c, {key})
  }

  /** One side of a trade: id zero and unknown ids are ignored; an order with nothing left, or less, is gone. */
  ghost predicate LegFilled<K>(b: Book<K>, c: Book<K>, id: uint64, quantity: int32) {
    if id == 0 || id !in b.index then c == b
    else
      Known(b, id) &&
      var left := Wrap32(b.recs[b.index[id]].qty - quantity);
      if left > 0 then Resized(b, c, id, left, -(quantity as int)) else Gone(b, c, id, quantity + left)
  }

  /** One side of a trade cancel: id zero is ignored, an unknown id becomes a new order. */
  ghost predicate LegReturned<K>(b: Book<K>, c: Book<K>, id: uint64, side: uint8, price: int32, quantity: int32) {
    if id == 0 then c == b
    else if id !in b.index then Added(b, c, id, side, price, quantity)
    else Known(b, id) && Resized(b, c, id, Wrap32(b.recs[b.index[id]].qty + quantity), quantity)
  }

  /** The message is for this contract. */
  predicate Addresses(msg: RawMessage, token: uint32) {
    || (msg.msgType in ['N', 'G', 'M', 'H', 'X', 'J'] && msg.order.Some? && msg.order.value.token == token)
    || (msg.msgType in ['T', 'C'] && msg.trade.Some? && msg.trade.value.token == token)
  }

  /** What a message makes of a token's book; a trade and its cancellation pass through a book in between. */
  ghost predicate Meant<K>(msg: RawMessage, token: uint32, b: Book<K>, between: Book<K>, c: Book<K>) {
    if !Addresses(msg, token) then c == b
    else
      match msg.msgType
      case 'T' =>
        var t := msg.trade.value;
        LegFilled(b, between, t.buyId, t.quantity) && LegFilled(between, c, t.sellId, t.quantity)
      case 'C' =>
        var t := msg.trade.value;
        && LegReturned(b, between, t.buyId, 66, t.price, t.quantity)
        && LegReturned(between, c, t.sellId, 83, t.price, t.quantity)
      case 'X' | 'J' =>
        var o := msg.order.value;
        if o.orderId in b.index then Known(b, o.orderId) && Gone(b, c, o.orderId, b.recs[b.index[o.orderId]].qty)
        else c == b
      case 'M' | 'H' =>
        var o := msg.order.value;
        if o.orderId in b.index then Known(b, o.orderId) && Changed(b, c, o.orderId, o.price, o.quantity)
        else Added(b, c, o.orderId, o.side, o.price, o.quantity)
      case _ =>
        var o := msg.order.value;
        Added(b, c, o.orderId, o.side, o.price, o.quantity)
  }

  // ---- The handlers mean what the messages say ----

  ghost function Between<K>(b: Book<K>, steps: seq<Step<K>>): Book<K> {
    if steps == [] then b else Apply(b, steps[0])
  }

  lemma AdmitMeans<K>(b: Book<K>, k: K, r: Rec)
    requires Placed(b) && Indexed(b) && k !in b.recs
    ensures Added(b, Admit(b, k, r), r.id, r.side, r.price, r.qty)
  {
    hide Placed, Wrap64, CanPut, Room;
    RoomMeans(b, r.id);
    PlacedAt(b);
    var c, n := Admit(b, k, r), |Fifo(b, KeyOf(r))|;
    assert Fifo(c, KeyOf(r)) == Fifo(b, KeyOf(r)) + [k];
    assert Fifo(c, KeyOf(r))[n] == k;
  }

  lemma RoomMeans<K>(b: Book<K>, id: uint64)
    ensures CanPut(b, id) <==> Room(b, id)
  {
    hide Slot;
    assert BucketIds(b.index, b.mask, Slot(id, b.mask)) == set x | x in b.index && Slot(x, b.mask) == Slot(id, b.mask);
  }

  lemma ModifyMeans<K>(b: Book<K>, r: Rec)
    requires Placed(b) && Indexed(b) && r.id in b.index
    ensures Changed(b, Modify(b, None, r), r.id, r.price, r.qty)
  {
    hide Placed, Changed, Modify;
    if b.recs[b.index[r.id]].price == r.price { ResizeMeans(b, r); } else { MoveMeans(b, r); }
  }

  lemma ResizeMeans<K>(b: Book<K>, r: Rec)
    requires Indexed(b) && r.id in b.index && b.recs[b.index[r.id]].price == r.price
    ensures Changed(b, Modify(b, None, r), r.id, r.price, r.qty)
  {
    hide Wrap64, Without, Link, Unlink;
  }

  lemma MoveMeans<K>(b: Book<K>, r: Rec)
    requires Indexed(b) && r.id in b.index && b.recs[b.index[r.id]].price != r.price
    ensures Changed(b, Modify(b, None, r), r.id, r.price, r.qty)
  {
    hide Wrap64, Without;
  }

  lemma CancelMeans<K>(b: Book<K>, id: uint64)
    requires Indexed(b) && id in b.index
    ensures Gone(b, Cancel(b, id), id, b.recs[b.index[id]].qty)
  {
    hide Wrap64, Without;
  }

  lemma FillMeans<K>(b: Book<K>, id: uint64, quantity: int32)
    requires Indexed(b)
    ensures LegFilled(b, Fill(b, id, quantity), id, quantity)
  {
    hide Wrap32, Wrap64, Without;
    if id != 0 && id in b.index {
      var r := b.recs[b.index[id]];
      Wrap64Add(LevelAt(b, KeyOf(r)).total - quantity, -(Wrap32(r.qty - quantity) as int));
    }
  }

  lemma RestoreMeans<K>(b: Book<K>, h: Option<K>, r: Rec)
    requires Placed(b) && Indexed(b) && Served(b, Step(Return(r), h))
    ensures LegReturned(b, Restore(b, h, r), r.id, r.side, r.price, r.qty)
  {
    hide Placed, Wrap32, Wrap64, Admit, Added;
    if r.id != 0 && r.id !in b.index { AdmitMeans(b, h.value, r); }
  }

  /** One act takes the book to its application; two acts pass through the application of the first. */
  lemma MakesActs<K>(b: Book<K>, steps: seq<Step<K>>, acts: seq<Act>, c: Book<K>)
    requires Makes(b, steps, acts, c) && 1 <= |acts| <= 2
    ensures |steps| == |acts| && steps[0] == Step(acts[0], steps[0].h) && Served(b, steps[0])
    ensures |acts| == 1 ==> c == Apply(b, steps[0])
    ensures |acts| == 2 ==>
              var d := Apply(b, steps[0]);
              steps[1] == Step(acts[1], steps[1].h) && Served(d, steps[1]) && c == Apply(d, steps[1])
  {
    hide Served, Apply;
    if |acts| == 1 {
      assert steps == [steps[0]];
      RunOne(b, steps[0]);
    } else {
      assert steps[1..] == [steps[1]];
      RunOne(Apply(b, steps[0]), steps[1]);
    }
  }

  lemma TwoActsMean<K>(msg: RawMessage, token: uint32, b: Book<K>, steps: seq<Step<K>>, c: Book<K>)
    requires WellFormed(b) && Applied(msg, token, b, steps, c)
    requires msg.msgType in ['T', 'C'] && Addresses(msg, token)
    ensures Meant(msg, token, b, Between(b, steps), c)
  {
    hide WellFormed, Indexed, Placed, LegFilled, LegReturned, Fill, Restore, Served, Makes;
    var t := msg.trade.value;
    MakesActs(b, steps, ActsOf(msg), c);
    var d := Apply(b, steps[0]);
    ApplyUnused(b, steps[0]);
    ApplyWellFormed(b, steps[0]);
    assert Placed(b) && Indexed(b) && Placed(d) && Indexed(d) by { Sorts(b); Sorts(d); }
    if msg.msgType == 'T' {
      FillMeans(b, t.buyId, t.quantity);
      FillMeans(d, t.sellId, t.quantity);
    } else {
      RestoreMeans(b, steps[0].h, Leg(t.buyId, SIDE_BUY, t));
      RestoreMeans(d, steps[1].h, Leg(t.sellId, SIDE_SELL, t));
    }
  }

  lemma Sorts<K>(b: Book<K>)
    requires WellFormed(b)
    ensures Placed(b) && Indexed(b)
    ensures forall id :: id in b.index ==> Known(b, id)
  {
  }

  lemma OneActMeans<K>(msg: RawMessage, token: uint32, b: Book<K>, steps: seq<Step<K>>, c: Book<K>)
    requires WellFormed(b) && Applied(msg, token, b, steps, c)
    requires msg.msgType !in ['T', 'C'] && Addresses(msg, token)
    ensures Meant(msg, token, b, Between(b, steps), c)
  {
    hide WellFormed, Indexed, Placed, Added, Changed, Gone, Admit, Modify, Cancel, Makes, Known;
    var o := msg.order.value;
    MakesActs(b, steps, ActsOf(msg), c);
    ApplyUnused(b, steps[0]);
    assert Placed(b) && Indexed(b) && forall id :: id in b.index ==> Known(b, id) by { Sorts(b); }
    match msg.msgType
    case 'X' | 'J' => if o.orderId in b.index { CancelMeans(b, o.orderId); } else { UnknownRules(b, RecOf(o), None); }
    case 'M' | 'H' =>
      if o.orderId in b.index { ModifyMeans(b, RecOf(o)); ModifyUnhelped(b, steps[0].h, RecOf(o)); }
      else { UnknownRules(b, RecOf(o), steps[0].h); AdmitMeans(b, steps[0].h.value, RecOf(o)); }
    case _ => AdmitMeans(b, steps[0].h.value, RecOf(o));
  }

  lemma ModifyUnhelped<K>(b: Book<K>, h: Option<K>, r: Rec)
    requires r.id in b.index
    ensures Modify(b, h, r) == Modify(b, None, r)
  {
  }

  /** Every message type means to its contract's book what its own fields say, and nothing to another one's. */
  lemma AppliedMeans<K>(msg: RawMessage, token: uint32, b: Book<K>, steps: seq<Step<K>>, c: Book<K>)
    requires WellFormed(b) && Applied(msg, token, b, steps, c)
    ensures Meant(msg, token, b, Between(b, steps), c)
  {
    hide WellFormed, Makes;
    if Addresses(msg, token) {
      if msg.msgType in ['T', 'C'] { TwoActsMean(msg, token, b, steps, c); }
      else { OneActMeans(msg, token, b, steps, c); }
    }
  }
}
