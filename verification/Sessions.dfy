/** What the handler's code does with several messages in a row. */
module Sessions {
  import opened Core
  import opened Orders
  import opened Books
  import opened Actions
  import opened Outcomes
  import opened Meanings
  import opened OrderMaps
  import opened Contracts
  import opened PriceTrees
  import Mergers
  import opened RoundTrips
  import opened SequenceMergers
  import opened MessageHandlers

  /** A trade message and its cancellation, handled by the code: the contract's book comes back if and only if each
      order id is zero, or finds an order that survives its fill or is what the message describes. */
  method TradeThenCancel(handler: MessageHandler, trade: RawMessage, cancel: RawMessage)
    requires handler.Valid()
    requires trade.msgType == 'T' && cancel.msgType == 'C' && trade.trade.Some? && cancel.trade == trade.trade
    modifies handler, handler.allocator, handler.allocator.orderPool, handler.rng, handler.MarketReach()
    modifies handler.sequencer`expectedSeq, handler.sequencer`gapsDetected
    ensures handler.Valid() && handler.feed == Fed(Fed(old(handler.feed), trade), cancel)
    ensures var token, b := trade.trade.value.token, old(handler.BookOf(trade.trade.value.token));
            Indexed(b) && (SameBook(b, handler.BookOf(token)) <==> Returns(b, trade.trade.value))
  {
    hide MessageHandler.Valid, MessageHandler.BookOf, SequenceMerger.View, Makes, Fed, Beat, SameBook, Returns, Meant,
      Addresses, Between, Mergers.Noticed;
    ghost var token := trade.trade.value.token;
    ghost var b := handler.BookOf(token);
    handler.BooksWellFormed(token);
    ghost var s := handler.ProcessMessage(trade);
    ghost var c := handler.BookOf(token);
    ghost var t := handler.ProcessMessage(cancel);
    OutcomeRoundTrip(b, trade, cancel, s, c, t, handler.BookOf(token));
  }

  /** Time priority in the code: over any turns of the main loop, an order that no delivered message names keeps its
      place, ahead of every order behind it and of every order that comes later. */
  method LoopInTurn(handler: MessageHandler, polls: seq<bool>, ghost token: uint32, ghost x: Order, ghost y: Order)
    requires handler.Valid() && x in handler.BookOf(token).recs
    requires Ahead(Fifo(handler.BookOf(token), KeyOf(handler.BookOf(token).recs[x])), x, y)
    requires var acts := ActsForAll(Turns(handler.sequencer.View(), polls).delivered, token);
             forall i :: 0 <= i < |acts| ==> IdNamed(acts[i]) != handler.BookOf(token).recs[x].id
    modifies handler, handler.allocator, handler.allocator.orderPool, handler.rng, handler.MarketReach()
    modifies handler.sequencer`expectedSeq, handler.sequencer`lastAppliedSeq, handler.sequencer`gapsDetected
    modifies set q: Ring | q in handler.sequencer.queues
    ensures handler.Valid() && x in handler.BookOf(token).recs
    ensures handler.BookOf(token).recs[x] == old(handler.BookOf(token).recs[x])
    ensures Ahead(Fifo(handler.BookOf(token), KeyOf(handler.BookOf(token).recs[x])), x, y)
  {
    hide MessageHandler.Valid, MessageHandler.BookOf, SequenceMerger.View, Makes, Ahead, Turns;
    ghost var b := handler.BookOf(token);
    handler.BooksWellFormed(token);
    ghost var m := handler.sequencer.View();
    ghost var panicked, delivered, steps;
    panicked, delivered, steps := handler.ProcessLoop(polls, token);
    NoneOvertakes(b, steps, ActsForAll(delivered, token), handler.BookOf(token), x, y);
  }

  /** From the bytes of a new order message to the linked objects: with a new id and room in its bucket, the id finds an
      order with the message's fields, last in the list of the level of its price, in the bid tree for side byte 'B'
      and in the ask tree for any other; the level's total has grown by the quantity. */
  method NewOrderFiled(handler: MessageHandler, msg: RawMessage)
    requires handler.Valid() && msg.msgType in ['N', 'G'] && msg.order.Some?
    requires var o := msg.order.value;
             var b := handler.BookOf(o.token);
             o.orderId !in b.index && Room(b, o.orderId)
    modifies handler, handler.allocator, handler.allocator.orderPool, handler.rng, handler.MarketReach()
    modifies handler.sequencer`expectedSeq, handler.sequencer`gapsDetected
    ensures handler.Valid()
    ensures var o := msg.order.value;
            && o.token in handler.contracts
            && var c := handler.contracts[o.token];
               && o.orderId in c.OrdersById.contents
               && var k := c.OrdersById.contents[o.orderId];
                  var levels := if o.side == 66 then c.Bids.Levels() else c.Asks.Levels();
                  && k.OrderID == o.orderId && k.Token == o.token && k.Side == o.side
                  && k.Price == o.price && k.Quantity == o.quantity
                  && o.price in levels && k.PriceLevel == levels[o.price] && levels[o.price].Price == o.price
                  && levels[o.price].LastOrder == k && k.NextOrder == null
                  && levels[o.price].TotalQty
                     == Wrap64(old(TotalAt(handler.BookOf(o.token), Key(o.side == 66, o.price))) + o.quantity)
  {
    hide MessageHandler.Valid, MessageHandler.BookOf, SequenceMerger.View, Applied, Fed, Beat, Between, Room, Meant,
      Addresses, Mergers.Noticed, Contract.Valid, Added, TotalAt, PriceTree.Levels;
    ghost var o := msg.order.value;
    ghost var b := handler.BookOf(o.token);
    ghost var steps := handler.ProcessMessage(msg);
    ForContract(msg);
    handler.Stands(o.token);
    MeantNew(msg, b, Between(b, steps), handler.BookOf(o.token));
    Filed(handler.contracts[o.token], b, o);
  }

  lemma ForContract(msg: RawMessage)
    requires msg.msgType in ['N', 'G', 'X', 'J'] && msg.order.Some?
    ensures Addresses(msg, msg.order.value.token)
  {
  }

  lemma MeantNew<K>(msg: RawMessage, b: Book<K>, between: Book<K>, c: Book<K>)
    requires msg.msgType in ['N', 'G'] && msg.order.Some? && Meant(msg, msg.order.value.token, b, between, c)
    ensures var o := msg.order.value; Added(b, c, o.orderId, o.side, o.price, o.quantity)
  {
  }

  lemma MeantStruck<K>(msg: RawMessage, b: Book<K>, between: Book<K>, c: Book<K>)
    requires msg.msgType in ['X', 'J'] && msg.order.Some? && Meant(msg, msg.order.value.token, b, between, c)
    requires msg.order.value.orderId in b.index
    ensures var id := msg.order.value.orderId; id !in c.index && b.index[id] in b.recs && b.index[id] !in c.recs
  {
  }

  lemma Filed(c: Contract, b: Book<Order>, o: OrderMessage)
    requires c.Valid() && c.Token == o.token && o.orderId !in b.index && Room(b, o.orderId)
    requires Added(b, c.book, o.orderId, o.side, o.price, o.quantity)
    ensures o.orderId in c.OrdersById.contents
    ensures var k := c.OrdersById.contents[o.orderId];
            var levels := if o.side == 66 then c.Bids.Levels() else c.Asks.Levels();
            && k.OrderID == o.orderId && k.Token == o.token && k.Side == o.side
            && k.Price == o.price && k.Quantity == o.quantity
            && o.price in levels && k.PriceLevel == levels[o.price] && levels[o.price].Price == o.price
            && levels[o.price].LastOrder == k && k.NextOrder == null
            && levels[o.price].TotalQty == Wrap64(TotalAt(b, Key(o.side == 66, o.price)) + o.quantity)
  {
    hide Contract.Wired, WellFormed, OrderMap.Valid, Room, Wrap64;
    var key := Key(o.side == 66, o.price);
    var k := c.book.index[o.orderId];
    c.LinkedFields(k);
    c.LevelIsList(key);
    var n := |Fifo(b, key)|;
    assert Fifo(c.book, key)[n] == k;
    assert LinkedAt(k.PriceLevel, Fifo(c.book, key), n);
  }

  /** A cancellation of a known id, down to the objects: the id finds nothing any more, and the order hangs in no
      level and is in the pool. */
  method OrderStruck(handler: MessageHandler, msg: RawMessage, ghost k: Order)
    requires handler.Valid() && msg.msgType in ['X', 'J'] && msg.order.Some?
    requires msg.order.value.token in handler.contracts
    requires var contents := handler.contracts[msg.order.value.token].OrdersById.contents;
             msg.order.value.orderId in contents && contents[msg.order.value.orderId] == k
    modifies handler, handler.allocator, handler.allocator.orderPool, handler.rng, handler.MarketReach()
    modifies handler.sequencer`expectedSeq, handler.sequencer`gapsDetected
    ensures handler.Valid() && msg.order.value.token in handler.contracts
    ensures msg.order.value.orderId !in handler.contracts[msg.order.value.token].OrdersById.contents
    ensures k.PriceLevel == null && k in handler.allocator.orderPool
  {
    hide MessageHandler.Valid, MessageHandler.BookOf, SequenceMerger.View, Applied, Fed, Beat, Between, Meant,
      Addresses, Mergers.Noticed, Contract.Valid;
    ghost var token := msg.order.value.token;
    ghost var b := handler.BookOf(token);
    handler.Stands(token);
    ghost var steps := handler.ProcessMessage(msg);
    ForContract(msg);
    handler.Stands(token);
    MeantStruck(msg, b, Between(b, steps), handler.BookOf(token));
  }
}
