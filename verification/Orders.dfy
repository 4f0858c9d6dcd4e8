/** Orders and price levels as the source links them: an intrusive doubly linked FIFO per level
    (internal/core/types.go, internal/orderbook/orderbook.go). */
module Orders {
  import opened Core
  import opened Sequences

  class Order {
    var OrderID: uint64
    var Token: uint32
    var Side: uint8
    var Price: int32
    var Quantity: int32
    var PrevOrder: Order?
    var NextOrder: Order?
    var PriceLevel: PriceLevel?

    constructor ()
      ensures PriceLevel == null && PrevOrder == null && NextOrder == null
    {
      OrderID, Token, Side, Price, Quantity := 0, 0, 0, 0, 0;
      PrevOrder, NextOrder, PriceLevel := null, null, null;
    }

    /** Overwrites a possibly recycled order with the zero value. */
    method Reset()
      modifies this
      ensures OrderID == 0 && Token == 0 && Side == 0 && Price == 0 && Quantity == 0
      ensures PriceLevel == null && PrevOrder == null && NextOrder == null
    {
      OrderID, Token, Side, Price, Quantity := 0, 0, 0, 0, 0;
      PrevOrder, NextOrder, PriceLevel := null, null, null;
    }

    /** The composite literal that fills a newly allocated order: the links start out nil. */
    method Fill(id: uint64, token: uint32, side: uint8, price: int32, quantity: int32)
      modifies this
      ensures OrderID == id && Token == token && Side == side && Price == price && Quantity == quantity
      ensures PriceLevel == null && PrevOrder == null && NextOrder == null
    {
      OrderID, Token, Side, Price, Quantity := id, token, side, price, quantity;
      PrevOrder, NextOrder, PriceLevel := null, null, null;
    }
  }

  /** Which tree a node or level belongs to, for good: levels are only recycled within their tree. */
  datatype Home = Home(token: uint32, ascending: bool)

  class PriceLevel {
    ghost const home: Home
    var Price: int32
    var TotalQty: int64
    var OrderCount: int32
    var FirstOrder: Order?
    var LastOrder: Order?

    constructor (ghost home: Home)
      ensures this.home == home
    {
      this.home := home;
      Price, TotalQty, OrderCount := 0, 0, 0;
      FirstOrder, LastOrder := null, null;
    }

    /** Overwrites a possibly recycled level with an empty one. */
    method Reset(price: int32)
      modifies this
      ensures Price == price && TotalQty == 0 && OrderCount == 0 && FirstOrder == null && LastOrder == null
    {
      Price, TotalQty, OrderCount := price, 0, 0;
      FirstOrder, LastOrder := null, null;
    }
  }

  // ---- The intrusive FIFO of a level ----

  ghost function Neighbour(fifo: seq<Order>, i: int): Order? {
    if 0 <= i < |fifo| then fifo[i] else null
  }

  /** The links of one order: to its level and to its neighbours in the queue. */
  ghost predicate LinkedAt(level: PriceLevel, fifo: seq<Order>, i: nat)
    requires i < |fifo|
    reads {fifo[i]}`PriceLevel, {fifo[i]}`PrevOrder, {fifo[i]}`NextOrder
  {
    && fifo[i].PriceLevel == level
    && fifo[i].PrevOrder == Neighbour(fifo, i - 1)
    && fifo[i].NextOrder == Neighbour(fifo, i + 1)
  }

  /** The level's list runs through `fifo`, first to last, with no order twice. */
  ghost predicate Linked(level: PriceLevel, fifo: seq<Order>)
    reads level`FirstOrder, level`LastOrder, level`OrderCount
    reads Elements(fifo)`PriceLevel, Elements(fifo)`PrevOrder, Elements(fifo)`NextOrder
  {
    && level.FirstOrder == Neighbour(fifo, 0)
    && level.LastOrder == Neighbour(fifo, |fifo| - 1)
    && level.OrderCount == Wrap32(|fifo|)
    && NoDuplicates(fifo)
    && (forall i :: 0 <= i < |fifo| ==> LinkedAt(level, fifo, i))
  }

  /** FIFO append. */
  method AddOrderToLevel(level: PriceLevel, order: Order, ghost fifo: seq<Order>)
    requires Linked(level, fifo) && order !in fifo
    modifies level`TotalQty, level`OrderCount, level`FirstOrder, level`LastOrder
    modifies order`PriceLevel, order`PrevOrder, order`NextOrder, Elements(fifo)`NextOrder
    ensures Linked(level, fifo + [order])
    ensures level.TotalQty == Wrap64(old(level.TotalQty) + order.Quantity)
  {
    var last := level.LastOrder;
    assert |fifo| > 0 ==> LinkedAt(level, fifo, |fifo| - 1) && level.LastOrder in Elements(fifo);
    order.PriceLevel := level;
    order.NextOrder := null;
    order.PrevOrder := level.LastOrder;
    if level.LastOrder != null {
      level.LastOrder.NextOrder := order;
    } else {
      level.FirstOrder := order;
    }
    level.LastOrder := order;
    level.OrderCount := Wrap32(level.OrderCount + 1);
    level.TotalQty := Wrap64(level.TotalQty + order.Quantity);
    WrapCount(|fifo|, 1);
    ghost var queue := fifo + [order];
    forall i | 0 <= i < |queue| ensures LinkedAt(level, queue, i) {
      if i < |fifo| { assert old(LinkedAt(level, fifo, i)); }
    }
  }

  lemma WrapCount(n: int, d: int)
    ensures Wrap32(Wrap32(n) + d) == Wrap32(n + d)
  {
  }

  /** Who stands before and behind a member of the queue once place `at` is gone. */
  lemma NeighboursRemoved(fifo: seq<Order>, at: nat, i: nat)
    requires at < |fifo| && i < |fifo| - 1
    ensures var queue := fifo[..at] + fifo[at + 1..];
            var j := if i < at then i else i + 1;
            && queue[i] == fifo[j]
            && Neighbour(queue, i - 1) == (if j - 1 == at then Neighbour(fifo, at - 1) else Neighbour(fifo, j - 1))
            && Neighbour(queue, i + 1) == (if j + 1 == at then Neighbour(fifo, at + 1) else Neighbour(fifo, j + 1))
  {
  }

  /** The links of a member once its neighbours have been joined across place `at`. */
  ghost predicate JoinedAt(level: PriceLevel, fifo: seq<Order>, at: nat, j: nat)
    requires at < |fifo| && j < |fifo|
    reads {fifo[j]}`PriceLevel, {fifo[j]}`PrevOrder, {fifo[j]}`NextOrder
  {
    && fifo[j].PriceLevel == level
    && fifo[j].PrevOrder == Neighbour(fifo, if j - 1 == at then at - 1 else j - 1)
    && fifo[j].NextOrder == Neighbour(fifo, if j + 1 == at then at + 1 else j + 1)
  }

  lemma JoinedLinked(level: PriceLevel, fifo: seq<Order>, at: nat)
    requires at < |fifo| && NoDuplicates(fifo)
    requires level.FirstOrder == Neighbour(fifo, if at == 0 then 1 else 0)
    requires level.LastOrder == Neighbour(fifo, if at == |fifo| - 1 then at - 1 else |fifo| - 1)
    requires level.OrderCount == Wrap32(|fifo| - 1)
    requires forall j :: 0 <= j < |fifo| && j != at ==> JoinedAt(level, fifo, at, j)
    ensures Linked(level, fifo[..at] + fifo[at + 1..])
  {
    var queue := fifo[..at] + fifo[at + 1..];
    WithoutAt(fifo, at);
    WithoutMembers(fifo, fifo[at]);
    forall i | 0 <= i < |queue| ensures LinkedAt(level, queue, i) {
      NeighboursRemoved(fifo, at, i);
      assert JoinedAt(level, fifo, at, if i < at then i else i + 1);
    }
  }

  /** The pointer updates that take the order at place `at` out of its list. */
  method Detach(order: Order, level: PriceLevel, ghost fifo: seq<Order>, ghost at: nat)
    requires Linked(level, fifo) && at < |fifo| && fifo[at] == order
    modifies level`FirstOrder, level`LastOrder, order`PriceLevel
    modifies order`PrevOrder, order`NextOrder, Elements(fifo)`PrevOrder, Elements(fifo)`NextOrder
    ensures level.FirstOrder == Neighbour(fifo, if at == 0 then 1 else 0)
    ensures level.LastOrder == Neighbour(fifo, if at == |fifo| - 1 then at - 1 else |fifo| - 1)
    ensures forall j :: 0 <= j < |fifo| && j != at ==> JoinedAt(level, fifo, at, j)
    ensures order.PriceLevel == null && order.PrevOrder == null && order.NextOrder == null
  {
    assert LinkedAt(level, fifo, at);
    assert at > 0 ==> LinkedAt(level, fifo, at - 1);
    assert at + 1 < |fifo| ==> LinkedAt(level, fifo, at + 1);
    if order.PrevOrder != null {
      order.PrevOrder.NextOrder := order.NextOrder;
    } else {
      level.FirstOrder := order.NextOrder;
    }
    if order.NextOrder != null {
      order.NextOrder.PrevOrder := order.PrevOrder;
    } else {
      level.LastOrder := order.PrevOrder;
    }
    order.PriceLevel := null;
    order.NextOrder := null;
    order.PrevOrder := null;
    forall j | 0 <= j < |fifo| && j != at ensures JoinedAt(level, fifo, at, j) {
      assert old(LinkedAt(level, fifo, j));
    }
  }

  /** Takes an order out of the level it points to; an order with no level is left alone. */
  method RemoveOrderFromLevel(order: Order, ghost fifo: seq<Order>, ghost at: nat)
    requires order.PriceLevel != null ==> Linked(order.PriceLevel, fifo) && at < |fifo| && fifo[at] == order
    modifies order.PriceLevel
    modifies order`PriceLevel, order`PrevOrder, order`NextOrder, Elements(fifo)`PrevOrder, Elements(fifo)`NextOrder
    ensures old(order.PriceLevel) == null ==> unchanged(order) && unchanged(Elements(fifo))
    ensures old(order.PriceLevel) != null ==>
              var level := old(order.PriceLevel);
              && Linked(level, fifo[..at] + fifo[at + 1..])
              && level.TotalQty == Wrap64(old(level.TotalQty) - order.Quantity) && level.Price == old(level.Price)
              && order.PriceLevel == null && order.PrevOrder == null && order.NextOrder == null
  {
    var level := order.PriceLevel;
    if level == null { return; }
    Detach(order, level, fifo, at);
    level.OrderCount := Wrap32(level.OrderCount - 1);
    level.TotalQty := Wrap64(level.TotalQty - order.Quantity);
    WrapCount(|fifo|, -1);
    JoinedLinked(level, fifo, at);
  }
}
