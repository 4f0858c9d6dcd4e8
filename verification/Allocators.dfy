/** The order pool (internal/orderbook/allocator.go). sync.Pool promises only that Get returns some
    pooled object or a new one, and may forget pooled objects at any time. An object is never put in twice,
    so a set describes it. */
module Allocators {
  import opened Orders

  class OrderAllocator {
    var orderPool: set<Order>

    /** Pooled orders hang on nothing. */
    ghost predicate Valid()
      reads this, orderPool`PriceLevel
    {
      forall o :: o in orderPool ==> o.PriceLevel == null
    }

    constructor ()
      ensures Valid() && orderPool == {}
    {
      orderPool := {};
    }

    method AllocateOrder() returns (order: Order)
      requires Valid()
      modifies this, orderPool
      ensures Valid() && orderPool <= old(orderPool) && order !in orderPool
      ensures fresh(order) || order in old(orderPool)
      ensures order.OrderID == 0 && order.Token == 0 && order.Side == 0 && order.Price == 0 && order.Quantity == 0
      ensures order.PriceLevel == null && order.PrevOrder == null && order.NextOrder == null
    {
      var dropped: set<Order> := *;
      orderPool := orderPool - dropped;
      if * {
        order := new Order();
      } else if orderPool != {} {
        order :| order in orderPool;
        orderPool := orderPool - {order};
      } else {
        order := new Order();
      }
      order.Reset();
    }

    method FreeOrder(order: Order)
      requires Valid() && order !in orderPool
      modifies this, order`PrevOrder, order`NextOrder, order`PriceLevel
      ensures Valid() && orderPool == old(orderPool) + {order}
      ensures order.PriceLevel == null && order.PrevOrder == null && order.NextOrder == null
    {
      order.PrevOrder := null;
      order.NextOrder := null;
      order.PriceLevel := null;
      orderPool := orderPool + {order};
    }
  }
}
