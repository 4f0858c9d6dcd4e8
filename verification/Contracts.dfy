/** One contract: the id index, the two price trees and the intrusive level lists, kept in agreement
    with the mathematical book of module Books (internal/orderbook/message_handler.go). */
module Contracts {
  import opened Core
  import opened Bits
  import opened Sequences
  import opened Orders
  import opened PriceTrees
  import opened OrderMaps
  import opened Allocators
  import opened Books
  import opened BookInvariants
  import opened Actions

  /** The object's fields are those of the record. */
  ghost predicate Matches(o: Order, r: Rec, token: uint32)
    reads o`OrderID, o`Side, o`Price, o`Quantity, o`Token
  {
    o.OrderID == r.id && o.Side == r.side && o.Price == r.price && o.Quantity == r.qty && o.Token == token
  }

  ghost predicate Matched(recs: map<Order, Rec>, token: uint32)
    reads recs.Keys`OrderID, recs.Keys`Side, recs.Keys`Price, recs.Keys`Quantity, recs.Keys`Token
  {
    forall o :: o in recs ==> Matches(o, recs[o], token)
  }

  /** The level object carries the level's price, total and list. */
  ghost predicate Carries(level: PriceLevel, key: Key, l: Level<Order>)
    reads level, Elements(l.fifo)`PriceLevel, Elements(l.fifo)`PrevOrder, Elements(l.fifo)`NextOrder
  {
    level.Price == key.price && level.TotalQty == l.total && Linked(level, l.fifo)
  }

  ghost function OtherLevels(objs: map<Key, PriceLevel>, key: Key): set<PriceLevel> {
    (objs - {key}).Values
  }

  ghost function OtherOrders(b: Book<Order>, key: Key): set<Order> {
    set o | o in b.recs && KeyOf(b.recs[o]) != key
  }

  /** All levels but one carry what the book says. */
  ghost predicate CarriedBut(objs: map<Key, PriceLevel>, b: Book<Order>, key: Key)
    reads OtherLevels(objs, key)
    reads OtherOrders(b, key)`PriceLevel, OtherOrders(b, key)`PrevOrder, OtherOrders(b, key)`NextOrder
  {
    forall k :: k in objs && k != key ==>
      objs[k] in OtherLevels(objs, key) && Elements(Fifo(b, k)) <= OtherOrders(b, key)
        && Carries(objs[k], k, LevelAt(b, k))
  }

  ghost predicate Carried(objs: map<Key, PriceLevel>, b: Book<Order>)
    reads objs.Values, b.recs.Keys`PriceLevel, b.recs.Keys`PrevOrder, b.recs.Keys`NextOrder
  {
    forall k :: k in objs ==>
      objs[k] in objs.Values && Elements(Fifo(b, k)) <= b.recs.Keys && Carries(objs[k], k, LevelAt(b, k))
  }

  lemma CarriedSplit(objs: map<Key, PriceLevel>, b: Book<Order>, key: Key)
    requires Carried(objs, b) && Placed(b)
    ensures CarriedBut(objs, b, key)
    ensures key in objs ==> Carries(objs[key], key, LevelAt(b, key))
  {
    forall k | k in objs && k != key
      ensures objs[k] in OtherLevels(objs, key) && Elements(Fifo(b, k)) <= OtherOrders(b, key)
    {
      assert k in (objs - {key}).Keys;
    }
  }

  lemma OthersInUse(objs: map<Key, PriceLevel>, key: Key)
    ensures OtherLevels(objs, key) <= objs.Values
  {
  }

  lemma CarriedJoin(objs: map<Key, PriceLevel>, b: Book<Order>, key: Key, objs': map<Key, PriceLevel>, b': Book<Order>)
    requires CarriedBut(objs, b, key) && Placed(b')
    requires key in objs' && objs'.Keys == objs.Keys + {key}
    requires forall k :: k in objs && k != key ==> objs'[k] == objs[k]
    requires forall k :: k != key ==> LevelAt(b', k) == LevelAt(b, k)
    requires Carries(objs'[key], key, LevelAt(b', key))
    ensures Carried(objs', b')
  {
    forall k | k in objs'
      ensures objs'[k] in objs'.Values && Elements(Fifo(b', k)) <= b'.recs.Keys && Carries(objs'[k], k, LevelAt(b', k))
    {
      if k != key { assert k in objs; }
    }
  }

  /** Orders at a level are the linked orders that are not elsewhere. */
  lemma OrdersApart(b: Book<Order>, key: Key)
    requires Placed(b)
    ensures Elements(Fifo(b, key)) <= b.recs.Keys && Elements(Fifo(b, key)) !! OtherOrders(b, key)
    ensures OtherOrders(b, key) <= b.recs.Keys && NoDuplicates(Fifo(b, key))
  {
  }

  lemma MatchedAdded(recs: map<Order, Rec>, order: Order, r: Rec, token: uint32)
    requires Matched(recs, token) && Matches(order, r, token)
    ensures Matched(recs[order := r], token)
  {
  }

  lemma MatchesOne(recs: map<Order, Rec>, order: Order, token: uint32)
    requires Matched(recs, token) && order in recs
    ensures Matches(order, recs[order], token)
  {
  }

  lemma MatchedRemoved(recs: map<Order, Rec>, order: Order, token: uint32)
    requires Matched(recs, token)
    ensures Matched(recs - {order}, token)
  {
  }

  /** `objs` is the two trees' maps side by side. */
  ghost predicate BothTrees(objs: map<Key, PriceLevel>, bids: map<int32, PriceLevel>, asks: map<int32, PriceLevel>) {
    && (forall key :: key in objs ==>
          if key.buy then key.price in bids && objs[key] == bids[key.price]
          else key.price in asks && objs[key] == asks[key.price])
    && (forall p :: p in bids ==> Key(true, p) in objs)
    && (forall p :: p in asks ==> Key(false, p) in objs)
  }

  lemma BothTreesInsert(objs: map<Key, PriceLevel>, bids: map<int32, PriceLevel>, asks: map<int32, PriceLevel>,
                        key: Key, level: PriceLevel)
    requires BothTrees(objs, bids, asks)
    ensures key.buy ==> BothTrees(objs[key := level], bids[key.price := level], asks)
    ensures !key.buy ==> BothTrees(objs[key := level], bids, asks[key.price := level])
  {
  }

  lemma BothTreesRemove(objs: map<Key, PriceLevel>, bids: map<int32, PriceLevel>, asks: map<int32, PriceLevel>,
                        key: Key)
    requires BothTrees(objs, bids, asks)
    ensures key.buy ==> BothTrees(objs - {key}, bids - {key.price}, asks)
    ensures !key.buy ==> BothTrees(objs - {key}, bids, asks - {key.price})
  {
  }

  lemma BothTreesLookup(objs: map<Key, PriceLevel>, bids: map<int32, PriceLevel>,
                        asks: map<int32, PriceLevel>, key: Key)
    requires BothTrees(objs, bids, asks)
    ensures key in objs <==> if key.buy then key.price in bids else key.price in asks
    ensures key in objs ==> objs[key] == if key.buy then bids[key.price] else asks[key.price]
  {
  }

  lemma EmptyCarries(level: PriceLevel, key: Key)
    ensures IsEmptyLevel(level, key.price) ==> Carries(level, key, Level(0, []))
  {
  }

  class Contract {
    const Token: uint32
    const OrdersById: OrderMap
    const Bids: PriceTree
    const Asks: PriceTree
    ghost var book: Book<Order>
    ghost var objs: map<Key, PriceLevel>  // the level objects of both trees

    ghost function Tree(buy: bool): PriceTree {
      if buy then Bids else Asks
    }

    /** The trees, their nodes and their pooled levels. */
    ghost function TreeSet(): set<object>
      reads Bids, Asks
    {
      {Bids, Asks} + Bids.NodeSet() + Asks.NodeSet() + Bids.pool + Asks.pool
    }

    /** The two trees are valid, no higher than the package's generator makes them, and together hold exactly
        the levels `objs`. */
    ghost predicate Planted(objs: map<Key, PriceLevel>)
      reads Bids, Asks, Bids.NodeSet(), Asks.NodeSet()
    {
      && Bids.Valid() && !Bids.ascending && Bids.home.token == Token && Bids.maxLevel <= 1
      && Asks.Valid() && Asks.ascending && Asks.home.token == Token && Asks.maxLevel <= 1
      && BothTrees(objs, Bids.Levels(), Asks.Levels())
    }

    /** Level objects and order objects say what the book says. */
    ghost predicate Wired(objs: map<Key, PriceLevel>, b: Book<Order>)
      reads Bids, Asks, Bids.NodeSet(), Asks.NodeSet(), objs.Values, b.recs.Keys
    {
      && Planted(objs)
      && objs.Keys == b.levels.Keys
      && Placed(b)
      && Carried(objs, b)
      && Matched(b.recs, Token)
    }

    /** The id index of the source is the index of the book. */
    ghost predicate IndexMatches(b: Book<Order>)
      reads OrdersById, OrdersById.buckets, OrdersById.contents.Values`OrderID
    {
      OrdersById.Valid() && OrdersById.contents == b.index && OrdersById.mask == b.mask
    }

    constructor (token: uint32)
      ensures Token == token && book == Empty(1023) && Valid()
      ensures Frame() == {this, OrdersById, OrdersById.buckets} + {Bids, Asks} + Bids.NodeSet() + Asks.NodeSet()
      ensures fresh(OrdersById) && fresh(OrdersById.buckets) && fresh(Bids) && fresh(Asks)
      ensures fresh(Bids.NodeSet()) && fresh(Asks.NodeSet())
    {
      hide PriceTree.Valid, OrderMap.Valid, Contract.Wired, Contract.IndexMatches, WellFormed, LeastPower, Pow2,
        Contract.Frame;
      Token := token;
      OrdersById := new OrderMap(1024);
      Bids := new PriceTree(false, token);
      Asks := new PriceTree(true, token);
      book := Empty(1023);
      objs := map[];
      new;
      assert OrdersById.mask == 1023 by {
        ghost var n :| OrdersById.size == Pow2(n) && LeastPower(n, 1024);
        Buckets(n);
      }
      EmptyWellFormed<Order>(1023);
      EmptyWired();
      EmptyFrame();
    }

    lemma EmptyFrame()
      requires objs == map[] && book == Empty(1023) && Bids.pool == {} && Asks.pool == {}
      ensures Frame() == {this, OrdersById, OrdersById.buckets} + {Bids, Asks} + Bids.NodeSet() + Asks.NodeSet()
    {
    }

    lemma Buckets(n: nat)
      requires LeastPower(n, 1024) && OrdersById.size == Pow2(n) && OrdersById.Valid()
      ensures OrdersById.mask == 1023
    {
      assert Pow2(10) == 1024;
      LeastPowerExact(n, 10);
    }

    /** Two empty trees and an empty index stand for the empty book. */
    lemma EmptyWired()
      requires Bids.Valid() && !Bids.ascending && Bids.home.token == Token
      requires Bids.Levels() == map[] && Bids.maxLevel == 0
      requires Asks.Valid() && Asks.ascending && Asks.home.token == Token
      requires Asks.Levels() == map[] && Asks.maxLevel == 0
      requires OrdersById.Valid() && OrdersById.contents == map[] && OrdersById.mask == 1023
      ensures Wired(map[], Empty(1023)) && IndexMatches(Empty(1023))
    {
      hide PriceTree.Valid, OrderMap.Valid;
      var b := Empty<Order>(1023);
      assert Placed(b) by { EmptyWellFormed<Order>(1023); }
    }

    /** The trees share no node, and no level in use is pooled. */
    lemma Apart(objs: map<Key, PriceLevel>)
      requires Planted(objs)
      ensures Bids != Asks && Bids.NodeSet() !! Asks.NodeSet()
      ensures objs.Values !! Bids.pool && objs.Values !! Asks.pool
    {
      hide PriceTree.Sound;
      forall l | l in objs.Values ensures l !in Bids.pool && l !in Asks.pool {
        var key :| key in objs && objs[key] == l;
      }
    }

    method PlantBid(ghost objs: map<Key, PriceLevel>, price: int32, rng: Rng) returns (level: PriceLevel)
      requires Planted(objs)
      requires Seeded(rng.state)
      modifies Bids, Bids.NodeSet(), Bids.pool, rng
      ensures Planted(objs[Key(true, price) := level])
      ensures Key(true, price) in objs ==> level == objs[Key(true, price)] && unchanged(old(Bids.pool))
      ensures Key(true, price) !in objs ==> (fresh(level) || level in old(Bids.pool)) && IsEmptyLevel(level, price)
      ensures Bids.pool <= old(Bids.pool) && fresh(Bids.NodeSet() - old(Bids.NodeSet()))
      ensures Seeded(rng.state)
    {
      hide PriceTree.Sound, PriceTree.Owned, BothTrees;
      Apart(objs);
      BothTreesLookup(objs, Bids.Levels(), Asks.Levels(), Key(true, price));
      ghost var bids, asks := Bids.Levels(), Asks.Levels();
      level := Bids.GetOrCreate(price, rng);
      BothTreesInsert(objs, bids, asks, Key(true, price), level);
      assert Bids.Levels() == bids[price := level];
    }

    method PlantAsk(ghost objs: map<Key, PriceLevel>, price: int32, rng: Rng) returns (level: PriceLevel)
      requires Planted(objs)
      requires Seeded(rng.state)
      modifies Asks, Asks.NodeSet(), Asks.pool, rng
      ensures Planted(objs[Key(false, price) := level])
      ensures Key(false, price) in objs ==> level == objs[Key(false, price)] && unchanged(old(Asks.pool))
      ensures Key(false, price) !in objs ==> (fresh(level) || level in old(Asks.pool)) && IsEmptyLevel(level, price)
      ensures Asks.pool <= old(Asks.pool) && fresh(Asks.NodeSet() - old(Asks.NodeSet()))
      ensures Seeded(rng.state)
    {
      hide PriceTree.Sound, PriceTree.Owned, BothTrees;
      Apart(objs);
      BothTreesLookup(objs, Bids.Levels(), Asks.Levels(), Key(false, price));
      ghost var bids, asks := Bids.Levels(), Asks.Levels();
      level := Asks.GetOrCreate(price, rng);
      BothTreesInsert(objs, bids, asks, Key(false, price), level);
      assert Asks.Levels() == asks[price := level];
    }

    /** The tree lookup of the handlers: GetOrCreate on the tree the side selects. */
    method PlantLevel(ghost objs: map<Key, PriceLevel>, key: Key, rng: Rng) returns (level: PriceLevel)
      requires Planted(objs)
      requires Seeded(rng.state)
      modifies TreeSet(), rng
      ensures Planted(objs[key := level])
      ensures forall o :: o in TreeSet() ==> o in old(TreeSet()) || fresh(o)
      ensures key in objs ==> level == objs[key]
      ensures key !in objs ==> (fresh(level) || level in old(TreeSet())) && IsEmptyLevel(level, key.price)
      ensures Seeded(rng.state)
    {
      hide PriceTree.Sound, PriceTree.Owned, Contract.Planted;
      if key.buy {
        level := PlantBid(objs, key.price, rng);
      } else {
        level := PlantAsk(objs, key.price, rng);
      }
    }

    method UprootBid(ghost objs: map<Key, PriceLevel>, price: int32)
      requires Planted(objs)
      modifies Bids, Bids.NodeSet()
      ensures Planted(objs - {Key(true, price)}) && Bids.Levels() == old(Bids.Levels()) - {price}
      ensures Bids.NodeSet() <= old(Bids.NodeSet())
      ensures Bids.pool == old(Bids.pool) + if Key(true, price) in objs then {objs[Key(true, price)]} else {}
    {
      hide PriceTree.Sound, PriceTree.Owned, BothTrees;
      Apart(objs);
      BothTreesLookup(objs, Bids.Levels(), Asks.Levels(), Key(true, price));
      BothTreesRemove(objs, Bids.Levels(), Asks.Levels(), Key(true, price));
      Bids.Remove(price);
    }

    method UprootAsk(ghost objs: map<Key, PriceLevel>, price: int32)
      requires Planted(objs)
      modifies Asks, Asks.NodeSet()
      ensures Planted(objs - {Key(false, price)}) && Asks.Levels() == old(Asks.Levels()) - {price}
      ensures Asks.NodeSet() <= old(Asks.NodeSet())
      ensures Asks.pool == old(Asks.pool) + if Key(false, price) in objs then {objs[Key(false, price)]} else {}
    {
      hide PriceTree.Sound, PriceTree.Owned, BothTrees;
      Apart(objs);
      BothTreesLookup(objs, Bids.Levels(), Asks.Levels(), Key(false, price));
      BothTreesRemove(objs, Bids.Levels(), Asks.Levels(), Key(false, price));
      Asks.Remove(price);
    }

    lemma InUseApart(objs: map<Key, PriceLevel>)
      requires Planted(objs)
      ensures objs.Values !! TreeSet()
    {
      hide PriceTree.Sound;
      Apart(objs);
    }

    /** The lookup disturbs no level in use and no order. */
    method PlantBeside(ghost objs: map<Key, PriceLevel>, ghost b: Book<Order>, key: Key, rng: Rng)
      returns (level: PriceLevel)
      requires Planted(objs) && CarriedBut(objs, b, key) && Matched(b.recs, Token)
      requires if key in objs then Carries(objs[key], key, LevelAt(b, key)) else LevelAt(b, key) == Level(0, [])
      requires Seeded(rng.state)
      modifies TreeSet(), rng
      ensures Planted(objs[key := level]) && CarriedBut(objs, b, key) && Matched(b.recs, Token)
      ensures Carries(level, key, LevelAt(b, key))
      ensures if key in objs then level == objs[key] else fresh(level) || level in old(TreeSet())
      ensures forall o :: o in TreeSet() ==> o in old(TreeSet()) || fresh(o)
      ensures Seeded(rng.state)
    {
      hide PriceTree.Sound, PriceTree.Owned, Contract.Planted, Contract.TreeSet, Linked, CarriedBut, Matched;
      InUseApart(objs);
      TreeSetApart(b.recs.Keys + Elements(Fifo(b, key)), null);
      OthersInUse(objs, key);
      level := PlantLevel(objs, key, rng);
      assert forall l :: l in OtherLevels(objs, key) ==> unchanged(l);
      assert forall o :: o in OtherOrders(b, key) ==> unchanged(o);
      if key in objs {
        assert unchanged(level);
        assert forall o :: o in Elements(Fifo(b, key)) ==> unchanged(o);
      } else {
        EmptyCarries(level, key);
      }
    }

    method TouchLevel(ghost objs: map<Key, PriceLevel>, ghost b: Book<Order>, key: Key, rng: Rng)
      returns (level: PriceLevel, ghost objs': map<Key, PriceLevel>)
      requires Wired(objs, b)
      requires Seeded(rng.state)
      modifies TreeSet(), rng
      ensures Wired(objs', Touch(b, key)) && objs' == objs[key := level]
      ensures if key in objs then level == objs[key] else fresh(level) || level in old(TreeSet())
      ensures forall o :: o in TreeSet() ==> o in old(TreeSet()) || fresh(o)
      ensures Seeded(rng.state)
    {
      hide Placed, Contract.Planted, CarriedBut, Carried, Carries, Matched;
      CarriedSplit(objs, b, key);
      TouchSame(b, key);
      level := PlantBeside(objs, b, key, rng);
      objs' := objs[key := level];
      CarriedJoin(objs, b, key, objs', Touch(b, key));
    }

    lemma LevelApart(objs: map<Key, PriceLevel>, b: Book<Order>, key: Key)
      requires Planted(objs) && Carried(objs, b) && key in objs
      ensures objs[key] !in OtherLevels(objs, key)
    {
      hide PriceTree.Sound, Linked;
      forall k | k in objs && k != key ensures objs[k] != objs[key] {
        assert Carries(objs[k], k, LevelAt(b, k)) && Carries(objs[key], key, LevelAt(b, key));
        assert objs[k].home == Tree(k.buy).home && objs[key].home == Tree(key.buy).home;
      }
      forall l | l in OtherLevels(objs, key) ensures l != objs[key] {
        var k :| k in (objs - {key}).Keys && (objs - {key})[k] == l;
      }
    }

    /** An order of the book points to the level object of its side and price: the handlers' nil
        checks on PriceLevel never fail for it. */
    lemma LevelFound(objs: map<Key, PriceLevel>, b: Book<Order>, order: Order) returns (at: nat)
      requires Carried(objs, b) && Placed(b) && objs.Keys == b.levels.Keys && order in b.recs
      ensures var key := KeyOf(b.recs[order]);
              && key in objs && order.PriceLevel == objs[key]
              && at < |Fifo(b, key)| && Fifo(b, key)[at] == order
    {
      var key := KeyOf(b.recs[order]);
      assert order in Fifo(b, key);
      at :| at < |Fifo(b, key)| && Fifo(b, key)[at] == order;
      assert Carries(objs[key], key, LevelAt(b, key));
      assert LinkedAt(objs[key], Fifo(b, key), at);
    }

    /** Linking an order disturbs no other level, no order's data and no tree. */
    method AppendOrder(ghost objs: map<Key, PriceLevel>, ghost b: Book<Order>, ghost key: Key,
                       order: Order, level: PriceLevel)
      requires Planted(objs) && CarriedBut(objs, b, key) && Matched(b.recs, Token)
      requires Carries(level, key, LevelAt(b, key)) && level !in OtherLevels(objs, key) && order !in b.recs
      requires Elements(Fifo(b, key)) <= b.recs.Keys && Elements(Fifo(b, key)) !! OtherOrders(b, key)
      modifies level, order`PriceLevel, order`PrevOrder, order`NextOrder, b.recs.Keys`NextOrder
      ensures Planted(objs) && CarriedBut(objs, b, key) && Matched(b.recs, Token)
      ensures Carries(level, key, Level(Wrap64(LevelAt(b, key).total + order.Quantity), Fifo(b, key) + [order]))
      ensures TreeSet() == old(TreeSet())
    {
      hide Contract.Planted, CarriedBut, Matched;
      AddOrderToLevel(level, order, Fifo(b, key));
      assert forall o :: o in OtherOrders(b, key) ==> unchanged(o);
      assert unchanged(Bids.NodeSet()) && unchanged(Asks.NodeSet());
    }

    /** AddOrderToLevel on the level the record names. */
    method AttachOrder(ghost objs: map<Key, PriceLevel>, ghost b: Book<Order>,
                       order: Order, ghost r: Rec, level: PriceLevel)
      requires Wired(objs, b) && KeyOf(r) in objs && level == objs[KeyOf(r)]
      requires order !in b.recs && Matches(order, r, Token)
      modifies level, order`PriceLevel, order`PrevOrder, order`NextOrder, b.recs.Keys`NextOrder
      ensures Wired(objs, Link(b, order, r))
      ensures TreeSet() == old(TreeSet())
    {
      hide Placed, Contract.Planted, Linked, CarriedBut, Carried, Carries, Matched;
      ghost var key := KeyOf(r);
      CarriedSplit(objs, b, key);
      LevelApart(objs, b, key);
      OrdersApart(b, key);
      LinkPlaced(b, order, r);
      AppendOrder(objs, b, key, order, level);
      CarriedJoin(objs, b, key, objs, Link(b, order, r));
      MatchedAdded(b.recs, order, r, Token);
    }

    /** Unlinking an order disturbs no other level, no order's data and no tree. */
    method DropOrder(ghost objs: map<Key, PriceLevel>, ghost b: Book<Order>, ghost key: Key,
                     order: Order, ghost level: PriceLevel, ghost at: nat)
      requires Planted(objs) && CarriedBut(objs, b, key) && Matched(b.recs, Token)
      requires key in objs && level == objs[key] && order.PriceLevel == level
      requires at < |Fifo(b, key)| && Fifo(b, key)[at] == order
      requires Carries(level, key, LevelAt(b, key)) && level !in OtherLevels(objs, key)
      requires Elements(Fifo(b, key)) <= b.recs.Keys && Elements(Fifo(b, key)) !! OtherOrders(b, key)
      requires NoDuplicates(Fifo(b, key))
      modifies objs.Values, b.recs.Keys`PriceLevel, b.recs.Keys`PrevOrder, b.recs.Keys`NextOrder
      ensures Planted(objs) && CarriedBut(objs, b, key) && Matched(b.recs, Token) && order.PriceLevel == null
      ensures Carries(level, key, Level(Wrap64(LevelAt(b, key).total - order.Quantity), Without(Fifo(b, key), order)))
      ensures TreeSet() == old(TreeSet())
    {
      hide Contract.Planted, CarriedBut, Matched;
      WithoutAt(Fifo(b, key), at);
      assert order in Elements(Fifo(b, key)) && level in objs.Values;
      RemoveOrderFromLevel(order, Fifo(b, key), at);
      assert forall l :: l in OtherLevels(objs, key) ==> unchanged(l);
      assert forall o :: o in OtherOrders(b, key) ==> unchanged(o);
      assert unchanged(Bids.NodeSet()) && unchanged(Asks.NodeSet());
    }

    /** RemoveOrderFromLevel on a linked order. */
    method DetachOrder(ghost objs: map<Key, PriceLevel>, ghost b: Book<Order>, order: Order)
      requires Wired(objs, b) && IndexMatches(b) && order in b.recs
      modifies objs.Values, b.recs.Keys`PriceLevel, b.recs.Keys`PrevOrder, b.recs.Keys`NextOrder
      ensures Wired(objs, Unlink(b, order)) && IndexMatches(Unlink(b, order)) && order.PriceLevel == null
      ensures TreeSet() == old(TreeSet())
    {
      hide Contract.IndexMatches, Placed, Contract.Planted, Linked, CarriedBut, Carried, Carries, Matched;
      ghost var key := KeyOf(b.recs[order]);
      ghost var at := LevelFound(objs, b, order);
      CarriedSplit(objs, b, key);
      LevelApart(objs, b, key);
      OrdersApart(b, key);
      MatchesOne(b.recs, order, Token);
      UnlinkPlaced(b, order);
      DropOrder(objs, b, key, order, objs[key], at);
      CarriedJoin(objs, b, key, objs, Unlink(b, order));
      IndexMatchesSame(b, Unlink(b, order));
      MatchedRemoved(b.recs, order, Token);
    }

    /** Overwriting a quantity disturbs no other level, no other order and no tree. */
    method RewriteOrder(ghost objs: map<Key, PriceLevel>, ghost b: Book<Order>, ghost key: Key,
                        order: Order, qty: int32, delta: int)
      requires Planted(objs) && CarriedBut(objs, b, key) && Matched(b.recs - {order}, Token)
      requires key in objs && order.PriceLevel == objs[key]
      requires Carries(objs[key], key, LevelAt(b, key)) && objs[key] !in OtherLevels(objs, key)
      modifies objs.Values`TotalQty, order`Quantity
      ensures Planted(objs) && CarriedBut(objs, b, key) && Matched(b.recs - {order}, Token)
      ensures order.Quantity == qty
      ensures Carries(objs[key], key, LevelAt(b, key).(total := Wrap64(LevelAt(b, key).total + delta)))
      ensures TreeSet() == old(TreeSet())
    {
      hide Contract.Planted, CarriedBut, Matched;
      assert objs[key] in objs.Values;
      order.Quantity := qty;
      if order.PriceLevel != null {
        order.PriceLevel.TotalQty := Wrap64(order.PriceLevel.TotalQty + delta);
      }
      assert forall l :: l in OtherLevels(objs, key) ==> unchanged(l);
      assert unchanged(Bids.NodeSet()) && unchanged(Asks.NodeSet());
    }

    /** A quantity overwritten in place, with its level's total moved by `delta`. */
    method AmendOrder(ghost objs: map<Key, PriceLevel>, ghost b: Book<Order>, order: Order, qty: int32, delta: int)
      requires Wired(objs, b) && IndexMatches(b) && order in b.recs
      modifies objs.Values`TotalQty, order`Quantity
      ensures Wired(objs, SetQty(b, order, qty, delta)) && IndexMatches(SetQty(b, order, qty, delta))
      ensures order.Quantity == qty
      ensures TreeSet() == old(TreeSet())
    {
      hide Contract.IndexMatches, Placed, Contract.Planted, Linked, CarriedBut, Carried, Carries, Matched;
      ghost var key := KeyOf(b.recs[order]);
      ghost var c := SetQty(b, order, qty, delta);
      ghost var at := LevelFound(objs, b, order);
      CarriedSplit(objs, b, key);
      LevelApart(objs, b, key);
      SetQtyPlaced(b, order, qty, delta);
      MatchesOne(b.recs, order, Token);
      MatchedRemoved(b.recs, order, Token);
      RewriteOrder(objs, b, key, order, qty, delta);
      MatchedAdded(b.recs - {order}, order, c.recs[order], Token);
      assert (b.recs - {order})[order := c.recs[order]] == c.recs;
      CarriedJoin(objs, b, key, objs, c);
      IndexMatchesSame(b, c);
    }

    // ---- The id index ----

    lemma WiredReindexed(objs: map<Key, PriceLevel>, b: Book<Order>, c: Book<Order>)
      requires Wired(objs, b) && c.recs == b.recs && c.levels == b.levels
      ensures Wired(objs, c)
    {
      hide Contract.Planted, Linked;
      assert forall key :: LevelAt(c, key) == LevelAt(b, key);
    }

    lemma IndexMatchesSame(b: Book<Order>, c: Book<Order>)
      requires IndexMatches(b) && c.index == b.index && c.mask == b.mask
      ensures IndexMatches(c)
    {
    }

    /** OrdersById.Put; whether it succeeds is for the book to say. */
    method RegisterOrder(ghost objs: map<Key, PriceLevel>, ghost b: Book<Order>, id: uint64, order: Order)
      requires Wired(objs, b) && IndexMatches(b) && order.OrderID == id
      modifies OrdersById, OrdersById.buckets
      ensures Wired(objs, Put(b, id, order)) && IndexMatches(Put(b, id, order))
      ensures OrdersById.buckets == old(OrdersById.buckets)
      ensures TreeSet() == old(TreeSet())
    {
      hide Contract.Wired, OrderMap.Valid, HasRoom;
      var _ := OrdersById.Put(id, order);
      assert unchanged(Bids) && unchanged(Asks) && unchanged(Bids.NodeSet()) && unchanged(Asks.NodeSet());
      assert unchanged(objs.Values) && unchanged(b.recs.Keys);
      WiredReindexed(objs, b, Put(b, id, order));
    }

    method UnregisterOrder(ghost objs: map<Key, PriceLevel>, ghost b: Book<Order>, id: uint64)
      requires Wired(objs, b) && IndexMatches(b)
      modifies OrdersById, OrdersById.buckets
      ensures Wired(objs, Delete(b, id)) && IndexMatches(Delete(b, id))
      ensures OrdersById.buckets == old(OrdersById.buckets)
      ensures TreeSet() == old(TreeSet())
    {
      hide Contract.Wired, OrderMap.Valid;
      var _ := OrdersById.Delete(id);
      assert unchanged(Bids) && unchanged(Asks) && unchanged(Bids.NodeSet()) && unchanged(Asks.NodeSet());
      assert unchanged(objs.Values) && unchanged(b.recs.Keys);
      WiredReindexed(objs, b, Delete(b, id));
    }

    /** No order and no part of the id index is part of a tree. */
    lemma TreeSetApart(orders: set<Order>, alloc: OrderAllocator?)
      ensures OrdersById !in TreeSet() && OrdersById.buckets !in TreeSet() && this !in TreeSet()
      ensures orders !! TreeSet() && (alloc != null ==> alloc !in TreeSet())
    {
    }

    /** GetOrCreate, then AddOrderToLevel. */
    method SeatOrder(ghost objs: map<Key, PriceLevel>, ghost b: Book<Order>, order: Order, ghost r: Rec, rng: Rng)
      returns (ghost objs': map<Key, PriceLevel>)
      requires Wired(objs, b) && IndexMatches(b) && order !in b.recs && Matches(order, r, Token)
      requires Seeded(rng.state)
      modifies TreeSet(), rng, objs.Values
      modifies order`PriceLevel, order`PrevOrder, order`NextOrder, b.recs.Keys`NextOrder
      ensures Wired(objs', Link(b, order, r)) && IndexMatches(Link(b, order, r))
      ensures forall o :: o in TreeSet() ==> o in old(TreeSet()) || fresh(o)
      ensures forall l :: l in objs'.Values ==> l in objs.Values || l in old(TreeSet()) || fresh(l)
      ensures Seeded(rng.state)
    {
      hide Contract.Wired, Contract.IndexMatches, Contract.TreeSet, Linked, Link, Touch;
      TreeSetApart(b.recs.Keys + {order} + OrdersById.contents.Values, null);
      var level;
      var key := Key(order.Side == SIDE_BUY, order.Price);
      level, objs' := TouchLevel(objs, b, key, rng);
      assert key in objs ==> level in objs.Values;
      LinkTouched(b, order, r);
      AttachOrder(objs', Touch(b, key), order, r, level);
      IndexMatchesSame(b, Link(b, order, r));
    }

    lemma LinkTouched(b: Book<Order>, order: Order, r: Rec)
      ensures Link(Touch(b, KeyOf(r)), order, r) == Link(b, order, r)
      ensures Touch(b, KeyOf(r)).recs == b.recs && Touch(b, KeyOf(r)).index == b.index
      ensures Touch(b, KeyOf(r)).mask == b.mask
      ensures Link(b, order, r).index == b.index && Link(b, order, r).mask == b.mask
    {
      hide Wrap64;
    }

    // ---- Whole-contract steps ----

    ghost predicate Valid()
      reads this, OrdersById, OrdersById.buckets, OrdersById.contents.Values`OrderID
      reads Bids, Asks, Bids.NodeSet(), Asks.NodeSet(), objs.Values, book.recs.Keys
    {
      Wired(objs, book) && IndexMatches(book) && WellFormed(book)
    }

    ghost method Commit(objs': map<Key, PriceLevel>, b: Book<Order>)
      requires Wired(objs', b) && IndexMatches(b) && WellFormed(b)
      modifies this`book, this`objs
      ensures Valid() && book == b && objs == objs' && OrdersById.buckets == old(OrdersById.buckets)
      ensures TreeSet() == old(TreeSet())
    {
      hide Contract.Wired, Contract.IndexMatches, WellFormed;
      objs, book := objs', b;
      assert unchanged(OrdersById) && unchanged(OrdersById.buckets) && unchanged(OrdersById.contents.Values);
      assert unchanged(Bids) && unchanged(Asks) && unchanged(Bids.NodeSet()) && unchanged(Asks.NodeSet());
      assert unchanged(objs'.Values) && unchanged(b.recs.Keys);
    }

    /** No pooled order is linked: an order of the book has a level and a pooled order has none. */
    lemma PoolApart(alloc: OrderAllocator)
      requires Wired(objs, book) && IndexMatches(book) && WellFormed(book) && alloc.Valid()
      ensures book.recs.Keys !! alloc.orderPool && OrdersById.contents.Values !! alloc.orderPool
      ensures OrdersById.contents.Values <= book.recs.Keys
    {
      hide Contract.Planted, Matched;
      forall o | o in book.recs.Keys ensures o !in alloc.orderPool {
        var at := LevelFound(objs, book, o);
      }
      forall o | o in OrdersById.contents.Values ensures o in book.recs.Keys {
        var id :| id in book.index && book.index[id] == o;
      }
    }

    /** AllocateOrder and the literal that fills the order. */
    method ObtainOrder(alloc: OrderAllocator, id: uint64, side: uint8, price: int32, quantity: int32)
      returns (order: Order)
      requires Valid() && alloc.Valid()
      modifies alloc, alloc.orderPool
      ensures Valid() && alloc.Valid() && alloc.orderPool <= old(alloc.orderPool)
      ensures order !in book.recs && order !in alloc.orderPool && (fresh(order) || order in old(alloc.orderPool))
      ensures Matches(order, Rec(id, side, price, quantity), Token)
      ensures TreeSet() == old(TreeSet())
    {
      hide Contract.Wired, Contract.IndexMatches, WellFormed;
      PoolApart(alloc);
      order := alloc.AllocateOrder();
      order.Fill(id, Token, side, price, quantity);
      assert unchanged(Bids) && unchanged(Asks) && unchanged(Bids.NodeSet()) && unchanged(Asks.NodeSet());
      assert unchanged(objs.Values) && unchanged(book.recs.Keys);
      assert unchanged(OrdersById) && unchanged(OrdersById.buckets) && unchanged(OrdersById.contents.Values);
    }

    /** Everything a handler may touch, besides the order pool and the generator. */
    ghost function Frame(): set<object>
      reads this, OrdersById, Bids, Asks
    {
      {this, OrdersById, OrdersById.buckets} + TreeSet() + objs.Values + book.recs.Keys
    }

    /** Put, GetOrCreate and AddOrderToLevel on an order fresh from the allocator. */
    method InsertOrder(ghost b: Book<Order>, order: Order, ghost r: Rec, rng: Rng)
      returns (ghost objs': map<Key, PriceLevel>)
      requires Wired(objs, b) && IndexMatches(b) && order !in b.recs && Matches(order, r, Token)
      requires Seeded(rng.state)
      modifies OrdersById, OrdersById.buckets, TreeSet(), rng, objs.Values
      modifies order`PriceLevel, order`PrevOrder, order`NextOrder, b.recs.Keys`NextOrder
      ensures Wired(objs', Admit(b, order, r)) && IndexMatches(Admit(b, order, r))
      ensures forall o :: o in TreeSet() ==> o in old(TreeSet()) || fresh(o)
      ensures forall l :: l in objs'.Values ==> l in objs.Values || l in old(TreeSet()) || fresh(l)
      ensures OrdersById.buckets == old(OrdersById.buckets)
      ensures Seeded(rng.state)
    {
      hide Contract.Wired, Contract.IndexMatches, Contract.TreeSet, HasRoom, Link;
      TreeSetApart(b.recs.Keys + {order}, null);
      RegisterOrder(objs, b, order.OrderID, order);
      objs' := SeatOrder(objs, Put(b, r.id, order), order, r, rng);
    }

    /** The work of NewOrder once it has an order. */
    method AdmitOrder(order: Order, ghost r: Rec, alloc: OrderAllocator, rng: Rng)
      requires Valid() && alloc.Valid()
      requires order !in book.recs && order !in alloc.orderPool && Matches(order, r, Token)
      requires Seeded(rng.state)
      modifies OrdersById, OrdersById.buckets, TreeSet(), rng, objs.Values, this`book, this`objs
      modifies order`PriceLevel, order`PrevOrder, order`NextOrder, book.recs.Keys`NextOrder
      ensures Valid() && alloc.Valid() && alloc.orderPool == old(alloc.orderPool)
      ensures book == Admit(old(book), order, r)
      ensures forall o :: o in Frame() ==> o in old(Frame()) || o == order || fresh(o)
      ensures Seeded(rng.state)
    {
      hide Contract.Wired, Contract.IndexMatches, Contract.TreeSet, WellFormed, OrderAllocator.Valid, HasRoom, Link,
        Admit, Matches;
      TreeSetApart(book.recs.Keys + alloc.orderPool, alloc);
      ghost var b := book;
      PoolApart(alloc);
      ghost var objs' := InsertOrder(b, order, r, rng);
      AdmitWellFormed(b, order, r);
      AdmitKeeps(b, order, r);
      Commit(objs', Admit(b, order, r));
    }

    method NewOrder(id: uint64, side: uint8, price: int32, quantity: int32, alloc: OrderAllocator, rng: Rng)
      returns (ghost k: Order)
      requires Valid() && alloc.Valid()
      requires Seeded(rng.state)
      modifies Frame(), alloc, alloc.orderPool, rng
      ensures Valid() && alloc.Valid()
      ensures k !in old(book).recs && (fresh(k) || k in old(alloc.orderPool))
      ensures book == Admit(old(book), k, Rec(id, side, price, quantity))
      ensures alloc.orderPool <= old(alloc.orderPool) - {k}
      ensures forall o :: o in Frame() ==> o in old(Frame()) || o == k || fresh(o)
      ensures Seeded(rng.state)
    {
      hide Contract.Valid, Contract.TreeSet, OrderAllocator.Valid, Admit, Matches;
      var order := ObtainOrder(alloc, id, side, price, quantity);
      k := order;
      AdmitOrder(order, Rec(id, side, price, quantity), alloc, rng);
    }

    lemma WiredMatched(objs: map<Key, PriceLevel>, b: Book<Order>)
      requires Wired(objs, b)
      ensures Matched(b.recs, Token)
    {
    }

    /** OrdersById.Get. An order the index finds is linked and carries that id. */
    method LookUp(id: uint64) returns (order: Order?)
      requires Valid()
      ensures order == if id in book.index then book.index[id] else null
      ensures order != null ==>
                order in book.recs && Matches(order, book.recs[order], Token) && book.recs[order].id == id
      ensures Valid()
    {
      hide Contract.Wired, OrderMap.Valid, Placed, Totalled, Bucketed;
      assert Matched(book.recs, Token) by { WiredMatched(objs, book); }
      order := OrdersById.Get(id);
      assert unchanged(Bids) && unchanged(Asks) && unchanged(Bids.NodeSet()) && unchanged(Asks.NodeSet());
      assert unchanged(objs.Values) && unchanged(book.recs.Keys);
    }

    /** A price change: out of the old level, and to the tail of the new one. */
    method MoveOrder(ghost b: Book<Order>, order: Order, price: int32, rng: Rng)
      returns (ghost objs': map<Key, PriceLevel>)
      requires Wired(objs, b) && IndexMatches(b) && order in b.recs && Matches(order, b.recs[order], Token)
      requires order.Price != price
      requires Seeded(rng.state)
      modifies TreeSet(), rng, objs.Values, order`Price
      modifies b.recs.Keys`PriceLevel, b.recs.Keys`PrevOrder, b.recs.Keys`NextOrder
      ensures Wired(objs', Reprice(b, order, price)) && IndexMatches(Reprice(b, order, price))
      ensures forall o :: o in TreeSet() ==> o in old(TreeSet()) || fresh(o)
      ensures forall l :: l in objs'.Values ==> l in objs.Values || l in old(TreeSet()) || fresh(l)
      ensures Seeded(rng.state)
    {
      hide Contract.IndexMatches, Contract.Wired, Contract.TreeSet, Wrap64, Link, Unlink, Reprice;
      TreeSetApart(b.recs.Keys + OrdersById.contents.Values, null);
      Unlinked(b, order, price);
      LiftOrder(b, order, price);
      objs' := SeatOrder(objs, Unlink(b, order), order, b.recs[order].(price := price), rng);
    }

    method LiftOrder(ghost b: Book<Order>, order: Order, price: int32)
      requires Wired(objs, b) && IndexMatches(b) && order in b.recs && Matches(order, b.recs[order], Token)
      modifies objs.Values, order`Price, b.recs.Keys`PriceLevel, b.recs.Keys`PrevOrder, b.recs.Keys`NextOrder
      ensures Wired(objs, Unlink(b, order)) && IndexMatches(Unlink(b, order)) && order !in Unlink(b, order).recs
      ensures Matches(order, b.recs[order].(price := price), Token)
      ensures TreeSet() == old(TreeSet())
    {
      hide Contract.IndexMatches, Contract.Wired, Contract.TreeSet, Wrap64;
      DetachOrder(objs, b, order);
      SetPrice(objs, Unlink(b, order), order, price);
    }

    /** Overwriting the price of an order that is in no level. */
    method SetPrice(ghost objs: map<Key, PriceLevel>, ghost b: Book<Order>, order: Order, price: int32)
      requires Wired(objs, b) && IndexMatches(b) && order !in b.recs
      modifies order`Price
      ensures Wired(objs, b) && IndexMatches(b) && order.Price == price && TreeSet() == old(TreeSet())
    {
      hide Contract.IndexMatches, Contract.Wired;
      order.Price := price;
      assert unchanged(Bids) && unchanged(Asks) && unchanged(Bids.NodeSet()) && unchanged(Asks.NodeSet());
    }

    lemma Unlinked(b: Book<Order>, order: Order, price: int32)
      requires order in b.recs && b.recs[order].price != price
      ensures Unlink(b, order).recs == b.recs - {order} && Unlink(b, order).index == b.index
      ensures Reprice(b, order, price) == Link(Unlink(b, order), order, b.recs[order].(price := price))
    {
      hide Wrap64;
    }

    method RepriceOrder(ghost b: Book<Order>, order: Order, price: int32, rng: Rng)
      returns (ghost objs': map<Key, PriceLevel>)
      requires Wired(objs, b) && IndexMatches(b) && order in b.recs && Matches(order, b.recs[order], Token)
      requires Seeded(rng.state)
      modifies TreeSet(), rng, objs.Values, order`Price
      modifies b.recs.Keys`PriceLevel, b.recs.Keys`PrevOrder, b.recs.Keys`NextOrder
      ensures Wired(objs', Reprice(b, order, price)) && IndexMatches(Reprice(b, order, price))
      ensures forall o :: o in TreeSet() ==> o in old(TreeSet()) || fresh(o)
      ensures forall l :: l in objs'.Values ==> l in objs.Values || l in old(TreeSet()) || fresh(l)
      ensures Seeded(rng.state)
    {
      hide Contract.IndexMatches, Contract.Wired, Contract.TreeSet, Link, Unlink;
      if order.Price == price { return objs; }
      objs' := MoveOrder(b, order, price, rng);
    }

    /** A modification of an order the index finds. */
    method ReviseOrder(ghost b: Book<Order>, order: Order, price: int32, quantity: int32, rng: Rng)
      returns (ghost objs': map<Key, PriceLevel>)
      requires Wired(objs, b) && IndexMatches(b) && order in b.recs && Matches(order, b.recs[order], Token)
      requires Seeded(rng.state)
      modifies TreeSet(), rng, objs.Values, order`Price, order`Quantity
      modifies b.recs.Keys`PriceLevel, b.recs.Keys`PrevOrder, b.recs.Keys`NextOrder
      ensures var c := Requantify(Reprice(b, order, price), order, quantity); Wired(objs', c) && IndexMatches(c)
      ensures forall o :: o in TreeSet() ==> o in old(TreeSet()) || fresh(o)
      ensures forall l :: l in objs'.Values ==> l in objs.Values || l in old(TreeSet()) || fresh(l)
      ensures Seeded(rng.state)
    {
      hide Contract.IndexMatches, Contract.Wired, Contract.TreeSet, Wrap32, Wrap64;
      TreeSetApart(b.recs.Keys + OrdersById.contents.Values, null);
      objs' := RepriceOrder(b, order, price, rng);
      var oldQty := order.Quantity;
      if oldQty != quantity {
        AmendOrder(objs', Reprice(b, order, price), order, quantity, Wrap32(quantity - oldQty));
      }
    }

    /** A modification of an order the index has found. */
    method ChangeOrder(order: Order, price: int32, quantity: int32, ghost r: Rec, alloc: OrderAllocator, rng: Rng)
      requires Valid() && alloc.Valid()
      requires r.id in book.index && book.index[r.id] == order
      requires order in book.recs && Matches(order, book.recs[order], Token)
      requires r.price == price && r.qty == quantity
      requires Seeded(rng.state)
      modifies Frame(), rng
      ensures Valid() && alloc.Valid()
      ensures book == Modify(old(book), None, r) && alloc.orderPool == old(alloc.orderPool)
      ensures forall o :: o in Frame() ==> o in old(Frame()) || fresh(o)
      ensures Seeded(rng.state)
    {
      hide Contract.Wired, Contract.IndexMatches, WellFormed, OrderAllocator.Valid, Contract.TreeSet;
      TreeSetApart(book.recs.Keys + alloc.orderPool, alloc);
      ghost var b := book;
      PoolApart(alloc);
      ModifyKnown(b, order, r);
      ghost var objs' := ReviseOrder(b, order, price, quantity, rng);
      Commit(objs', Modify(b, None, r));
    }

    /** Modification by id: in place when only the quantity changes, to the tail of the new level when
        the price does, and as a new order when the id is unknown. */
    method ModifyOrder(id: uint64, side: uint8, price: int32, quantity: int32, alloc: OrderAllocator, rng: Rng)
      returns (ghost h: Option<Order>)
      requires Valid() && alloc.Valid()
      requires Seeded(rng.state)
      modifies Frame(), alloc, alloc.orderPool, rng
      ensures Valid() && alloc.Valid()
      ensures h.Some? == (id !in old(book).index)
      ensures h.Some? ==> h.value !in old(book).recs && (fresh(h.value) || h.value in old(alloc.orderPool))
      ensures book == Modify(old(book), h, Rec(id, side, price, quantity))
      ensures alloc.orderPool <= old(alloc.orderPool) - TakenSet(h)
      ensures forall o :: o in Frame() ==> o in old(Frame()) || o in TakenSet(h) || fresh(o)
      ensures Seeded(rng.state)
    {
      hide Contract.Valid, OrderAllocator.Valid, Contract.Frame;
      var order := LookUp(id);
      if order == null {
        ghost var k := NewOrder(id, side, price, quantity, alloc, rng);
        return Some(k);
      }
      h := None;
      ChangeOrder(order, price, quantity, Rec(id, side, price, quantity), alloc, rng);
    }

    /** FreeOrder of an order that hangs on nothing. */
    method ReleaseOrder(ghost c: Book<Order>, order: Order, alloc: OrderAllocator)
      requires Wired(objs, c) && IndexMatches(c) && alloc.Valid() && order !in c.recs && order !in alloc.orderPool
      modifies alloc, order`PriceLevel, order`PrevOrder, order`NextOrder
      ensures Wired(objs, c) && IndexMatches(c) && alloc.Valid()
      ensures alloc.orderPool == old(alloc.orderPool) + {order}
      ensures TreeSet() == old(TreeSet())
    {
      hide Contract.Wired, Contract.IndexMatches;
      alloc.FreeOrder(order);
      assert unchanged(Bids) && unchanged(Asks) && unchanged(Bids.NodeSet()) && unchanged(Asks.NodeSet());
      assert unchanged(objs.Values) && unchanged(c.recs.Keys);
    }

    /** RemoveOrderFromLevel, Delete and FreeOrder. */
    method TakeOutOrder(ghost b: Book<Order>, id: uint64, order: Order, alloc: OrderAllocator)
      requires Wired(objs, b) && IndexMatches(b) && alloc.Valid() && b.recs.Keys !! alloc.orderPool
      requires id in b.index && b.index[id] == order && order in b.recs
      modifies OrdersById, OrdersById.buckets, objs.Values, alloc
      modifies b.recs.Keys`PriceLevel, b.recs.Keys`PrevOrder, b.recs.Keys`NextOrder
      ensures Wired(objs, TakeOut(b, id)) && IndexMatches(TakeOut(b, id)) && alloc.Valid()
      ensures alloc.orderPool == old(alloc.orderPool) + {order}
      ensures OrdersById.buckets == old(OrdersById.buckets)
      ensures TreeSet() == old(TreeSet())
    {
      hide Contract.Wired, Contract.IndexMatches, OrderAllocator.Valid;
      DetachOrder(objs, b, order);
      UnregisterOrder(objs, Unlink(b, order), id);
      ReleaseOrder(TakeOut(b, id), order, alloc);
    }

    /** Cancellation by id; an unknown id is ignored. */
    method CancelOrder(id: uint64, alloc: OrderAllocator)
      requires Valid() && alloc.Valid()
      modifies Frame(), alloc
      ensures Valid() && alloc.Valid()
      ensures book == Cancel(old(book), id)
      ensures alloc.orderPool == old(alloc.orderPool) + TakenOut(old(book), id)
      ensures alloc.orderPool <= old(alloc.orderPool) + old(book).recs.Keys && Frame() <= old(Frame())
    {
      hide Contract.Wired, Contract.IndexMatches, WellFormed, OrderAllocator.Valid, Contract.TreeSet;
      TreeSetApart(book.recs.Keys, alloc);
      var order := LookUp(id);
      if order == null { return; }
      PoolApart(alloc);
      ghost var b := book;
      TakeOutOrder(b, id, order, alloc);
      TakeOutWellFormed(b, id);
      Commit(objs, Cancel(b, id));
    }

    /** reduceOrderQuantity. */
    method ReduceOrder(ghost b: Book<Order>, id: uint64, order: Order, quantity: int32, alloc: OrderAllocator)
      requires Wired(objs, b) && IndexMatches(b) && alloc.Valid() && b.recs.Keys !! alloc.orderPool
      requires id != 0 && id in b.index && b.index[id] == order
      requires order in b.recs && Matches(order, b.recs[order], Token)
      requires b.recs[order].id == id
      modifies OrdersById, OrdersById.buckets, objs.Values, alloc, order`Quantity
      modifies b.recs.Keys`PriceLevel, b.recs.Keys`PrevOrder, b.recs.Keys`NextOrder
      ensures Wired(objs, Fill(b, id, quantity)) && IndexMatches(Fill(b, id, quantity)) && alloc.Valid()
      ensures alloc.orderPool == old(alloc.orderPool) + FilledUp(b, id, quantity)
      ensures OrdersById.buckets == old(OrdersById.buckets)
      ensures TreeSet() == old(TreeSet())
    {
      hide Contract.Wired, Contract.IndexMatches, OrderAllocator.Valid, Wrap32;
      var left := Wrap32(order.Quantity - quantity);
      AmendOrder(objs, b, order, left, -(quantity as int));
      if order.Quantity <= 0 {
        TakeOutOrder(SetQty(b, order, left, -(quantity as int)), order.OrderID, order, alloc);
      }
    }

    /** One leg of a trade; id 0 and unknown ids are ignored. */
    method FillOrder(id: uint64, quantity: int32, alloc: OrderAllocator)
      requires Valid() && alloc.Valid()
      modifies Frame(), alloc
      ensures Valid() && alloc.Valid()
      ensures book == Fill(old(book), id, quantity)
      ensures alloc.orderPool == old(alloc.orderPool) + FilledUp(old(book), id, quantity)
      ensures alloc.orderPool <= old(alloc.orderPool) + old(book).recs.Keys && Frame() <= old(Frame())
    {
      hide Contract.Wired, Contract.IndexMatches, WellFormed, OrderAllocator.Valid, Contract.TreeSet, Fill, FilledUp;
      TreeSetApart(book.recs.Keys, alloc);
      FillKeeps(book, id, quantity);
      if id == 0 { return; }
      var order := LookUp(id);
      if order == null { return; }
      PoolApart(alloc);
      ghost var b := book;
      FillWellFormed(b, id, quantity);
      ReduceOrder(b, id, order, quantity, alloc);
      Commit(objs, Fill(b, id, quantity));
    }

    /** A restored quantity on an order the index has found. */
    method RefillOrder(order: Order, quantity: int32, ghost r: Rec, alloc: OrderAllocator)
      requires Valid() && alloc.Valid() && r.id != 0 && r.qty == quantity
      requires r.id in book.index && book.index[r.id] == order
      requires order in book.recs && Matches(order, book.recs[order], Token)
      modifies Frame()
      ensures Valid() && alloc.Valid()
      ensures book == Restore(old(book), None, r) && alloc.orderPool == old(alloc.orderPool)
      ensures forall o :: o in Frame() ==> o in old(Frame()) || fresh(o)
    {
      hide Contract.Wired, Contract.IndexMatches, WellFormed, OrderAllocator.Valid, Wrap32, Contract.TreeSet;
      TreeSetApart(book.recs.Keys + alloc.orderPool, alloc);
      ghost var b := book;
      PoolApart(alloc);
      RestoreWellFormed(b, None, r);
      RestoreKeeps(b, None, r);
      AmendOrder(objs, b, order, Wrap32(order.Quantity + quantity), quantity);
      Commit(objs, Restore(b, None, r));
    }

    /** One leg of a trade cancel: restoreOrderQuantity. */
    method RestoreOrder(id: uint64, side: uint8, price: int32, quantity: int32, alloc: OrderAllocator, rng: Rng)
      returns (ghost h: Option<Order>)
      requires Valid() && alloc.Valid()
      requires Seeded(rng.state)
      modifies Frame(), alloc, alloc.orderPool, rng
      ensures Valid() && alloc.Valid()
      ensures h.Some? == (id != 0 && id !in old(book).index)
      ensures h.Some? ==> h.value !in old(book).recs && (fresh(h.value) || h.value in old(alloc.orderPool))
      ensures book == Restore(old(book), h, Rec(id, side, price, quantity))
      ensures alloc.orderPool <= old(alloc.orderPool) - TakenSet(h)
      ensures forall o :: o in Frame() ==> o in old(Frame()) || o in TakenSet(h) || fresh(o)
      ensures Seeded(rng.state)
    {
      hide Contract.Valid, OrderAllocator.Valid, Contract.Frame, Admit;
      h := None;
      if id == 0 { return; }
      var order := LookUp(id);
      if order == null {
        ghost var k := NewOrder(id, side, price, quantity, alloc, rng);
        return Some(k);
      }
      FramePoolApart(alloc, rng);
      RefillOrder(order, quantity, Rec(id, side, price, quantity), alloc);
    }

    // ---- Removing a level ----

    /** PriceTree.Remove touches no level in use, no order and no index. */
    method UprootLevel(ghost objs: map<Key, PriceLevel>, ghost b: Book<Order>, key: Key)
      requires Planted(objs) && Carried(objs, b) && Matched(b.recs, Token) && IndexMatches(b)
      modifies Bids, Asks, Bids.NodeSet(), Asks.NodeSet()
      ensures Planted(objs - {key}) && Carried(objs, b) && Matched(b.recs, Token) && IndexMatches(b)
      ensures Tree(key.buy).Levels() == old(Tree(key.buy).Levels()) - {key.price}
      ensures Tree(!key.buy).Levels() == old(Tree(!key.buy).Levels())
      ensures TreeSet() <= old(TreeSet()) + objs.Values
      ensures key in objs ==> objs[key] in Tree(key.buy).pool
    {
      hide PriceTree.Sound, PriceTree.Owned, Linked, Carried, Matched, OrderMap.Valid, BothTrees;
      assert objs.Values !! TreeSet() by { InUseApart(objs); }
      TreeSetApart(b.recs.Keys + OrdersById.contents.Values, null);
      Apart(objs);
      ghost var bids, asks := Bids.Levels(), Asks.Levels();
      if key.buy { UprootBid(objs, key.price); } else { UprootAsk(objs, key.price); }
      assert unchanged(objs.Values) && unchanged(b.recs.Keys);
      assert unchanged(OrdersById) && unchanged(OrdersById.buckets) && unchanged(OrdersById.contents.Values);
    }

    lemma LevelGone(objs: map<Key, PriceLevel>, b: Book<Order>, key: Key)
      requires Planted(objs - {key}) && Carried(objs, b) && Matched(b.recs, Token) && objs.Keys == b.levels.Keys
      requires WellFormed(b) && Fifo(b, key) == []
      ensures Wired(objs - {key}, b.(levels := b.levels - {key})) && WellFormed(b.(levels := b.levels - {key}))
    {
      hide Contract.Planted, Placed;
      var c := b.(levels := b.levels - {key});
      RemoveLevelPlaced(b, key);
      RemoveLevelWellFormed(b, key);
      forall k | k in objs - {key}
        ensures (objs - {key})[k] in (objs - {key}).Values && Elements(Fifo(c, k)) <= c.recs.Keys
        ensures Carries(objs[k], k, LevelAt(c, k))
      {
        assert LevelAt(c, k) == LevelAt(b, k);
      }
    }

    /** Takes the level of a side and price out of its tree without looking, as the source does. An empty level
        leaves a valid contract. From any other level the orders go on pointing to a level that is pooled and in
        no tree. */
    method RemoveLevel(key: Key)
      requires Valid()
      modifies this`book, this`objs, Bids, Asks, Bids.NodeSet(), Asks.NodeSet()
      ensures Tree(key.buy).Levels() == old(Tree(key.buy).Levels()) - {key.price}
      ensures Tree(!key.buy).Levels() == old(Tree(!key.buy).Levels())
      ensures old(Fifo(book, key)) == [] ==> Valid() && book == old(book.(levels := book.levels - {key}))
      ensures Frame() <= old(Frame())
      ensures forall o :: o in old(Fifo(book, key)) ==>
                old(o.PriceLevel) != null && o.PriceLevel == old(o.PriceLevel) && o.PriceLevel in Tree(key.buy).pool
    {
      hide Contract.Planted, Carried, Matched, Contract.IndexMatches, WellFormed, Contract.TreeSet;
      ghost var b, os := book, objs;
      forall o | o in Fifo(b, key) ensures key in os && o in b.recs && o.PriceLevel == os[key] {
        PlacedAt(b);
        var at := LevelFound(os, b, o);
      }
      UprootLevel(os, b, key);
      if Fifo(b, key) == [] {
        LevelGone(os, b, key);
        IndexMatchesSame(b, b.(levels := b.levels - {key}));
        Commit(os - {key}, b.(levels := b.levels - {key}));
      }
    }

    /** What the contract's validity rests on lies within its frame. */
    lemma FrameCovers()
      requires Valid()
      ensures this in Frame() && OrdersById in Frame() && OrdersById.buckets in Frame()
      ensures Bids in Frame() && Asks in Frame()
      ensures OrdersById.contents.Values <= book.recs.Keys
      ensures Bids.NodeSet() + Asks.NodeSet() <= Frame() && objs.Values + book.recs.Keys <= Frame()
    {
      hide Contract.Wired, Placed, Totalled, Bucketed;
      forall o | o in OrdersById.contents.Values ensures o in book.recs.Keys {
        var id :| id in book.index && book.index[id] == o;
      }
    }

    /** Nothing of a contract is in the order pool. */
    lemma FramePoolApart(alloc: OrderAllocator, rng: Rng)
      requires Valid() && alloc.Valid()
      ensures Frame() !! alloc.orderPool && alloc !in Frame() && rng !in Frame()
    {
      hide Contract.Wired, WellFormed, Contract.IndexMatches;
      PoolApart(alloc);
      TreeSetApart(alloc.orderPool, alloc);
    }

    lemma BookWellFormed()
      requires Valid()
      ensures WellFormed(book)
    {
    }

    /** Any one act, by the handler's code for it. */
    method Perform(a: Act, alloc: OrderAllocator, rng: Rng) returns (ghost h: Option<Order>)
      requires Valid() && alloc.Valid()
      requires Seeded(rng.state)
      modifies Frame(), alloc, alloc.orderPool, rng
      ensures Valid() && alloc.Valid()
      ensures Served(old(book), Step(a, h)) && book == Apply(old(book), Step(a, h))
      ensures forall o :: o in TakenSet(h) ==> o in old(alloc.orderPool) || fresh(o)
      ensures alloc.orderPool <= old(alloc.orderPool) + old(book).recs.Keys
      ensures Pools(a, old(alloc.orderPool), old(book), alloc.orderPool, book)
      ensures forall o :: o in Frame() ==> o in old(Frame()) || o in TakenSet(h) || fresh(o)
      ensures Seeded(rng.state)
    {
      hide Contract.Valid, OrderAllocator.Valid, Admit, Books.Modify, Cancel, TakenOut, Fill, FilledUp, Restore,
        Contract.Frame, WellFormed;
      h := None;
      FramePoolApart(alloc, rng);
      match a
      case Add(r) =>
        ghost var k := NewOrder(r.id, r.side, r.price, r.qty, alloc, rng);
        h := Some(k);
      case Revise(r) => h := ModifyOrder(r.id, r.side, r.price, r.qty, alloc, rng);
      case Drop(id) =>
        BookWellFormed();
        CancelKeeps(book, id);
        CancelOrder(id, alloc);
      case Take(id, quantity) =>
        FillKeeps(book, id, quantity);
        FillOrder(id, quantity, alloc);
      case Return(r) => h := RestoreOrder(r.id, r.side, r.price, r.qty, alloc, rng);
    }

    /** A linked order carries the fields of its record and hangs in the level of its price: in the bid tree exactly
        when its side byte is 'B', in the ask tree exactly when it is not. */
    lemma LinkedFields(o: Order)
      requires Valid() && o in book.recs
      ensures var r := book.recs[o];
              o.OrderID == r.id && o.Side == r.side && o.Price == r.price && o.Quantity == r.qty && o.Token == Token
      ensures var levels := if o.Side == 66 then Bids.Levels() else Asks.Levels();
              o.Price in levels && o.PriceLevel == levels[o.Price] && levels[o.Price].Price == o.Price
      ensures o.PriceLevel in Bids.Levels().Values <==> o.Side == 66
      ensures o.PriceLevel in Asks.Levels().Values <==> o.Side != 66
      ensures forall key :: o in Fifo(book, key) <==> key == Key(o.Side == 66, o.Price)
    {
      hide PriceTree.Sound, Totalled, Bucketed;
      var at := LevelFound(objs, book, o);
      assert Matches(o, book.recs[o], Token);
      assert Carries(objs[KeyOf(book.recs[o])], KeyOf(book.recs[o]), LevelAt(book, KeyOf(book.recs[o])));
      PlacedAt(book);
    }

    /** Whatever the messages, an order the index finds carries the id it was found by and hangs in exactly
        one level, that of its price in the tree its side byte selects. */
    lemma FoundIsLinked(id: uint64)
      requires Valid() && id in OrdersById.contents
      ensures var o := OrdersById.contents[id];
              var levels := if o.Side == 66 then Bids.Levels() else Asks.Levels();
              && o.OrderID == id && o.Token == Token && o in book.recs
              && o.Price in levels && o.PriceLevel == levels[o.Price] && o.PriceLevel.Price == o.Price
              && forall key :: o in Fifo(book, key) <==> key == Key(o.Side == 66, o.Price)
    {
      hide PriceTree.Sound, PriceTree.Owned, Totalled, Bucketed, Placed, Contract.Planted, Carried, Matched;
      LinkedFields(OrdersById.contents[id]);
    }

    /** Whatever the messages, a level is one acyclic list from its first order to its last, its total that of the
        book, its count the length and its total the sum of the quantities, both up to int32 overflow. */
    lemma LevelIsList(key: Key)
      requires Valid() && key.price in (if key.buy then Bids.Levels() else Asks.Levels())
      ensures var level, fifo := (if key.buy then Bids.Levels() else Asks.Levels())[key.price], Fifo(book, key);
              && level.Price == key.price && Linked(level, fifo) && level.TotalQty == TotalAt(book, key)
              && level.OrderCount == Wrap32(|fifo|) && Congruent32(level.TotalQty, QtyAt(book, key))
              && forall o :: o in fifo ==> o in book.recs && Key(o.Side == 66, o.Price) == key
    {
      hide PriceTree.Sound, PriceTree.Owned, Bucketed, Congruent32;
      BothTreesLookup(objs, Bids.Levels(), Asks.Levels(), key);
      PlacedAt(book);
      forall o | o in Fifo(book, key) ensures o in book.recs && Key(o.Side == 66, o.Price) == key {
        assert Matches(o, book.recs[o], Token);
      }
      assert Carries(objs[key], key, LevelAt(book, key));
    }

    /** The best bid level is at least as good as every linked order with side byte 'B'; it may be empty. */
    method BestBid() returns (level: PriceLevel?)
      requires Valid()
      ensures level == null <==> Bids.Levels() == map[]
      ensures level == null ==> forall o :: o in book.recs ==> o.Side != 66
      ensures level != null ==>
                && level.Price in Bids.Levels() && Bids.Levels()[level.Price] == level
                && forall o :: o in book.recs && o.Side == 66 ==> o.Price <= level.Price
    {
      hide PriceTree.Sound, PriceTree.Owned, Contract.Valid, BothTrees;
      ghost var bids := Bids.Levels();
      LiveLevels(true);
      level := Bids.GetBestBid();
      assert Bids.Levels() == bids;
    }

    /** The best ask level is at least as good as every linked order with another side byte; it may be empty. */
    method BestAsk() returns (level: PriceLevel?)
      requires Valid()
      ensures level == null <==> Asks.Levels() == map[]
      ensures level == null ==> forall o :: o in book.recs ==> o.Side == 66
      ensures level != null ==>
                && level.Price in Asks.Levels() && Asks.Levels()[level.Price] == level
                && forall o :: o in book.recs && o.Side != 66 ==> level.Price <= o.Price
    {
      hide PriceTree.Sound, PriceTree.Owned, Contract.Valid, BothTrees;
      ghost var asks := Asks.Levels();
      LiveLevels(false);
      level := Asks.GetBestAsk();
      assert Asks.Levels() == asks;
    }

    /** The tree of a side holds the level of every linked order of that side, filed under its own price. */
    lemma LiveLevels(buy: bool)
      requires Valid()
      ensures Tree(buy).Valid() && Tree(buy).ascending == !buy
      ensures forall p :: p in Tree(buy).Levels() ==> Tree(buy).Levels()[p].Price == p
      ensures forall o :: o in book.recs && (o.Side == 66) == buy ==> o.Price in Tree(buy).Levels()
    {
      hide PriceTree.Sound, PriceTree.Owned, Carried, Matched, Placed;
      forall o | o in book.recs && (o.Side == 66) == buy ensures o.Price in Tree(buy).Levels() { LinkedFields(o); }
      forall p | p in Tree(buy).Levels() ensures Tree(buy).Levels()[p].Price == p { LevelIsList(Key(buy, p)); }
    }
  }

  /** What an act that takes orders out of a book puts into the pool: those orders and nothing else. */
  ghost predicate Pools(a: Act, was: set<Order>, b: Book<Order>, now: set<Order>, c: Book<Order>) {
    a.Drop? || a.Take? ==> c.recs.Keys <= b.recs.Keys && now == was + (b.recs.Keys - c.recs.Keys)
  }

  ghost function TakenSet(h: Option<Order>): set<Order> {
    if h.Some? then {h.value} else {}
  }

  ghost predicate IsEmptyLevel(level: PriceLevel, price: int32)
    reads level
  {
    && level.Price == price && level.TotalQty == 0 && level.OrderCount == 0
    && level.FirstOrder == null && level.LastOrder == null
  }
}
