/** The message handler: contracts by token, one order pool and one sequence merger
    (internal/orderbook/message_handler.go). */
module MessageHandlers {
  import opened Core
  import opened Orders
  import opened PriceTrees
  import opened Books
  import opened BookInvariants
  import opened Actions
  import opened SimpleBooks
  import opened Totals
  import opened Views
  import opened Feeds
  import opened Outcomes
  import opened Meanings
  import opened Allocators
  import opened OrderMaps
  import opened Contracts
  import Mergers
  import opened SequenceMergers

  /** The steps carry out the acts, each served, and make the book out of an empty one. */
  ghost predicate Traced(steps: seq<Step<Order>>, acts: seq<Act>, book: Book<Order>) {
    Makes(Empty(BUCKET_MASK), steps, acts, book)
  }

  /** What a message means to the merger: a heartbeat updates it. */
  function Beat(m: Mergers.Merger, msg: RawMessage): Mergers.Merger {
    if msg.msgType == 'Z' && msg.lastSeq.Some? then Mergers.UpdateLastSeq(m, msg.streamId, msg.lastSeq.value) else m
  }

  /** Some turns of the main loop with nothing arriving meanwhile: the merger afterwards, and what it delivered. */
  datatype Stretch = Stretch(merger: Mergers.Merger, delivered: seq<RawMessage>, panicked: bool)

  function Turned(s: Stretch, t: Mergers.Turn): Stretch {
    match t.verdict
    case Delivered(msg) => Stretch(Beat(t.merger, msg), s.delivered + [msg], false)
    case _ => Stretch(t.merger, s.delivered, t.verdict.Panicked?)
  }

  function Turns(m: Mergers.Merger, polls: seq<bool>): Stretch {
    if polls == [] then Stretch(m, [], false)
    else
      var s := Turns(m, polls[..|polls| - 1]);
      if s.panicked then s else Turned(s, Mergers.GetNext(s.merger, polls[|polls| - 1]))
  }

  lemma {:induction false} PanicLasts(m: Mergers.Merger, polls: seq<bool>, i: nat)
    requires i <= |polls| && Turns(m, polls[..i]).panicked
    ensures Turns(m, polls) == Turns(m, polls[..i])
    decreases |polls|
  {
    if i == |polls| {
      assert polls[..i] == polls;
    } else {
      assert polls[..|polls| - 1][..i] == polls[..i];
      PanicLasts(m, polls[..|polls| - 1], i);
    }
  }

  class MessageHandler {
    var contracts: map<uint32, Contract>
    const allocator: OrderAllocator
    const rng: Rng
    const sequencer: SequenceMerger
    ghost var owner: map<object, uint32>                  // which contract an object is part of
    ghost var history: map<uint32, seq<Step<Order>>>      // every step taken on a contract
    ghost var feed: map<uint32, seq<Act>>                 // every act the messages asked of it

    /** The contract is in order, is filed under its token and shares nothing with another. */
    ghost predicate Filed(token: uint32)
      requires token in contracts
      reads *
    {
      var c := contracts[token];
      c.Token == token && c.Valid() && forall o :: o in c.Frame() ==> o in owner && owner[o] == token
    }

    /** The contract's book is what its history of served steps makes of an empty book. */
    ghost predicate Recorded(token: uint32)
      requires token in contracts
      reads this, contracts.Values
    {
      token in history && token in feed && Traced(history[token], feed[token], contracts[token].book)
    }

    ghost predicate Valid()
      reads *
    {
      && allocator.Valid() && sequencer.Valid() && Seeded(rng.state)
      && (forall token :: token in contracts ==> Filed(token) && Recorded(token))
      && history.Keys == contracts.Keys && feed.Keys == contracts.Keys
    }

    constructor (sequencer: SequenceMerger)
      requires sequencer.Valid()
      ensures Valid() && this.sequencer == sequencer && contracts == map[] && feed == map[]
    {
      contracts := map[];
      allocator := new OrderAllocator();
      rng := new Rng();
      this.sequencer := sequencer;
      owner, history, feed := map[], map[], map[];
    }

    /** Contracts are apart from each other, from the pool and from the generator. */
    lemma ContractsApart(token: uint32, t: uint32)
      requires Valid() && token in contracts && t in contracts && t != token
      ensures contracts[t].Frame() !! contracts[token].Frame()
      ensures contracts[t].Frame() !! allocator.orderPool
      ensures allocator !in contracts[t].Frame() && rng !in contracts[t].Frame()
    {
      hide Contract.Valid, OrderAllocator.Valid, Contract.Frame, SequenceMerger.Valid, MessageHandler.Recorded;
      contracts[t].FramePoolApart(allocator, rng);
      assert Filed(t) && Filed(token);
    }

    /** The handler and the merger are no part of a contract, nor of the pool. */
    lemma HandlerApart(c: Contract)
      ensures this !in c.Frame() && sequencer !in c.Frame() && c.Frame() !! Rings(sequencer.queues)
      ensures allocator !in Rings(sequencer.queues) && rng !in Rings(sequencer.queues)
      ensures this !in Rings(sequencer.queues)
      ensures allocator.orderPool !! Rings(sequencer.queues)
    {
      hide Contract.TreeSet;
      c.TreeSetApart({}, null);
      TreeApart(c);
    }

    lemma TreeApart(c: Contract)
      ensures this !in c.TreeSet() && sequencer !in c.TreeSet() && c.TreeSet() !! Rings(sequencer.queues)
    {
    }

    /** An act on one contract leaves every object elsewhere as it was. */
    method PerformAlone(c: Contract, a: Act, ghost still: set<object>) returns (ghost h: Option<Order>)
      requires c.Valid() && allocator.Valid() && Seeded(rng.state) && sequencer.Valid()
      requires still + {sequencer} + Rings(sequencer.queues) !! c.Frame() + allocator.orderPool + {allocator, rng}
      modifies c.Frame(), allocator, allocator.orderPool, rng
      ensures c.Valid() && allocator.Valid() && Seeded(rng.state)
      ensures sequencer.Valid() && sequencer.View() == old(sequencer.View())
      ensures Served(old(c.book), Step(a, h)) && c.book == Apply(old(c.book), Step(a, h))
      ensures Pools(a, old(allocator.orderPool), old(c.book), allocator.orderPool, c.book)
      ensures forall o :: o in still ==> unchanged(o) && o !in c.Frame()
      ensures forall o :: o in c.Frame() ==> o in old(c.Frame()) || o in old(allocator.orderPool) || fresh(o)
      ensures forall o :: o in allocator.orderPool ==> o in old(allocator.orderPool) || o in old(c.Frame())
    {
      hide Contract.Valid, OrderAllocator.Valid, Served, Apply, Pools, Contract.Frame, SequenceMerger.Valid,
        SequenceMerger.View;
      c.FrameCovers();
      h := c.Perform(a, allocator, rng);
    }

    /** An act on one contract leaves every other one as it was. */
    method PerformApart(c: Contract, a: Act, ghost others: set<Contract>, ghost frames: map<Contract, set<object>>,
                        ghost still: set<object>)
      returns (ghost h: Option<Order>)
      requires c.Valid() && allocator.Valid() && Seeded(rng.state)
      requires forall d :: d in others ==>
                 d in frames && frames[d] == d.Frame() && d.Valid() && frames[d] <= still
      requires sequencer.Valid()
      requires still + {sequencer} + Rings(sequencer.queues) !! c.Frame() + allocator.orderPool + {allocator, rng}
      modifies c.Frame(), allocator, allocator.orderPool, rng
      ensures c.Valid() && allocator.Valid() && Seeded(rng.state)
      ensures sequencer.Valid() && sequencer.View() == old(sequencer.View())
      ensures Served(old(c.book), Step(a, h)) && c.book == Apply(old(c.book), Step(a, h))
      ensures Pools(a, old(allocator.orderPool), old(c.book), allocator.orderPool, c.book)
      ensures forall d :: d in others ==>
                d.Valid() && d.Frame() == frames[d] && d.book == old(d.book) && d.Frame() !! c.Frame()
      ensures forall o :: o in c.Frame() ==> o in old(c.Frame()) || o in old(allocator.orderPool) || fresh(o)
      ensures forall o :: o in allocator.orderPool ==> o in old(allocator.orderPool) || o in old(c.Frame())
    {
      hide Contract.Valid, OrderAllocator.Valid, Served, Apply, Pools, Contract.Frame, SequenceMerger.Valid,
        SequenceMerger.View, Rings;
      forall d | d in others ensures d in frames[d] && d.OrdersById in frames[d] && d.OrdersById.buckets in frames[d]
        && d.Bids in frames[d] && d.Asks in frames[d] && d.OrdersById.contents.Values <= d.book.recs.Keys
        && d.Bids.NodeSet() + d.Asks.NodeSet() <= frames[d] && d.objs.Values + d.book.recs.Keys <= frames[d]
      {
        d.FrameCovers();
      }
      h := PerformAlone(c, a, still);
      forall d | d in others ensures d.Valid() && d.Frame() == frames[d] && d.book == old(d.book) {
        assert forall o :: o in frames[d] ==> unchanged(o);
      }
    }

    ghost function Others(token: uint32): set<Contract>
      requires token in contracts
      reads this
    {
      set t | t in contracts && t != token :: contracts[t]
    }

    ghost function OthersReach(token: uint32): set<object>
      requires token in contracts
      reads *
    {
      set d, o | d in Others(token) && o in d.Frame() :: o
    }

    /** Everything an act on one contract must leave alone is apart from what it touches. */
    lemma Bystanders(token: uint32)
      requires Valid() && token in contracts
      ensures var c := contracts[token];
              && c.Valid() && allocator.Valid() && sequencer.Valid() && Seeded(rng.state) && this !in c.Frame()
              && OthersReach(token) + {sequencer} + Rings(sequencer.queues)
                   !! c.Frame() + allocator.orderPool + {allocator, rng}
              && forall d :: d in Others(token) ==> d.Valid() && d.Frame() <= OthersReach(token)
      ensures forall t :: t in contracts && t != token ==> contracts[t] in Others(token)
    {
      hide Contract.Valid, OrderAllocator.Valid, Contract.Frame, SequenceMerger.Valid, MessageHandler.Recorded, Rings;
      var c := contracts[token];
      assert Filed(token);
      HandlerApart(c);
      forall d | d in Others(token)
        ensures d.Valid() && this !in d.Frame() && d.Frame() !! c.Frame() + allocator.orderPool + {allocator, rng}
      {
        var t :| t in contracts && t != token && contracts[t] == d;
        assert Filed(t);
        ContractsApart(token, t);
        HandlerApart(d);
      }
    }

    /** Everything is filed and on record, but for the last step of one contract. */
    ghost predicate OnRecord(token: uint32)
      requires token in contracts
      reads *
    {
      && history.Keys == contracts.Keys && feed.Keys == contracts.Keys && contracts[token].Token == token
      && (forall t :: t in contracts && t != token ==>
            contracts[t].Token == t && Traced(history[t], feed[t], contracts[t].book))
      && (forall t, o :: t in contracts && t != token && o in contracts[t].Frame() ==> o in owner && owner[o] == t)
    }

    /** One act on one contract, with everything else of the market left alone. */
    method PerformOn(token: uint32, a: Act) returns (ghost h: Option<Order>)
      requires Valid() && token in contracts
      modifies contracts[token].Frame(), allocator, allocator.orderPool, rng
      ensures unchanged(this) && sequencer.Valid() && sequencer.View() == old(sequencer.View())
      ensures allocator.Valid() && contracts[token].Valid() && Seeded(rng.state)
      ensures Served(old(contracts[token].book), Step(a, h))
      ensures contracts[token].book == Apply(old(contracts[token].book), Step(a, h))
      ensures Pools(a, old(allocator.orderPool), old(contracts[token].book), allocator.orderPool, contracts[token].book)
      ensures forall o :: o in contracts[token].Frame() ==>
                o in old(contracts[token].Frame()) || o in old(allocator.orderPool) || fresh(o)
      ensures forall o :: o in allocator.orderPool ==>
                o in old(allocator.orderPool) || o in old(contracts[token].Frame())
      ensures forall t :: t in contracts && t != token ==>
                && contracts[t].Valid() && contracts[t].book == old(contracts[t].book)
                && contracts[t].Frame() == old(contracts[t].Frame()) && contracts[t].Frame() !! contracts[token].Frame()
    {
      hide Contract.Valid, OrderAllocator.Valid, Served, Apply, Pools, Contract.Frame, SequenceMerger.Valid,
        SequenceMerger.View, MessageHandler.Valid, Rings, MessageHandler.Others, MessageHandler.OthersReach;
      ghost var frames := map d | d in Others(token) :: d.Frame();
      Bystanders(token);
      h := PerformApart(contracts[token], a, Others(token), frames, OthersReach(token));
    }

    /** The same, with the records of the market in step but for the one act. */
    method PerformKept(token: uint32, a: Act) returns (ghost h: Option<Order>)
      requires Valid() && token in contracts
      modifies contracts[token].Frame(), allocator, allocator.orderPool, rng
      ensures unchanged(this) && sequencer.Valid() && sequencer.View() == old(sequencer.View())
      ensures allocator.Valid() && contracts[token].Valid() && Seeded(rng.state)
      ensures Served(old(contracts[token].book), Step(a, h))
      ensures contracts[token].book == Apply(old(contracts[token].book), Step(a, h))
      ensures Pools(a, old(allocator.orderPool), old(contracts[token].book), allocator.orderPool, contracts[token].book)
      ensures forall o :: o in contracts[token].Frame() ==>
                o in old(contracts[token].Frame()) || o in old(allocator.orderPool) || fresh(o)
      ensures forall o :: o in allocator.orderPool ==>
                o in old(allocator.orderPool) || o in old(contracts[token].Frame())
      ensures forall t :: t in contracts && t != token ==>
                && contracts[t].Valid() && contracts[t].book == old(contracts[t].book)
                && contracts[t].Frame() == old(contracts[t].Frame()) && contracts[t].Frame() !! contracts[token].Frame()
      ensures OnRecord(token) && Traced(history[token], feed[token], old(contracts[token].book))
    {
      hide Contract.Valid, OrderAllocator.Valid, Served, Apply, Pools, Contract.Frame, SequenceMerger.Valid,
        SequenceMerger.View, MessageHandler.Valid, Rings, Traced, MessageHandler.Recorded;
      Standing();
      Tracing();
      h := PerformOn(token, a);
    }

    /** The handler's own fields are no part of any contract. */
    method Note(market: map<uint32, Contract>, ghost owner': map<object, uint32>,
                ghost history': map<uint32, seq<Step<Order>>>, ghost feed': map<uint32, seq<Act>>)
      requires allocator.Valid() && sequencer.Valid() && Seeded(rng.state) && market != map[]
      requires forall c :: c in market.Values ==> c.Valid()
      modifies this
      ensures contracts == market && owner == owner' && history == history' && feed == feed'
      ensures allocator.Valid() && sequencer.Valid() && Seeded(rng.state) && sequencer.View() == old(sequencer.View())
      ensures forall c :: c in market.Values ==> c.Valid() && c.Frame() == old(c.Frame())
    {
      hide Contract.Valid, OrderAllocator.Valid, Contract.Frame, SequenceMerger.Valid, SequenceMerger.View, Rings;
      forall c | c in market.Values
        ensures this !in c.Frame() && this !in Rings(sequencer.queues)
        ensures c.OrdersById in c.Frame() && c.OrdersById.buckets in c.Frame()
        ensures c.Bids in c.Frame() && c.Asks in c.Frame()
        ensures c.OrdersById.contents.Values <= c.book.recs.Keys
        ensures c.Bids.NodeSet() + c.Asks.NodeSet() <= c.Frame() && c.objs.Values + c.book.recs.Keys <= c.Frame()
      {
        HandlerApart(c);
        c.FrameCovers();
      }
      contracts, owner, history, feed := market, owner', history', feed';
    }

    /** The ownership map once one contract's frame has been claimed. */
    lemma Claimed(token: uint32, was: map<object, uint32>, frames: map<uint32, set<object>>)
      requires token in contracts && frames.Keys == contracts.Keys
      requires forall t :: t in contracts ==>
                 contracts[t].Token == t && contracts[t].Valid() && contracts[t].Frame() == frames[t]
      requires forall t :: t in contracts && t != token ==> frames[t] !! frames[token]
      requires forall t, o :: t in contracts && t != token && o in frames[t] ==> o in was && was[o] == t
      requires owner == was + map o | o in frames[token] :: token
      ensures forall t :: t in contracts ==> Filed(t)
    {
      hide Contract.Valid, Contract.Frame;
    }

    /** The contracts, the history and the ownership after something happened to one contract. */
    method Commit(market: map<uint32, Contract>, token: uint32, ghost steps: seq<Step<Order>>, ghost acts: seq<Act>,
                  ghost frames: map<uint32, set<object>>)
      requires token in market && frames.Keys == market.Keys
      requires allocator.Valid() && sequencer.Valid() && Seeded(rng.state)
      requires forall t :: t in market ==> market[t].Token == t && market[t].Valid() && market[t].Frame() == frames[t]
      requires forall t :: t in market && t != token ==> frames[t] !! frames[token]
      requires forall t, o :: t in market && t != token && o in frames[t] ==> o in owner && owner[o] == t
      requires history.Keys == feed.Keys && history.Keys + {token} == market.Keys
      requires forall t :: t in market && t != token ==> Traced(history[t], feed[t], market[t].book)
      requires Traced(steps, acts, market[token].book)
      modifies this
      ensures Valid() && contracts == market
      ensures feed == old(feed)[token := acts] && history == old(history)[token := steps]
      ensures sequencer.View() == old(sequencer.View())
      ensures forall t :: t in contracts ==> contracts[t].Frame() == frames[t]
    {
      hide Contract.Valid, OrderAllocator.Valid, Contract.Frame, SequenceMerger.Valid, SequenceMerger.View,
        Traced, MessageHandler.Filed, MessageHandler.Valid, MessageHandler.Recorded;
      ghost var was, h0, f0 := owner, history, feed;
      Note(market, was + map o | o in frames[token] :: token, history[token := steps], feed[token := acts]);
      Claimed(token, was, frames);
      Retraced(token, steps, acts, h0, f0);
      Assembled();
    }

    lemma Retraced(token: uint32, steps: seq<Step<Order>>, acts: seq<Act>,
                   h0: map<uint32, seq<Step<Order>>>, f0: map<uint32, seq<Act>>)
      requires token in contracts && h0.Keys == f0.Keys && h0.Keys + {token} == contracts.Keys
      requires forall t :: t in contracts && t != token ==> Traced(h0[t], f0[t], contracts[t].book)
      requires Traced(steps, acts, contracts[token].book) && history == h0[token := steps] && feed == f0[token := acts]
      ensures forall t :: t in contracts ==> Recorded(t)
    {
      hide Traced;
    }

    lemma Assembled()
      requires allocator.Valid() && sequencer.Valid() && Seeded(rng.state)
      requires forall t :: t in contracts ==> Filed(t)
      requires forall t :: t in contracts ==> Recorded(t)
      requires history.Keys == contracts.Keys && feed.Keys == contracts.Keys
      ensures Valid()
    {
      hide Contract.Valid, OrderAllocator.Valid, SequenceMerger.Valid, MessageHandler.Filed, MessageHandler.Recorded;
    }

    lemma TracedMore(steps: seq<Step<Order>>, acts: seq<Act>, book: Book<Order>, s: Step<Order>)
      requires Traced(steps, acts, book) && Served(book, s)
      ensures Traced(steps + [s], acts + [s.act], Apply(book, s))
    {
      hide Served, Apply;
      RunConcat(Empty(BUCKET_MASK), steps, [s]);
    }

    /** What validity says of the contracts, spelled out. */
    lemma Standing()
      requires Valid()
      ensures allocator.Valid() && sequencer.Valid() && Seeded(rng.state)
      ensures forall t :: t in contracts ==> contracts[t].Token == t && contracts[t].Valid() && Recorded(t)
      ensures forall t, o :: t in contracts && o in contracts[t].Frame() ==> o in owner && owner[o] == t
      ensures history.Keys == contracts.Keys && feed.Keys == contracts.Keys
    {
      hide Contract.Valid, OrderAllocator.Valid, Contract.Frame, SequenceMerger.Valid, MessageHandler.Recorded;
      assert forall t :: t in contracts ==> Filed(t);
    }

    lemma Tracing()
      requires Valid()
      ensures history.Keys == contracts.Keys && feed.Keys == contracts.Keys
      ensures forall t :: t in contracts ==> Traced(history[t], feed[t], contracts[t].book)
    {
      hide Contract.Valid, OrderAllocator.Valid, SequenceMerger.Valid, MessageHandler.Filed, Traced;
      assert forall t :: t in contracts ==> Recorded(t);
    }

    /** Puts a step on record that one contract has taken and the others have not noticed. */
    method Record(token: uint32, ghost b: Book<Order>, ghost s: Step<Order>)
      requires allocator.Valid() && sequencer.Valid() && Seeded(rng.state) && token in contracts && OnRecord(token)
      requires forall t :: t in contracts ==> contracts[t].Valid()
      requires forall t :: t in contracts && t != token ==> contracts[t].Frame() !! contracts[token].Frame()
      requires Traced(history[token], feed[token], b) && Served(b, s) && contracts[token].book == Apply(b, s)
      modifies this
      ensures Valid() && contracts == old(contracts) && feed == old(feed)[token := old(feed)[token] + [s.act]]
      ensures forall t :: t in contracts ==> contracts[t].Frame() == old(contracts[t].Frame())
      ensures sequencer.View() == old(sequencer.View())
    {
      hide Contract.Valid, OrderAllocator.Valid, Contract.Frame, SequenceMerger.Valid, SequenceMerger.View,
        Served, Apply, Traced, Rings, MessageHandler.Valid;
      TracedMore(history[token], feed[token], b, s);
      ghost var frames := map t | t in contracts :: contracts[t].Frame();
      Commit(contracts, token, history[token] + [s], feed[token] + [s.act], frames);
    }

    /** One act on the contract of a token. */
    method Perform(token: uint32, a: Act) returns (ghost steps: seq<Step<Order>>)
      requires Valid() && token in contracts
      modifies contracts[token].Frame(), allocator, allocator.orderPool, rng, this
      ensures Valid() && contracts == old(contracts)
      ensures feed == old(feed)[token := old(feed)[token] + [a]]
      ensures Makes(old(contracts[token].book), steps, [a], contracts[token].book)
      ensures Pools(a, old(allocator.orderPool), old(contracts[token].book), allocator.orderPool, contracts[token].book)
      ensures forall t :: t in contracts && t != token ==>
                contracts[t].book == old(contracts[t].book) && contracts[t].Frame() == old(contracts[t].Frame())
      ensures forall o :: o in contracts[token].Frame() ==>
                o in old(contracts[token].Frame()) || o in old(allocator.orderPool) || fresh(o)
      ensures forall o :: o in allocator.orderPool ==>
                o in old(allocator.orderPool) || o in old(contracts[token].Frame())
      ensures sequencer.View() == old(sequencer.View())
    {
      hide Contract.Valid, OrderAllocator.Valid, Contract.Frame, SequenceMerger.Valid, SequenceMerger.View,
        Served, Apply, Pools, Traced, Rings, MessageHandler.Valid, Makes, MessageHandler.Recorded,
        MessageHandler.OnRecord;
      ghost var h := PerformKept(token, a);
      steps := [Step(a, h)];
      MakesStep(old(contracts[token].book), Step(a, h));
      Record(token, old(contracts[token].book), Step(a, h));
    }

    /** The book of a token; a token without a contract has the empty one. */
    ghost function BookOf(token: uint32): Book<Order>
      reads this, contracts.Values
    {
      if token in contracts then contracts[token].book else Empty(BUCKET_MASK)
    }

    ghost function Reach(token: Option<uint32>): set<object>
      reads *
    {
      if token.Some? && token.value in contracts then contracts[token.value].Frame() else {}
    }

    /** A new contract has no part in what is there already. */
    method OpenContract(token: uint32, ghost frames: map<Contract, set<object>>, ghost rings: set<object>)
      returns (c: Contract)
      requires allocator.Valid() && sequencer.Valid() && rings == Rings(sequencer.queues)
      requires forall d :: d in contracts.Values ==> d in frames && frames[d] == d.Frame() && d.Valid()
      ensures c.Valid() && c.Token == token && c.book == Empty(BUCKET_MASK)
      ensures forall o :: o in c.Frame() ==> fresh(o)
      ensures allocator.Valid() && sequencer.Valid() && sequencer.View() == old(sequencer.View())
      ensures forall d :: d in contracts.Values ==> d.Valid() && d.Frame() == old(d.Frame()) && d.Frame() !! c.Frame()
    {
      hide Contract.Valid, OrderAllocator.Valid, Contract.Frame, SequenceMerger.Valid, SequenceMerger.View;
      forall d | d in contracts.Values
        ensures d in frames[d] && d.OrdersById in frames[d] && d.OrdersById.buckets in frames[d]
        ensures d.Bids in frames[d] && d.Asks in frames[d] && d.OrdersById.contents.Values <= d.book.recs.Keys
        && d.Bids.NodeSet() + d.Asks.NodeSet() <= frames[d] && d.objs.Values + d.book.recs.Keys <= frames[d]
      {
        d.FrameCovers();
      }
      c := new Contract(token);
      assert unchanged(sequencer) && forall o :: o in rings ==> unchanged(o);
      forall d | d in contracts.Values ensures d.Valid() && d.Frame() == frames[d] && d.Frame() !! c.Frame() {
        assert forall o :: o in frames[d] ==> unchanged(o);
      }
    }

    /** Files a contract that shares nothing with the others. */
    method Enlist(token: uint32, c: Contract, ghost frames: map<uint32, set<object>>)
      requires allocator.Valid() && sequencer.Valid() && Seeded(rng.state)
      requires c.Valid() && c.Token == token && c.book == Empty(BUCKET_MASK)
      requires token !in contracts && frames.Keys == contracts.Keys
      requires forall t :: t in contracts ==>
                 && contracts[t].Token == t && contracts[t].Valid() && Recorded(t)
                 && contracts[t].Frame() == frames[t] && frames[t] !! c.Frame()
      requires forall t, o :: t in contracts && o in frames[t] ==> o in owner && owner[o] == t
      requires history.Keys == contracts.Keys && feed.Keys == contracts.Keys
      modifies this
      ensures Valid() && contracts == old(contracts)[token := c] && feed == old(feed)[token := []]
      ensures contracts[token].Frame() == old(c.Frame()) && sequencer.View() == old(sequencer.View())
    {
      hide Contract.Valid, OrderAllocator.Valid, Contract.Frame, SequenceMerger.Valid, SequenceMerger.View, Traced,
        Rings, MessageHandler.Valid, MessageHandler.Filed;
      assert Traced([], [], c.book) by { TracedNone(); }
      Commit(contracts[token := c], token, [], [], frames[token := c.Frame()]);
    }

    method AddContract(token: uint32)
      requires Valid() && token !in contracts
      modifies this
      ensures Valid() && token in contracts && contracts.Keys == old(contracts).Keys + {token}
      ensures forall t :: t in old(contracts) ==> contracts[t] == old(contracts)[t]
      ensures contracts[token].book == Empty(BUCKET_MASK)
      ensures feed == old(feed)[token := []]
      ensures forall o :: o in contracts[token].Frame() ==> fresh(o)
      ensures sequencer.View() == old(sequencer.View())
    {
      hide Contract.Valid, OrderAllocator.Valid, Contract.Frame, SequenceMerger.Valid, SequenceMerger.View, Traced,
        Rings, MessageHandler.Valid, MessageHandler.Filed, MessageHandler.Recorded;
      Standing();
      ghost var before := map d | d in contracts.Values :: d.Frame();
      ghost var frames := map t | t in contracts :: contracts[t].Frame();
      var c := OpenContract(token, before, Rings(sequencer.queues));
      Enlist(token, c, frames);
    }

    /** The contract of a token, created empty when the token is new. */
    method GetContract(token: uint32)
      requires Valid()
      modifies this
      ensures Valid() && token in contracts && contracts.Keys == old(contracts).Keys + {token}
      ensures forall t :: t in old(contracts) ==>
                contracts[t] == old(contracts)[t] && contracts[t].Frame() == old(contracts[t].Frame())
      ensures forall t :: BookOf(t) == old(BookOf(t))
      ensures feed == old(feed)[token := ActsSoFar(old(feed), token)]
      ensures forall o :: o in contracts[token].Frame() ==> o in old(Reach(Some(token))) || fresh(o)
      ensures sequencer.View() == old(sequencer.View())
    {
      hide Contract.Valid, OrderAllocator.Valid, Contract.Frame, SequenceMerger.Valid, SequenceMerger.View,
        MessageHandler.Recorded, MessageHandler.Filed;
      assert feed.Keys == contracts.Keys;
      if token in contracts {
        assert feed == feed[token := ActsSoFar(feed, token)];
      } else {
        AddContract(token);
      }
    }

    lemma TracedNone()
      ensures Traced([], [], Empty(BUCKET_MASK))
    {
    }

    /** One act on the contract of a token, which is created when the token is new. */
    method PerformFor(token: uint32, a: Act) returns (ghost steps: seq<Step<Order>>)
      requires Valid()
      modifies this, allocator, allocator.orderPool, rng, Reach(Some(token))
      ensures Valid() && token in contracts
      ensures feed == old(feed)[token := ActsSoFar(old(feed), token) + [a]]
      ensures forall o :: o in Reach(Some(token)) ==>
                o in old(Reach(Some(token))) || o in old(allocator.orderPool) || fresh(o)
      ensures forall o :: o in allocator.orderPool ==>
                o in old(allocator.orderPool) || o in old(Reach(Some(token))) || fresh(o)
      ensures Makes(old(BookOf(token)), steps, [a], BookOf(token))
      ensures Pools(a, old(allocator.orderPool), old(BookOf(token)), allocator.orderPool, BookOf(token))
      ensures forall t :: t != token ==> BookOf(t) == old(BookOf(t))
      ensures forall t :: t in old(contracts) && t != token ==>
                && t in contracts && contracts[t] == old(contracts)[t]
                && contracts[t].Frame() == old(contracts[t].Frame())
      ensures sequencer.View() == old(sequencer.View())
    {
      hide Contract.Valid, OrderAllocator.Valid, Contract.Frame, SequenceMerger.Valid, SequenceMerger.View,
        MessageHandler.Valid, Rings, MessageHandler.Filed, MessageHandler.Recorded, Pools,
        Makes;
      GetContract(token);
      steps := Perform(token, a);
    }

    // ---- Messages ----

    /** New order messages (N, G). */
    method HandleNewOrder(msg: RawMessage) returns (ghost steps: seq<Step<Order>>)
      requires Valid() && (msg.msgType == 'N' || msg.msgType == 'G')
      modifies this, allocator, allocator.orderPool, rng, Reach(TokenOf(msg))
      ensures Valid() && feed == Fed(old(feed), msg) && sequencer.View() == old(sequencer.View())
      ensures forall t: uint32 :: Applied(msg, t, old(BookOf(t)), steps, BookOf(t))
      ensures forall t: uint32 :: Meant(msg, t, old(BookOf(t)), Between(old(BookOf(t)), steps), BookOf(t))
      ensures forall t :: t in old(contracts) && Some(t) != TokenOf(msg) ==>
                && t in contracts && contracts[t] == old(contracts)[t]
                && contracts[t].Frame() == old(contracts[t].Frame())
      ensures forall o :: o in Reach(TokenOf(msg)) ==>
                o in old(Reach(TokenOf(msg))) || o in old(allocator.orderPool) || fresh(o)
      ensures forall o :: o in allocator.orderPool ==>
                o in old(allocator.orderPool) || o in old(Reach(TokenOf(msg))) || fresh(o)
    {
      hide MessageHandler.Valid, SequenceMerger.View, MessageHandler.Reach, Makes, MessageHandler.BookOf, Meant,
        Between, WellFormed;
      forall t: uint32 ensures WellFormed(BookOf(t)) { BooksWellFormed(t); }
      steps := [];
      if msg.order.Some? {
        steps := PerformFor(msg.order.value.token, Add(RecOf(msg.order.value)));
      }
      forall t: uint32 ensures Meant(msg, t, old(BookOf(t)), Between(old(BookOf(t)), steps), BookOf(t)) {
        AppliedMeans(msg, t, old(BookOf(t)), steps, BookOf(t));
      }
    }

    /** Modification messages (M, H). */
    method HandleModifyOrder(msg: RawMessage) returns (ghost steps: seq<Step<Order>>)
      requires Valid() && (msg.msgType == 'M' || msg.msgType == 'H')
      modifies this, allocator, allocator.orderPool, rng, Reach(TokenOf(msg))
      ensures Valid() && feed == Fed(old(feed), msg) && sequencer.View() == old(sequencer.View())
      ensures forall t: uint32 :: Applied(msg, t, old(BookOf(t)), steps, BookOf(t))
      ensures forall t: uint32 :: Meant(msg, t, old(BookOf(t)), Between(old(BookOf(t)), steps), BookOf(t))
      ensures forall t :: t in old(contracts) && Some(t) != TokenOf(msg) ==>
                && t in contracts && contracts[t] == old(contracts)[t]
                && contracts[t].Frame() == old(contracts[t].Frame())
      ensures forall o :: o in Reach(TokenOf(msg)) ==>
                o in old(Reach(TokenOf(msg))) || o in old(allocator.orderPool) || fresh(o)
      ensures forall o :: o in allocator.orderPool ==>
                o in old(allocator.orderPool) || o in old(Reach(TokenOf(msg))) || fresh(o)
    {
      hide MessageHandler.Valid, SequenceMerger.View, MessageHandler.Reach, Makes, MessageHandler.BookOf, Meant,
        Between, WellFormed;
      forall t: uint32 ensures WellFormed(BookOf(t)) { BooksWellFormed(t); }
      steps := [];
      if msg.order.Some? {
        steps := PerformFor(msg.order.value.token, Revise(RecOf(msg.order.value)));
      }
      forall t: uint32 ensures Meant(msg, t, old(BookOf(t)), Between(old(BookOf(t)), steps), BookOf(t)) {
        AppliedMeans(msg, t, old(BookOf(t)), steps, BookOf(t));
      }
    }

    /** Cancellation messages (X, J). */
    method HandleCancelOrder(msg: RawMessage) returns (ghost steps: seq<Step<Order>>)
      requires Valid() && (msg.msgType == 'X' || msg.msgType == 'J')
      modifies this, allocator, allocator.orderPool, rng, Reach(TokenOf(msg))
      ensures Valid() && feed == Fed(old(feed), msg) && sequencer.View() == old(sequencer.View())
      ensures forall t: uint32 :: Addresses(msg, t) ==>
                allocator.orderPool == old(allocator.orderPool) + (old(BookOf(t)).recs.Keys - BookOf(t).recs.Keys)
      ensures forall t: uint32 :: Applied(msg, t, old(BookOf(t)), steps, BookOf(t))
      ensures forall t: uint32 :: Meant(msg, t, old(BookOf(t)), Between(old(BookOf(t)), steps), BookOf(t))
      ensures forall t :: t in old(contracts) && Some(t) != TokenOf(msg) ==>
                && t in contracts && contracts[t] == old(contracts)[t]
                && contracts[t].Frame() == old(contracts[t].Frame())
      ensures forall o :: o in Reach(TokenOf(msg)) ==>
                o in old(Reach(TokenOf(msg))) || o in old(allocator.orderPool) || fresh(o)
      ensures forall o :: o in allocator.orderPool ==>
                o in old(allocator.orderPool) || o in old(Reach(TokenOf(msg))) || fresh(o)
    {
      hide MessageHandler.Valid, SequenceMerger.View, MessageHandler.Reach, Makes, MessageHandler.BookOf, Meant,
        Between, WellFormed;
      forall t: uint32 ensures WellFormed(BookOf(t)) { BooksWellFormed(t); }
      steps := [];
      if msg.order.Some? {
        steps := PerformFor(msg.order.value.token, Drop(msg.order.value.orderId));
      }
      forall t: uint32 ensures Meant(msg, t, old(BookOf(t)), Between(old(BookOf(t)), steps), BookOf(t)) {
        AppliedMeans(msg, t, old(BookOf(t)), steps, BookOf(t));
      }
    }

    /** Both legs of a trade or of a trade cancel. */
    method PerformBoth(token: uint32, a1: Act, a2: Act) returns (ghost steps: seq<Step<Order>>)
      requires Valid()
      modifies this, allocator, allocator.orderPool, rng, Reach(Some(token))
      ensures Valid() && sequencer.View() == old(sequencer.View())
      ensures feed == old(feed)[token := ActsSoFar(old(feed), token) + [a1, a2]]
      ensures Makes(old(BookOf(token)), steps, [a1, a2], BookOf(token))
      ensures a1.Take? && a2.Take? ==>
                Pools(a2, old(allocator.orderPool), old(BookOf(token)), allocator.orderPool, BookOf(token))
      ensures forall t :: t != token ==> BookOf(t) == old(BookOf(t))
      ensures forall t :: t in old(contracts) && t != token ==>
                && t in contracts && contracts[t] == old(contracts)[t]
                && contracts[t].Frame() == old(contracts[t].Frame())
      ensures forall o :: o in Reach(Some(token)) ==>
                o in old(Reach(Some(token))) || o in old(allocator.orderPool) || fresh(o)
      ensures forall o :: o in allocator.orderPool ==>
                o in old(allocator.orderPool) || o in old(Reach(Some(token))) || fresh(o)
    {
      hide MessageHandler.Valid, SequenceMerger.View, Contract.Frame, Makes;
      ghost var f, b := feed, BookOf(token);
      ghost var first := PerformFor(token, a1);
      ghost var c := BookOf(token);
      ghost var second := Perform(token, a2);
      steps := first + second;
      MakesConcat(b, first, [a1], c, second, [a2], BookOf(token));
      assert [a1] + [a2] == [a1, a2];
      assert (ActsSoFar(f, token) + [a1]) + [a2] == ActsSoFar(f, token) + [a1, a2];
    }

    /** Trade messages (T). */
    method HandleTrade(msg: RawMessage) returns (ghost steps: seq<Step<Order>>)
      requires Valid() && msg.msgType == 'T'
      modifies this, allocator, allocator.orderPool, rng, Reach(TokenOf(msg))
      ensures Valid() && feed == Fed(old(feed), msg) && sequencer.View() == old(sequencer.View())
      ensures forall t: uint32 :: Addresses(msg, t) ==>
                allocator.orderPool == old(allocator.orderPool) + (old(BookOf(t)).recs.Keys - BookOf(t).recs.Keys)
      ensures forall t: uint32 :: Applied(msg, t, old(BookOf(t)), steps, BookOf(t))
      ensures forall t: uint32 :: Meant(msg, t, old(BookOf(t)), Between(old(BookOf(t)), steps), BookOf(t))
      ensures forall t :: t in old(contracts) && Some(t) != TokenOf(msg) ==>
                && t in contracts && contracts[t] == old(contracts)[t]
                && contracts[t].Frame() == old(contracts[t].Frame())
      ensures forall o :: o in Reach(TokenOf(msg)) ==>
                o in old(Reach(TokenOf(msg))) || o in old(allocator.orderPool) || fresh(o)
      ensures forall o :: o in allocator.orderPool ==>
                o in old(allocator.orderPool) || o in old(Reach(TokenOf(msg))) || fresh(o)
    {
      hide MessageHandler.Valid, SequenceMerger.View, MessageHandler.Reach, Makes, MessageHandler.BookOf, Meant,
        Between, WellFormed;
      forall t: uint32 ensures WellFormed(BookOf(t)) { BooksWellFormed(t); }
      steps := [];
      if msg.trade.Some? {
        var t := msg.trade.value;
        steps := PerformBoth(t.token, Take(t.buyId, t.quantity), Take(t.sellId, t.quantity));
      }
      forall t: uint32 ensures Meant(msg, t, old(BookOf(t)), Between(old(BookOf(t)), steps), BookOf(t)) {
        AppliedMeans(msg, t, old(BookOf(t)), steps, BookOf(t));
      }
    }

    /** Trade cancel messages (C). */
    method HandleTradeCancel(msg: RawMessage) returns (ghost steps: seq<Step<Order>>)
      requires Valid() && msg.msgType == 'C'
      modifies this, allocator, allocator.orderPool, rng, Reach(TokenOf(msg))
      ensures Valid() && feed == Fed(old(feed), msg) && sequencer.View() == old(sequencer.View())
      ensures forall t: uint32 :: Applied(msg, t, old(BookOf(t)), steps, BookOf(t))
      ensures forall t: uint32 :: Meant(msg, t, old(BookOf(t)), Between(old(BookOf(t)), steps), BookOf(t))
      ensures forall t :: t in old(contracts) && Some(t) != TokenOf(msg) ==>
                && t in contracts && contracts[t] == old(contracts)[t]
                && contracts[t].Frame() == old(contracts[t].Frame())
      ensures forall o :: o in Reach(TokenOf(msg)) ==>
                o in old(Reach(TokenOf(msg))) || o in old(allocator.orderPool) || fresh(o)
      ensures forall o :: o in allocator.orderPool ==>
                o in old(allocator.orderPool) || o in old(Reach(TokenOf(msg))) || fresh(o)
    {
      hide MessageHandler.Valid, SequenceMerger.View, MessageHandler.Reach, Makes, MessageHandler.BookOf, Meant,
        Between, WellFormed;
      forall t: uint32 ensures WellFormed(BookOf(t)) { BooksWellFormed(t); }
      steps := [];
      if msg.trade.Some? {
        var t := msg.trade.value;
        steps := PerformBoth(t.token, Return(Leg(t.buyId, SIDE_BUY, t)), Return(Leg(t.sellId, SIDE_SELL, t)));
      }
      forall t: uint32 ensures Meant(msg, t, old(BookOf(t)), Between(old(BookOf(t)), steps), BookOf(t)) {
        AppliedMeans(msg, t, old(BookOf(t)), steps, BookOf(t));
      }
    }

    /** The merger's own objects are no part of the market. */
    lemma MergerApart()
      requires Valid()
      ensures this !in Rings(sequencer.queues) && allocator !in Rings(sequencer.queues)
      ensures allocator.orderPool !! Rings(sequencer.queues)
      ensures forall c :: c in contracts.Values ==>
                && c.Valid() && {sequencer} + Rings(sequencer.queues) !! c.Frame()
                && c.OrdersById in c.Frame() && c.OrdersById.buckets in c.Frame()
                && c.Bids in c.Frame() && c.Asks in c.Frame()
                && c in c.Frame() && c.OrdersById.contents.Values <= c.book.recs.Keys
                && c.Bids.NodeSet() + c.Asks.NodeSet() <= c.Frame() && c.objs.Values + c.book.recs.Keys <= c.Frame()
    {
      hide Contract.Valid, OrderAllocator.Valid, Contract.Frame, SequenceMerger.Valid, MessageHandler.Recorded;
      forall c | c in contracts.Values
        ensures c.Valid() && {sequencer} + Rings(sequencer.queues) !! c.Frame()
        ensures c.OrdersById in c.Frame() && c.OrdersById.buckets in c.Frame()
        ensures c.Bids in c.Frame() && c.Asks in c.Frame()
        ensures c in c.Frame() && c.OrdersById.contents.Values <= c.book.recs.Keys
        ensures c.Bids.NodeSet() + c.Asks.NodeSet() <= c.Frame() && c.objs.Values + c.book.recs.Keys <= c.Frame()
      {
        var t :| t in contracts && contracts[t] == c;
        assert Filed(t);
        HandlerApart(c);
        c.FrameCovers();
      }
    }

    /** Asks the merger for the next message; the market does not notice. */
    method TakeNext(polled: bool) returns (msg: Option<RawMessage>, panicked: bool)
      requires Valid()
      modifies sequencer`expectedSeq, sequencer`lastAppliedSeq, sequencer`gapsDetected
      modifies set q: Ring | q in sequencer.queues
      ensures allocator.Valid() && sequencer.Valid() && Seeded(rng.state)
      ensures forall c :: c in contracts.Values ==> c.Valid() && c.Frame() == old(c.Frame())
      ensures var t := Mergers.GetNext(old(sequencer.View()), polled);
              && sequencer.View() == t.merger && panicked == t.verdict.Panicked?
              && msg == if t.verdict.Delivered? then Some(t.verdict.msg) else None
    {
      hide Contract.Valid, OrderAllocator.Valid, Contract.Frame, SequenceMerger.Valid, SequenceMerger.View,
        MessageHandler.Filed, MessageHandler.Recorded;
      MergerApart();
      msg, panicked := sequencer.GetNextMessage(polled);
    }

    /** Passes a heartbeat on to the merger; the market does not notice. */
    method PassBeat(msg: RawMessage)
      requires Valid() && msg.msgType == 'Z'
      modifies sequencer`expectedSeq, sequencer`gapsDetected
      ensures allocator.Valid() && sequencer.Valid() && Seeded(rng.state)
      ensures forall c :: c in contracts.Values ==> c.Valid() && c.Frame() == old(c.Frame())
      ensures sequencer.View() == Beat(old(sequencer.View()), msg)
    {
      hide Contract.Valid, OrderAllocator.Valid, Contract.Frame, SequenceMerger.Valid, SequenceMerger.View,
        MessageHandler.Filed, MessageHandler.Recorded, Rings;
      MergerApart();
      if msg.lastSeq.Some? {
        sequencer.UpdateLastSeq(msg.streamId, msg.lastSeq.value);
      }
    }

    lemma FiledNow(frames: map<uint32, set<object>>)
      requires Valid() && frames.Keys == contracts.Keys
      requires forall t :: t in contracts ==> contracts[t].Frame() == frames[t]
      ensures forall t :: t in contracts ==> contracts[t].Token == t && contracts[t] in contracts.Values && Recorded(t)
      ensures forall t, o :: t in contracts && o in frames[t] ==> o in owner && owner[o] == t
      ensures history.Keys == contracts.Keys && feed.Keys == contracts.Keys
    {
      hide Contract.Valid, OrderAllocator.Valid, SequenceMerger.Valid, Contract.Frame, MessageHandler.Recorded;
      assert forall t :: t in contracts ==> Filed(t);
    }

    /** Contracts that the merger's work left alone are filed as before. */
    lemma FiledStill(frames: map<uint32, set<object>>)
      requires allocator.Valid() && sequencer.Valid() && Seeded(rng.state) && frames.Keys == contracts.Keys
      requires forall t :: t in contracts ==>
                 contracts[t].Token == t && contracts[t].Valid() && contracts[t].Frame() == frames[t]
      requires forall t, o :: t in contracts && o in frames[t] ==> o in owner && owner[o] == t
      requires forall t :: t in contracts ==> Recorded(t)
      requires history.Keys == contracts.Keys && feed.Keys == contracts.Keys
      ensures Valid()
    {
      hide Contract.Valid, OrderAllocator.Valid, SequenceMerger.Valid, Contract.Frame, MessageHandler.Recorded;
    }

    lemma BeatNoticed(m: Mergers.Merger, msg: RawMessage)
      ensures Mergers.Noticed(m, msg, Beat(m, msg))
    {
      hide Mergers.Announced, Mergers.UpdateLastSeq;
      if msg.lastSeq.Some? { Mergers.UpdateAnnounces(m, msg.streamId, msg.lastSeq.value); }
    }

    /** Heartbeat messages (Z). */
    method HandleHeartbeat(msg: RawMessage)
      requires Valid() && msg.msgType == 'Z'
      modifies sequencer`expectedSeq, sequencer`gapsDetected
      ensures Valid() && sequencer.View() == Beat(old(sequencer.View()), msg)
      ensures Mergers.Noticed(old(sequencer.View()), msg, sequencer.View())
      ensures forall t: uint32 :: BookOf(t) == old(BookOf(t)) && Reach(Some(t)) == old(Reach(Some(t)))
      ensures forall c :: c in contracts.Values ==> c.Frame() == old(c.Frame())
    {
      hide Contract.Valid, OrderAllocator.Valid, Contract.Frame, SequenceMerger.Valid, SequenceMerger.View, Traced,
        MessageHandler.Filed, MessageHandler.Recorded;
      ghost var frames := map t | t in contracts :: contracts[t].Frame();
      FiledNow(frames);
      BeatNoticed(sequencer.View(), msg);
      PassBeat(msg);
      FiledStill(frames);
    }

    /** Everything the contracts are made of. */
    ghost function MarketReach(): set<object>
      reads *
    {
      set t, o | t in contracts && o in contracts[t].Frame() :: o
    }

    lemma Keyed(f: map<uint32, seq<Act>>, msg: RawMessage)
      requires Valid() && feed == Fed(f, msg)
      ensures forall t :: t in contracts && Some(t) != TokenOf(msg) ==> t in f
      ensures forall t: uint32 :: t in contracts <==> t in f || Addresses(msg, t)
    {
      hide Contract.Valid, OrderAllocator.Valid, SequenceMerger.Valid, MessageHandler.Filed, MessageHandler.Recorded;
    }

    lemma SequencerOutside()
      requires Valid()
      ensures sequencer !in MarketReach()
    {
      hide MessageHandler.Valid, Contract.Valid, Contract.Frame, Rings;
      MergerApart();
    }

    lemma FeedKeys()
      requires Valid()
      ensures feed.Keys == contracts.Keys
    {
    }

    lemma Unaddressed(f: map<uint32, seq<Act>>, m: Mergers.Merger, msg: RawMessage)
      ensures msg.msgType !in ['N', 'M', 'X', 'T', 'C', 'G', 'H', 'J'] ==> TokenOf(msg) == None && Fed(f, msg) == f
      ensures msg.msgType != 'Z' ==> Beat(m, msg) == m
    {
    }

    /** The switch of ProcessMessage. A spread trade and every unknown type do nothing. */
    method Dispatch(msg: RawMessage) returns (ghost steps: seq<Step<Order>>)
      requires Valid()
      modifies this, allocator, allocator.orderPool, rng, Reach(TokenOf(msg))
      modifies sequencer`expectedSeq, sequencer`gapsDetected
      ensures Valid() && feed == Fed(old(feed), msg)
      ensures sequencer.View() == Beat(old(sequencer.View()), msg)
      ensures msg.msgType in ['X', 'J', 'T'] ==> forall t: uint32 :: Addresses(msg, t) ==>
                allocator.orderPool == old(allocator.orderPool) + (old(BookOf(t)).recs.Keys - BookOf(t).recs.Keys)
      ensures forall t: uint32 :: Applied(msg, t, old(BookOf(t)), steps, BookOf(t))
      ensures forall t :: t in old(contracts) && Some(t) != TokenOf(msg) ==>
                && t in contracts && contracts[t] == old(contracts)[t]
                && contracts[t].Frame() == old(contracts[t].Frame())
      ensures forall o :: o in Reach(TokenOf(msg)) ==>
                o in old(Reach(TokenOf(msg))) || o in old(allocator.orderPool) || fresh(o)
      ensures forall o :: o in allocator.orderPool ==>
                o in old(allocator.orderPool) || o in old(Reach(TokenOf(msg))) || fresh(o)
    {
      hide MessageHandler.Valid, SequenceMerger.View, Makes, MessageHandler.BookOf, Contract.Frame, Fed, TokenOf, Beat;
      Unaddressed(feed, sequencer.View(), msg);
      steps := [];
      match msg.msgType
      case 'N' => steps := HandleNewOrder(msg);
      case 'M' => steps := HandleModifyOrder(msg);
      case 'X' => steps := HandleCancelOrder(msg);
      case 'T' => steps := HandleTrade(msg);
      case 'C' => steps := HandleTradeCancel(msg);
      case 'G' => steps := HandleNewOrder(msg);
      case 'H' => steps := HandleModifyOrder(msg);
      case 'J' => steps := HandleCancelOrder(msg);
      case 'Z' => HandleHeartbeat(msg);
      case _ =>
    }

    /** Handles one message: the book of its contract takes the message's acts, every other book stays, and the
        market claims only pooled and new objects. */
    method ProcessMessage(msg: RawMessage) returns (ghost steps: seq<Step<Order>>)
      requires Valid()
      modifies this, allocator, allocator.orderPool, rng, Reach(TokenOf(msg))
      modifies sequencer`expectedSeq, sequencer`gapsDetected
      ensures Valid() && feed == Fed(old(feed), msg)
      ensures sequencer.queues == old(sequencer.queues)
      ensures sequencer.View() == Beat(old(sequencer.View()), msg)
      ensures msg.msgType in ['X', 'J', 'T'] ==> forall t: uint32 :: Addresses(msg, t) ==>
                allocator.orderPool == old(allocator.orderPool) + (old(BookOf(t)).recs.Keys - BookOf(t).recs.Keys)
      ensures forall t: uint32 :: Applied(msg, t, old(BookOf(t)), steps, BookOf(t))
      ensures forall t: uint32 :: Meant(msg, t, old(BookOf(t)), Between(old(BookOf(t)), steps), BookOf(t))
      ensures forall t: uint32 :: t in contracts <==> t in old(contracts) || Addresses(msg, t)
      ensures Mergers.Noticed(old(sequencer.View()), msg, sequencer.View())
      ensures forall o :: o in MarketReach() ==>
                o in old(MarketReach()) || o in old(allocator.orderPool) || fresh(o)
      ensures forall o :: o in allocator.orderPool ==>
                o in old(allocator.orderPool) || o in old(MarketReach()) || fresh(o)
    {
      hide MessageHandler.Valid, SequenceMerger.View, Contract.Frame, Applied, MessageHandler.BookOf, Fed, Beat,
        TokenOf, Meant, Addresses, Between, WellFormed, Mergers.Noticed;
      ghost var f := feed;
      FeedKeys();
      SequencerOutside();
      forall t: uint32 ensures WellFormed(BookOf(t)) { BooksWellFormed(t); }
      BeatNoticed(sequencer.View(), msg);
      steps := Dispatch(msg);
      Keyed(f, msg);
      forall t: uint32 ensures Meant(msg, t, old(BookOf(t)), Between(old(BookOf(t)), steps), BookOf(t)) {
        AppliedMeans(msg, t, old(BookOf(t)), steps, BookOf(t));
      }
    }

    /** Asks the merger for a message: one half of the main loop's body. */
    method NextMessage(polled: bool) returns (msg: Option<RawMessage>, panicked: bool)
      requires Valid()
      modifies sequencer`expectedSeq, sequencer`lastAppliedSeq, sequencer`gapsDetected
      modifies set q: Ring | q in sequencer.queues
      ensures Valid() && forall c :: c in contracts.Values ==> c.Frame() == old(c.Frame())
      ensures var t := Mergers.GetNext(old(sequencer.View()), polled);
              && sequencer.View() == t.merger && panicked == t.verdict.Panicked?
              && msg == if t.verdict.Delivered? then Some(t.verdict.msg) else None
    {
      hide Contract.Valid, OrderAllocator.Valid, Contract.Frame, SequenceMerger.Valid, SequenceMerger.View, Traced,
        Rings, MessageHandler.Filed, MessageHandler.Recorded;
      ghost var frames := map t | t in contracts :: contracts[t].Frame();
      FiledNow(frames);
      msg, panicked := TakeNext(polled);
      FiledStill(frames);
    }

    /** The body of the main loop: the next message, if there is one, is handled. */
    method Iterate(polled: bool) returns (panicked: bool, ghost steps: seq<Step<Order>>)
      requires Valid()
      modifies this, allocator, allocator.orderPool, rng, MarketReach()
      modifies sequencer`expectedSeq, sequencer`lastAppliedSeq, sequencer`gapsDetected
      modifies set q: Ring | q in sequencer.queues
      ensures Valid() && sequencer.queues == old(sequencer.queues)
      ensures var t := Mergers.GetNext(old(sequencer.View()), polled);
              && panicked == t.verdict.Panicked?
              && feed == (if t.verdict.Delivered? then Fed(old(feed), t.verdict.msg) else old(feed))
              && sequencer.View() == (if t.verdict.Delivered? then Beat(t.merger, t.verdict.msg) else t.merger)
              && forall token: uint32 ::
                   if t.verdict.Delivered? then Applied(t.verdict.msg, token, old(BookOf(token)), steps, BookOf(token))
                   else BookOf(token) == old(BookOf(token))
      ensures forall o :: o in MarketReach() ==>
                o in old(MarketReach()) || o in old(allocator.orderPool) || fresh(o)
      ensures forall o :: o in allocator.orderPool ==>
                o in old(allocator.orderPool) || o in old(MarketReach()) || fresh(o)
    {
      hide MessageHandler.Valid, SequenceMerger.View, Contract.Frame, Applied, MessageHandler.BookOf, Fed;
      var msg;
      steps := [];
      msg, panicked := NextMessage(polled);
      if msg.Some? { steps := ProcessMessage(msg.value); }
    }

    /** processLoop, as many turns as there are clock flags, or up to a panic: the book of any token takes, in order,
        the acts of the messages delivered to it. */
    method ProcessLoop(polls: seq<bool>, ghost token: uint32)
      returns (panicked: bool, ghost delivered: seq<RawMessage>, ghost steps: seq<Step<Order>>)
      requires Valid()
      modifies this, allocator, allocator.orderPool, rng, MarketReach()
      modifies sequencer`expectedSeq, sequencer`lastAppliedSeq, sequencer`gapsDetected
      modifies set q: Ring | q in sequencer.queues
      ensures Valid() && Stretch(sequencer.View(), delivered, panicked) == Turns(old(sequencer.View()), polls)
      ensures feed == FedAll(old(feed), delivered)
      ensures Makes(old(BookOf(token)), steps, ActsForAll(delivered, token), BookOf(token))
    {
      hide MessageHandler.Valid, SequenceMerger.View, Contract.Frame, Makes, MessageHandler.BookOf, Fed, Beat, TokenOf,
        MessageHandler.MarketReach, Mergers.GetNext;
      ghost var m, f, b := sequencer.View(), feed, BookOf(token);
      panicked, delivered, steps := false, [], [];
      MakesNothing(b);
      var i := 0;
      while i < |polls| && !panicked
        invariant i <= |polls| && Valid() && sequencer.queues == old(sequencer.queues)
        invariant Stretch(sequencer.View(), delivered, panicked) == Turns(m, polls[..i])
        invariant feed == FedAll(f, delivered) && Makes(b, steps, ActsForAll(delivered, token), BookOf(token))
        invariant forall o :: o in MarketReach() ==>
                    o in old(MarketReach()) || o in old(allocator.orderPool) || fresh(o)
        invariant forall o :: o in allocator.orderPool ==>
                    o in old(allocator.orderPool) || o in old(MarketReach()) || fresh(o)
      {
        ghost var c, before := BookOf(token), delivered;
        ghost var t := Mergers.GetNext(sequencer.View(), polls[i]);
        ghost var more;
        panicked, more := Iterate(polls[i]);
        assert polls[..i + 1][..i] == polls[..i];
        if t.verdict.Delivered? {
          delivered := before + [t.verdict.msg];
          assert delivered[..|before|] == before;
          AppliedNext(b, steps, before, token, c, t.verdict.msg, more, BookOf(token));
          if TokenOf(t.verdict.msg) == Some(token) { steps := steps + more; }
        }
        i := i + 1;
      }
      assert polls[..|polls|] == polls;
      if panicked { PanicLasts(m, polls, i); }
    }

    // ---- What holds of every handler, whatever messages it has been given ----

    /** No pooled order is linked in any level or found by any id. */
    lemma PoolSafe(token: uint32, o: Order)
      requires Valid() && token in contracts && o in allocator.orderPool
      ensures o !in contracts[token].book.recs && o !in contracts[token].OrdersById.contents.Values
      ensures o !in contracts[token].Frame()
    {
      hide Contract.Wired, WellFormed, Contract.IndexMatches, SequenceMerger.Valid, Contract.Frame,
        MessageHandler.Recorded;
      assert Filed(token);
      contracts[token].PoolApart(allocator);
      contracts[token].FramePoolApart(allocator, rng);
    }

    /** Every tree of every contract stays at height one or less: the generator only ever gives 0 and 1. */
    lemma TreesStayLow(token: uint32)
      requires Valid() && token in contracts
      ensures contracts[token].Bids.maxLevel <= 1 && contracts[token].Asks.maxLevel <= 1 && Seeded(rng.state)
    {
      hide PriceTree.Sound, PriceTree.Owned, SequenceMerger.Valid, OrderAllocator.Valid, MessageHandler.Recorded;
      assert Filed(token);
    }

    /** The code refines the abstract book. Throughout the life of a contract its trees, lists and index have held
        exactly the abstract book that its messages describe, if and only if the messages brought new ids, the
        buckets had room and no quantity overflowed; so they do now. */
    lemma BookRefined(token: uint32)
      requires Valid() && token in contracts
      ensures token in history && token in feed
      ensures SmoothRun(NoOrders(), BUCKET_MASK, feed[token])
         <==> AlwaysAgrees(Empty(BUCKET_MASK), history[token], NoOrders())
      ensures SmoothRun(NoOrders(), BUCKET_MASK, feed[token]) ==>
                Abstract(contracts[token].book) == SimpleRun(NoOrders(), feed[token]) && Clean(contracts[token].book)
    {
      hide Contract.Valid, OrderAllocator.Valid, SequenceMerger.Valid, SmoothRun, SimpleRun, Abstract, Clean, Run,
        AlwaysAgrees;
      assert Recorded(token);
      EmptyWellFormed<Order>(BUCKET_MASK);
      EmptyAbstract<Order>(BUCKET_MASK);
      RunRefines(Empty<Order>(BUCKET_MASK), history[token], feed[token]);
      if SmoothRun(NoOrders(), BUCKET_MASK, feed[token]) {
        AgreesAtEnd(Empty<Order>(BUCKET_MASK), history[token], feed[token], NoOrders());
      }
    }

    /** Every linked order is the one its id finds, if and only if the messages brought new ids and the buckets had
        room, whatever the quantities. */
    lemma NoOrphans(token: uint32)
      requires Valid() && token in contracts
      ensures token in feed && (Clean(contracts[token].book) <==> TidyFeed(map[], BUCKET_MASK, feed[token]))
    {
      hide Contract.Valid, OrderAllocator.Valid, SequenceMerger.Valid, TidyFeed, Abstract, Clean, Run, View;
      assert Recorded(token);
      EmptyWellFormed<Order>(BUCKET_MASK);
      EmptyAbstract<Order>(BUCKET_MASK);
      EmptyShort<Order>(BUCKET_MASK);
      RunClean(Empty<Order>(BUCKET_MASK), history[token], feed[token]);
    }

    /** Whatever the messages, what the index knows is what they say: side, price and quantity by id. */
    lemma IndexKnown(token: uint32)
      requires Valid() && token in contracts
      ensures View(contracts[token].book) == ViewRun(map[], BUCKET_MASK, feed[token])
    {
      hide Contract.Valid, OrderAllocator.Valid, SequenceMerger.Valid, View, ViewRun, Run;
      assert Recorded(token);
      EmptyWellFormed<Order>(BUCKET_MASK);
      EmptyShort<Order>(BUCKET_MASK);
      RunView(Empty<Order>(BUCKET_MASK), history[token], feed[token]);
    }

    /** Quantity is conserved as long as the int32 arithmetic of the messages does not overflow: every level
        total is the sum of its orders, and the total of all levels is what the messages added less what
        they took. */
    lemma QuantityConserved(token: uint32)
      requires Valid() && token in contracts
      requires |feed[token]| <= RUN_LIMIT && FeedFits(map[], BUCKET_MASK, feed[token])
      ensures Exact(contracts[token].book)
      ensures GrandTotal(contracts[token].book) == FeedFlow(map[], BUCKET_MASK, feed[token])
    {
      hide Contract.Valid, OrderAllocator.Valid, SequenceMerger.Valid, FeedFits, FeedFlow, Run, Exact, GrandTotal;
      assert Recorded(token);
      FeedConserves(BUCKET_MASK, history[token], feed[token]);
    }

    /** No queue is longer than the feed, so a feed of fewer than 2^31 acts leaves every level with its exact count
        and list. */
    lemma LevelCounts(token: uint32, key: Key)
      requires Valid() && token in contracts && token in feed && |feed[token]| < RUN_LIMIT
      requires key.price in contracts[token].Tree(key.buy).Levels()
      ensures var level, fifo := contracts[token].Tree(key.buy).Levels()[key.price], Fifo(contracts[token].book, key);
              Linked(level, fifo) && level.OrderCount == |fifo| <= |feed[token]|
    {
      hide Contract.Valid, OrderAllocator.Valid, SequenceMerger.Valid, Run, Linked;
      QueuesShort(token);
      assert contracts[token].Valid() by { assert Filed(token); }
      contracts[token].LevelIsList(key);
    }

    lemma QueuesShort(token: uint32)
      requires Valid() && token in contracts
      ensures WellFormed(contracts[token].book)
      ensures token in feed && ShortQueues(contracts[token].book, |feed[token]|)
    {
      hide Contract.Valid, OrderAllocator.Valid, SequenceMerger.Valid, Run, ShortQueues, WellFormed;
      assert Recorded(token);
      EmptyWellFormed<Order>(BUCKET_MASK);
      EmptyShort<Order>(BUCKET_MASK);
      RunWellFormed(Empty<Order>(BUCKET_MASK), history[token]);
      RunShort(Empty<Order>(BUCKET_MASK), history[token], 0);
    }

    /** With such messages a fill of q on a resting Q lowers the total of its level by exactly min(q, Q), if and only
        if the difference fits; and no other level's. */
    lemma FillsTakeMin(token: uint32, id: uint64, qty: int32)
      requires Valid() && token in contracts && token in feed
      requires |feed[token]| < RUN_LIMIT && FeedFits(map[], BUCKET_MASK, feed[token])
      requires id != 0 && id in contracts[token].book.index
      ensures var b := contracts[token].book;
              && b.index[id] in b.recs
              && var r, c := b.recs[b.index[id]], Fill(b, id, qty);
              && (TotalAt(c, KeyOf(r)) == TotalAt(b, KeyOf(r)) - Min(r.qty, qty) <==> Fits32(r.qty - qty))
              && (forall key :: key != KeyOf(r) ==> TotalAt(c, key) == TotalAt(b, key))
    {
      hide Contract.Valid, OrderAllocator.Valid, SequenceMerger.Valid, FeedFits, Exact, GrandTotal, Fill, ShortQueues,
        TotalAt, Placed, Totalled, Bucketed, MessageHandler.Valid;
      QuantityConserved(token);
      QueuesShort(token);
      var b := contracts[token].book;
      FillTakesMin(b, id, qty);
      if Fits32(b.recs[b.index[id]].qty - qty) { FillFitsShort(b, id, qty, |feed[token]|); }
    }

    /** Messages without negative quantities leave no negative order, so that every fill of theirs fits. */
    lemma NeverNegative(token: uint32)
      requires Valid() && token in contracts && token in feed
      requires FeedFits(map[], BUCKET_MASK, feed[token]) && MildFeed(feed[token])
      ensures NonNegative(contracts[token].book)
    {
      hide Contract.Valid, OrderAllocator.Valid, SequenceMerger.Valid, FeedFits, MildFeed, Run, View;
      assert Recorded(token);
      EmptyWellFormed<Order>(BUCKET_MASK);
      EmptyShort<Order>(BUCKET_MASK);
      EmptyNonNegative<Order>(BUCKET_MASK);
      RunNonNegative(Empty<Order>(BUCKET_MASK), history[token], feed[token]);
    }

    /** What validity says of one contract and of the pool. */
    lemma Stands(token: uint32)
      requires Valid() && token in contracts
      ensures contracts[token].Valid() && contracts[token].Token == token && BookOf(token) == contracts[token].book
      ensures contracts[token].OrdersById.contents == contracts[token].book.index
      ensures forall o :: o in allocator.orderPool ==> o.PriceLevel == null
    {
      hide Contract.Wired, WellFormed, OrderMap.Valid, SequenceMerger.Valid, MessageHandler.Recorded;
      assert Filed(token);
    }

    /** Every token's book is well formed, the empty one of an unknown token too. */
    lemma BooksWellFormed(token: uint32)
      requires Valid()
      ensures WellFormed(BookOf(token))
    {
      hide Contract.Valid, OrderAllocator.Valid, SequenceMerger.Valid, WellFormed;
      EmptyWellFormed<Order>(BUCKET_MASK);
      if token in contracts { QueuesShort(token); }
    }
  }
}
