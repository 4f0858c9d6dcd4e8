/** Messages as steps of the book, and runs of steps (internal/orderbook/message_handler.go).

    A trade is two fills and a trade cancel two restores, so each message is a short list of acts.
    Each act comes with the object the allocator handed out for it, if it needed one. */
module Actions {
  import opened Core
  import opened Sequences
  import opened Books
  import opened BookInvariants

  datatype Act =
    | Add(r: Rec)                       // N, G
    | Revise(r: Rec)                    // M, H
    | Drop(id: uint64)                  // X, J
    | Take(id: uint64, quantity: int32) // one leg of T
    | Return(r: Rec)                    // one leg of C

  datatype Step<K> = Step(act: Act, h: Option<K>)

  function RecOf(m: OrderMessage): Rec {
    Rec(m.orderId, m.side, m.price, m.quantity)
  }

  /** The contract a message addresses; None when it touches no contract. */
  function TokenOf(msg: RawMessage): Option<uint32> {
    match msg.msgType
    case 'N' | 'G' | 'M' | 'H' | 'X' | 'J' => if msg.order.Some? then Some(msg.order.value.token) else None
    case 'T' | 'C' => if msg.trade.Some? then Some(msg.trade.value.token) else None
    case _ => None
  }

  /** What a message does to its contract's book. A spread trade 'K' has no case and does nothing. */
  function ActsOf(msg: RawMessage): seq<Act>
    requires TokenOf(msg).Some?
  {
    match msg.msgType
    case 'N' | 'G' => [Add(RecOf(msg.order.value))]
    case 'M' | 'H' => [Revise(RecOf(msg.order.value))]
    case 'X' | 'J' => [Drop(msg.order.value.orderId)]
    case 'T' =>
      var t := msg.trade.value;
      [Take(t.buyId, t.quantity), Take(t.sellId, t.quantity)]
    case _ =>
      var t := msg.trade.value;
      [Return(Leg(t.buyId, SIDE_BUY, t)), Return(Leg(t.sellId, SIDE_SELL, t))]
  }

  /** Acts for which the source allocates an order. */
  ghost predicate Allocates<K>(b: Book<K>, a: Act) {
    match a
    case Add(_) => true
    case Revise(r) => r.id !in b.index
    case Return(r) => r.id != 0 && r.id !in b.index
    case _ => false
  }

  /** The allocator serves exactly the acts that need an order, with one that is in no level. */
  ghost predicate Served<K>(b: Book<K>, s: Step<K>) {
    (s.h.Some? <==> Allocates(b, s.act)) && Unused(b, s.h)
  }

  ghost function Apply<K>(b: Book<K>, s: Step<K>): Book<K> {
    match s.act
    case Add(r) => AdmitAs(b, s.h, r)
    case Revise(r) => Modify(b, s.h, r)
    case Drop(id) => Cancel(b, id)
    case Take(id, quantity) => Fill(b, id, quantity)
    case Return(r) => Restore(b, s.h, r)
  }

  ghost function Run<K>(b: Book<K>, steps: seq<Step<K>>): Book<K>
    decreases |steps|
  {
    if steps == [] then b else Run(Apply(b, steps[0]), steps[1..])
  }

  ghost predicate ServedAll<K>(b: Book<K>, steps: seq<Step<K>>)
    decreases |steps|
  {
    steps == [] || (Served(b, steps[0]) && ServedAll(Apply(b, steps[0]), steps[1..]))
  }

  /** The steps carry out the acts, in order. */
  ghost predicate Enacts<K>(steps: seq<Step<K>>, acts: seq<Act>) {
    |steps| == |acts| && forall i :: 0 <= i < |acts| ==> steps[i].act == acts[i]
  }

  lemma ApplyWellFormed<K>(b: Book<K>, s: Step<K>)
    requires WellFormed(b) && Unused(b, s.h)
    ensures WellFormed(Apply(b, s))
  {
    hide WellFormed, Admit, Modify, Cancel, Fill, Restore;
    match s.act
    case Add(r) => if s.h.Some? { AdmitWellFormed(b, s.h.value, r); }
    case Revise(r) => ModifyWellFormed(b, s.h, r);
    case Drop(id) => CancelWellFormed(b, id);
    case Take(id, quantity) => FillWellFormed(b, id, quantity);
    case Return(r) => RestoreWellFormed(b, s.h, r);
  }

  lemma CancelWellFormed<K>(b: Book<K>, id: uint64)
    requires WellFormed(b)
    ensures WellFormed(Cancel(b, id))
  {
    hide WellFormed, TakeOut;
    TakeOutWellFormed(b, id);
  }

  /** Whatever ids arrive, whichever Puts fail and whatever the allocator does, the book stays well
      formed: every linked order sits once in the level its side and price name, and every order the
      index finds is linked under that id. */
  lemma {:induction false} RunWellFormed<K>(b: Book<K>, steps: seq<Step<K>>)
    requires WellFormed(b) && ServedAll(b, steps)
    ensures WellFormed(Run(b, steps))
    decreases |steps|
  {
    hide WellFormed, Apply;
    if steps != [] {
      ApplyWellFormed(b, steps[0]);
      RunWellFormed(Apply(b, steps[0]), steps[1..]);
    }
  }

  lemma {:induction false} RunConcat<K>(b: Book<K>, s: seq<Step<K>>, t: seq<Step<K>>)
    ensures Run(b, s + t) == Run(Run(b, s), t)
    ensures ServedAll(b, s + t) <==> ServedAll(b, s) && ServedAll(Run(b, s), t)
    decreases |s|
  {
    hide Apply, Served;
    if s == [] {
      assert s + t == t;
    } else {
      assert (s + t)[0] == s[0] && (s + t)[1..] == s[1..] + t;
      RunConcat(Apply(b, s[0]), s[1..], t);
    }
  }

  ghost function IdNamed(a: Act): uint64 {
    match a
    case Add(r) => r.id
    case Revise(r) => r.id
    case Drop(id) => id
    case Take(id, _) => id
    case Return(r) => r.id
  }

  /** A step reaches only the order it names. */
  lemma OthersUntouched<K>(b: Book<K>, s: Step<K>, k: K)
    requires WellFormed(b) && Unused(b, s.h) && k in b.recs && b.recs[k].id != IdNamed(s.act)
    ensures k in Apply(b, s).recs && Apply(b, s).recs[k] == b.recs[k]
    ensures forall id :: id != IdNamed(s.act) ==> (id in Apply(b, s).index <==> id in b.index)
    ensures forall id :: id != IdNamed(s.act) && id in b.index ==> Apply(b, s).index[id] == b.index[id]
  {
    hide Placed, Totalled, Bucketed, CanPut, LevelAt, Without, Wrap32, Wrap64;
  }

  /** A queue stays as it is, loses one order, or gains one at its tail. */
  ghost predicate InTurn<K>(f: seq<K>, g: seq<K>) {
    || g == f
    || (exists o :: o in f && g == Without(f, o))
    || (|g| == |f| + 1 && g == f + [g[|f|]] && g[|f|] !in f)
  }

  lemma AdmitInTurn<K>(b: Book<K>, k: K, r: Rec, key: Key)
    requires Placed(b) && k !in b.recs
    ensures InTurn(Fifo(b, key), Fifo(Admit(b, k, r), key))
  {
    hide Placed, HasRoom, Wrap64;
    PlacedAt(b);
  }

  lemma ReviseInTurn<K>(b: Book<K>, k: K, price: int32, qty: int32, key: Key)
    requires Placed(b) && k in b.recs
    ensures InTurn(Fifo(b, key), Fifo(Requantify(Reprice(b, k, price), k, qty), key))
  {
    hide Placed, Wrap32, Wrap64;
    PlacedAt(b);
  }

  lemma FillInTurn<K>(b: Book<K>, id: uint64, qty: int32, key: Key)
    requires Placed(b) && Indexed(b)
    ensures InTurn(Fifo(b, key), Fifo(Fill(b, id, qty), key)) && InTurn(Fifo(b, key), Fifo(Cancel(b, id), key))
  {
    hide Placed, Wrap32, Wrap64;
    PlacedAt(b);
  }

  lemma SetQtyQueue<K>(b: Book<K>, k: K, qty: int32, delta: int, key: Key)
    ensures Fifo(SetQty(b, k, qty, delta), key) == Fifo(b, key)
  {
  }

  /** First come, first served: no step lets an order overtake another in its level. */
  lemma QueueDiscipline<K>(b: Book<K>, s: Step<K>, key: Key)
    requires WellFormed(b) && Unused(b, s.h)
    ensures InTurn(Fifo(b, key), Fifo(Apply(b, s), key))
  {
    hide Placed, Totalled, Bucketed, Admit, InTurn, Fifo, Fill, Cancel, Requantify, Reprice, SetQty;
    match s.act
    case Add(r) => if s.h.Some? { AdmitInTurn(b, s.h.value, r, key); } else { Unturned(Fifo(b, key)); }
    case Revise(r) =>
      if r.id in b.index { ReviseInTurn(b, b.index[r.id], r.price, r.qty, key); }
      else if s.h.Some? { AdmitInTurn(b, s.h.value, r, key); }
      else { Unturned(Fifo(b, key)); }
    case Drop(id) => FillInTurn(b, id, 0, key);
    case Take(id, quantity) => FillInTurn(b, id, quantity, key);
    case Return(r) =>
      Unturned(Fifo(b, key));
      if r.id != 0 {
        if r.id in b.index {
          SetQtyQueue(b, b.index[r.id], Wrap32(b.recs[b.index[r.id]].qty + r.qty), r.qty, key);
        } else if s.h.Some? { AdmitInTurn(b, s.h.value, r, key); }
      }
  }

  lemma Unturned<K>(f: seq<K>)
    ensures InTurn(f, f)
  {
  }

  lemma PlacedAt<K>(b: Book<K>)
    requires Placed(b)
    ensures forall k :: k in b.recs ==> k in Fifo(b, KeyOf(b.recs[k]))
    ensures forall key, k :: k in Fifo(b, key) ==> k in b.recs && KeyOf(b.recs[k]) == key
  {
  }

  /** Taking a level out of a tree, as PriceTree.Remove does without looking, keeps the book placed
      exactly when the level is empty. */
  lemma RemoveLevelPlaced<K>(b: Book<K>, key: Key)
    requires Placed(b)
    ensures Placed(b.(levels := b.levels - {key})) <==> Fifo(b, key) == []
  {
    var c := b.(levels := b.levels - {key});
    assert forall k :: k != key ==> Fifo(c, k) == Fifo(b, k);
    if Fifo(b, key) != [] {
      var o := Fifo(b, key)[0];
      assert o in Fifo(b, key);
      assert KeyOf(c.recs[o]) == key && o !in Fifo(c, key);
    }
  }

  lemma RemoveLevelWellFormed<K>(b: Book<K>, key: Key)
    requires WellFormed(b) && Fifo(b, key) == []
    ensures WellFormed(b.(levels := b.levels - {key}))
  {
    hide Placed, Bucketed;
    var c := b.(levels := b.levels - {key});
    assert Bucketed(c) by { BucketedSame(b, c); }
    RemoveLevelPlaced(b, key);
    forall k ensures Congruent32(LevelAt(c, k).total, QtyAt(c, k)) {
      if k == key { CongruentSelf(0); } else { assert LevelAt(c, k) == LevelAt(b, k) && QtyAt(c, k) == QtyAt(b, k); }
    }
  }

  // ---- What a modification means ----

  /** Section 6.1 of the NSE MTBT API Specification 6.7: modifying an unknown order adds it, and cancelling one
      does nothing. */
  lemma UnknownRules<K>(b: Book<K>, r: Rec, h: Option<K>)
    requires r.id !in b.index
    ensures Apply(b, Step(Revise(r), h)) == Apply(b, Step(Add(r), h))
    ensures Apply(b, Step(Drop(r.id), None)) == b
  {
  }

  /** A modification at the same price keeps every queue as it is; one at another price leaves the old queue and
      joins the tail of the new one, on the order's own side. */
  lemma ReviseRules<K>(b: Book<K>, r: Rec, h: Option<K>)
    requires WellFormed(b) && r.id in b.index
    ensures var k, c := b.index[r.id], Apply(b, Step(Revise(r), h));
            var was, now := b.recs[k], b.recs[k].(price := r.price, qty := r.qty);
            && c.index == b.index && c.recs == b.recs[k := now]
            && (was.price == r.price ==> forall key :: Fifo(c, key) == Fifo(b, key))
            && (was.price != r.price ==>
                  && Fifo(c, KeyOf(now)) == Fifo(b, KeyOf(now)) + [k]
                  && Fifo(c, KeyOf(was)) == Without(Fifo(b, KeyOf(was)), k)
                  && forall key :: key != KeyOf(was) && key != KeyOf(now) ==> Fifo(c, key) == Fifo(b, key))
  {
    hide Placed, Totalled, Bucketed, HasRoom, Wrap32, Wrap64;
  }
}
