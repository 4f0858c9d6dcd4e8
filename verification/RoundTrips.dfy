/** A trade followed by the cancellation of the same trade. */
module RoundTrips {
  import opened Core
  import opened Sequences
  import opened Books
  import opened BookInvariants
  import opened Actions
  import opened Views
  import opened Outcomes
  import opened Totals

  ghost predicate CancelServed<K>(b: Book<K>, h1: Option<K>, h2: Option<K>, t: TradeMessage) {
    var leg := Leg(t.buyId, SIDE_BUY, t);
    && Served(b, Step(Return(leg), h1))
    && Served(Restore(b, h1, leg), Step(Return(Leg(t.sellId, SIDE_SELL, t)), h2))
  }

  ghost function Cancelled<K>(b: Book<K>, h1: Option<K>, h2: Option<K>, t: TradeMessage): Book<K> {
    TradeCancel(Trade(b, t.buyId, t.sellId, t.quantity), h1, h2, t)
  }

  /** A fill leaves something of the quantity, by the handler's own test. */
  predicate Survives(qty: int, t: TradeMessage) {
    Wrap32(qty - t.quantity) > 0
  }

  // ---- The conditions, all checkable before the trade ----

  /** The trade cancel can know an order only by the trade message: a fully filled order comes back as it was
      exactly when that message carries its side, price and quantity, and an order the book never held
      must not be named. */
  ghost predicate LegReturns<K>(b: Book<K>, id: uint64, side: uint8, t: TradeMessage)
    requires Indexed(b)
  {
    id == 0 ||
    (id in b.index &&
      var r := b.recs[b.index[id]];
      Survives(r.qty, t) || (r.side == side && r.price == t.price && r.qty == t.quantity))
  }

  /** Both legs name one order: it survives both fills, or comes back as a buy of twice the quantity. */
  ghost predicate TwiceReturns<K>(b: Book<K>, t: TradeMessage)
    requires Indexed(b)
  {
    t.buyId in b.index &&
    var r := b.recs[b.index[t.buyId]];
    || (Survives(r.qty, t) && Survives(Wrap32(r.qty - t.quantity), t))
    || (r.side == SIDE_BUY && r.price == t.price && r.qty == Wrap32(t.quantity + t.quantity))
  }

  ghost predicate Returns<K>(b: Book<K>, t: TradeMessage)
    requires Indexed(b)
  {
    if t.buyId == t.sellId && t.buyId != 0 then TwiceReturns(b, t)
    else LegReturns(b, t.buyId, SIDE_BUY, t) && LegReturns(b, t.sellId, SIDE_SELL, t)
  }

  /** Same ids with the same side, price and quantity; same total and as many orders at every level. */
  ghost predicate SameBook<K>(b: Book<K>, c: Book<K>) {
    && View(c) == View(b)
    && forall key :: TotalAt(c, key) == TotalAt(b, key) && |Fifo(c, key)| == |Fifo(b, key)|
  }

  // ---- Ids, sides, prices and quantities ----

  lemma UnwrapSum(x: int32, q: int32)
    ensures Wrap32(Wrap32(x - q) + q) == x
  {
    var d := Wrap32Class(x - q);
    var e := Wrap32Class(Wrap32(x - q) + q);
  }

  /** The view after the trade and its cancellation. */
  ghost function CancelledEntries(v: map<uint64, Entry>, mask: nat, t: TradeMessage): map<uint64, Entry> {
    Restored(Restored(Filled(Filled(v, t.buyId, t.quantity), t.sellId, t.quantity),
                      mask, Leg(t.buyId, SIDE_BUY, t)),
             mask, Leg(t.sellId, SIDE_SELL, t))
  }

  lemma RestoreView<K>(b: Book<K>, h: Option<K>, r: Rec)
    requires Indexed(b) && Served(b, Step(Return(r), h))
    ensures View(Restore(b, h, r)) == Restored(View(b), b.mask, r) && Restore(b, h, r).mask == b.mask
  {
    hide View, Restored, Restore;
    StepView(b, Step(Return(r), h));
    ApplyMask(b, Step(Return(r), h));
  }

  lemma FillMask<K>(b: Book<K>, id: uint64, q: int32)
    ensures Fill(b, id, q).mask == b.mask
  {
    hide Fill;
    ApplyMask(b, Step(Take(id, q), None));
  }

  lemma CancelledView<K>(b: Book<K>, h1: Option<K>, h2: Option<K>, t: TradeMessage)
    requires WellFormed(b) && CancelServed(Trade(b, t.buyId, t.sellId, t.quantity), h1, h2, t)
    ensures View(Cancelled(b, h1, h2, t)) == CancelledEntries(View(b), b.mask, t)
    ensures Bounded(View(b), b.mask) && forall id :: id in View(b) ==> Fits32(View(b)[id].qty)
  {
    hide Placed, Totalled, Bucketed, Fill, Restore, View, Filled, Restored;
    var q := t.quantity;
    var b1 := Fill(b, t.buyId, q);
    var b2 := Fill(b1, t.sellId, q);
    var buy := Leg(t.buyId, SIDE_BUY, t);
    FillWellFormed(b, t.buyId, q);
    FillWellFormed(b1, t.sellId, q);
    RestoreWellFormed(b2, h1, buy);
    FillView(b, t.buyId, q);
    FillView(b1, t.sellId, q);
    FillMask(b, t.buyId, q);
    FillMask(b1, t.sellId, q);
    RestoreView(b2, h1, buy);
    RestoreView(Restore(b2, h1, buy), h2, Leg(t.sellId, SIDE_SELL, t));
    ViewBounded(b);
    ViewKeys(b);
  }

  /** Known orders that survive, or that the message describes, are known again as before. */
  lemma EntriesReturn(v: map<uint64, Entry>, mask: nat, t: TradeMessage)
    requires Bounded(v, mask) && (forall id :: id in v ==> Fits32(v[id].qty)) && (t.buyId == t.sellId ==> t.buyId == 0)
    requires t.buyId == 0
      || (t.buyId in v && (Survives(v[t.buyId].qty, t) || v[t.buyId] == EntryOf(Leg(t.buyId, SIDE_BUY, t))))
    requires t.sellId == 0
      || (t.sellId in v && (Survives(v[t.sellId].qty, t) || v[t.sellId] == EntryOf(Leg(t.sellId, SIDE_SELL, t))))
    ensures CancelledEntries(v, mask, t) == v
  {
    hide Wrap32, HasRoom, Bounded;
    var v2 := Filled(Filled(v, t.buyId, t.quantity), t.sellId, t.quantity);
    if t.buyId != 0 {
      UnwrapSum(v[t.buyId].qty, t.quantity);
      RoomBack(v, v2, mask, t.buyId);
    }
    if t.sellId != 0 {
      UnwrapSum(v[t.sellId].qty, t.quantity);
      RoomBack(v, Restored(v2, mask, Leg(t.buyId, SIDE_BUY, t)), mask, t.sellId);
    }
  }

  /** A fully filled buy order is recreated in the form the message gives it: its bucket has room. */
  lemma BuyRecreated(v: map<uint64, Entry>, mask: nat, t: TradeMessage)
    requires Bounded(v, mask) && t.buyId != t.sellId && t.buyId != 0 && t.buyId in v && !Survives(v[t.buyId].qty, t)
    ensures t.buyId in CancelledEntries(v, mask, t)
    ensures CancelledEntries(v, mask, t)[t.buyId] == EntryOf(Leg(t.buyId, SIDE_BUY, t))
  {
    hide Wrap32, HasRoom, Bounded;
    RoomBack(v, Filled(Filled(v, t.buyId, t.quantity), t.sellId, t.quantity), mask, t.buyId);
  }

  /** So is a fully filled sell order, unless the buy leg has brought in an id that was not there. */
  lemma SellRecreated(v: map<uint64, Entry>, mask: nat, t: TradeMessage)
    requires Bounded(v, mask) && t.buyId != t.sellId && t.sellId != 0 && t.sellId in v && !Survives(v[t.sellId].qty, t)
    requires CancelledEntries(v, mask, t).Keys == v.Keys
    ensures CancelledEntries(v, mask, t)[t.sellId] == EntryOf(Leg(t.sellId, SIDE_SELL, t))
  {
    hide Wrap32, HasRoom, Bounded;
    var v2 := Filled(Filled(v, t.buyId, t.quantity), t.sellId, t.quantity);
    var v3 := Restored(v2, mask, Leg(t.buyId, SIDE_BUY, t));
    assert v3.Keys <= CancelledEntries(v, mask, t).Keys;
    RoomBack(v, v3, mask, t.sellId);
  }

  // ---- Levels ----

  ghost predicate FilledAt<K>(b: Book<K>, id: uint64, t: TradeMessage, key: Key)
    requires Indexed(b)
  {
    && id != 0 && id in b.index && KeyOf(b.recs[b.index[id]]) == key
    && !Survives(b.recs[b.index[id]].qty, t)
  }

  /** The cancel has to make an order for the leg: the old one is filled up, or there never was one. */
  ghost predicate Recreated<K>(b: Book<K>, id: uint64, t: TradeMessage)
    requires Indexed(b)
  {
    id != 0 && !(id in b.index && Survives(b.recs[b.index[id]].qty, t))
  }

  /** What one leg of the trade takes from a level: what is left of a filled order goes with it. */
  ghost function Lost<K>(b: Book<K>, id: uint64, t: TradeMessage, key: Key): int
    requires Indexed(b)
  {
    if id == 0 || id !in b.index || KeyOf(b.recs[b.index[id]]) != key then 0
    else if Survives(b.recs[b.index[id]].qty, t) then t.quantity
    else t.quantity + Wrap32(b.recs[b.index[id]].qty - t.quantity)
  }

  /** What one leg of the cancel adds to a level. */
  ghost function Gained<K>(b: Book<K>, id: uint64, side: uint8, t: TradeMessage, key: Key): int
    requires Indexed(b)
  {
    if id == 0 then 0
    else if Recreated(b, id, t) then if KeyOf(Leg(id, side, t)) == key then t.quantity else 0
    else if KeyOf(b.recs[b.index[id]]) == key then t.quantity else 0
  }

  /** A queue without the order that a leg filled up. */
  ghost function Kept<K>(b: Book<K>, fifo: seq<K>, id: uint64, t: TradeMessage, key: Key): seq<K>
    requires Indexed(b)
  {
    if FilledAt(b, id, t, key) then Without(fifo, b.index[id]) else fifo
  }

  /** The order a leg of the cancel puts at the tail. */
  ghost function Rejoining<K>(b: Book<K>, id: uint64, side: uint8, h: Option<K>, t: TradeMessage, key: Key): seq<K>
    requires Indexed(b)
  {
    if Recreated(b, id, t) && KeyOf(Leg(id, side, t)) == key && h.Some? then [h.value] else []
  }

  lemma FillLeg<K>(b: Book<K>, id: uint64, t: TradeMessage, key: Key)
    requires WellFormed(b)
    ensures var c := Fill(b, id, t.quantity);
            && TotalAt(c, key) == Wrap64(TotalAt(b, key) - Lost(b, id, t, key))
            && Fifo(c, key) == Kept(b, Fifo(b, key), id, t, key)
  {
    hide Placed, Totalled, Bucketed, Wrap32, Fill, QtyAt, Wrap64;
    if id != 0 && id in b.index {
      FillEffect(b, id, t.quantity);
      FillQueue(b, id, t.quantity, key);
    } else {
      FillIdle(b, id, t.quantity);
    }
    Wrap64Is(TotalAt(b, key), TotalAt(b, key), 0);
  }

  lemma FillQueue<K>(b: Book<K>, id: uint64, q: int32, key: Key)
    requires WellFormed(b) && id in b.index && id != 0
    ensures var k := b.index[id];
            Fifo(Fill(b, id, q), key)
              == if Wrap32(b.recs[k].qty - q) <= 0 && KeyOf(b.recs[k]) == key
                 then Without(Fifo(b, key), k) else Fifo(b, key)
  {
    hide Placed, Totalled, Bucketed, Wrap32, Wrap64;
  }

  /** Where the trade left the order of a leg: still resting in its level, or not to be found. */
  ghost predicate LegLeft<K>(b: Book<K>, c: Book<K>, id: uint64, t: TradeMessage)
    requires Indexed(b)
  {
    id != 0 ==>
      if Recreated(b, id, t) then id !in c.index
      else id in c.index && c.index[id] in c.recs && KeyOf(c.recs[c.index[id]]) == KeyOf(b.recs[b.index[id]])
  }

  lemma FillLeaves<K>(b: Book<K>, id: uint64, t: TradeMessage)
    requires WellFormed(b)
    ensures LegLeft(b, Fill(b, id, t.quantity), id, t)
  {
    hide Placed, Totalled, Bucketed, Wrap32, Wrap64;
  }

  /** What a leg left is still so after a step on another order. */
  lemma LegUndisturbed<K>(b: Book<K>, c: Book<K>, s: Step<K>, id: uint64, t: TradeMessage)
    requires Indexed(b) && WellFormed(c) && Unused(c, s.h) && IdNamed(s.act) != id && LegLeft(b, c, id, t)
    ensures LegLeft(b, Apply(c, s), id, t)
  {
    hide Placed, Totalled, Bucketed, Wrap32, Apply;
    if id in c.index { OthersUntouched(c, s, c.index[id]); } else { StaysUnknown(c, s, id); }
  }

  lemma StaysUnknown<K>(b: Book<K>, s: Step<K>, id: uint64)
    requires IdNamed(s.act) != id && id !in b.index
    ensures id !in Apply(b, s).index
  {
    hide HasRoom, Wrap32, Wrap64;
  }

  /** One leg of a trade cancel at a level, whatever the book it meets. */
  lemma RestoreLevel<K>(c: Book<K>, h: Option<K>, r: Rec, key: Key)
    requires Indexed(c) && Served(c, Step(Return(r), h)) && r.id != 0
    ensures var d, unknown := Restore(c, h, r), r.id !in c.index;
            && TotalAt(d, key) == Wrap64(TotalAt(c, key) +
                 if key == (if unknown then KeyOf(r) else KeyOf(c.recs[c.index[r.id]])) then r.qty else 0)
            && Fifo(d, key) == Fifo(c, key) + (if unknown && key == KeyOf(r) then [h.value] else [])
  {
    hide Wrap32, HasRoom, Wrap64;
    Wrap64Is(TotalAt(c, key), TotalAt(c, key), 0);
  }

  lemma RestoreLeg<K>(b: Book<K>, c: Book<K>, h: Option<K>, id: uint64, side: uint8, t: TradeMessage, key: Key)
    requires Indexed(b) && Indexed(c) && LegLeft(b, c, id, t) && Served(c, Step(Return(Leg(id, side, t)), h))
    ensures var d := Restore(c, h, Leg(id, side, t));
            && TotalAt(d, key) == Wrap64(TotalAt(c, key) + Gained(b, id, side, t, key))
            && Fifo(d, key) == Fifo(c, key) + Rejoining(b, id, side, h, t, key)
    ensures Recreated(b, id, t) ==> h.Some?
  {
    hide Restore, Wrap64, Survives;
    if id == 0 {
      RestoreIdle(c, h, Leg(id, side, t));
      Wrap64Is(TotalAt(c, key), TotalAt(c, key), 0);
    } else {
      RestoreLevel(c, h, Leg(id, side, t), key);
    }
  }

  lemma RestoreIdle<K>(b: Book<K>, h: Option<K>, r: Rec)
    requires r.id == 0
    ensures Restore(b, h, r) == b
  {
  }

  lemma WrapChain(x: int64, p: int, q: int, r: int, s: int)
    ensures Wrap64(Wrap64(Wrap64(Wrap64(x - p) - q) + r) + s) == Wrap64(x - p - q + r + s)
    ensures x - p - q + r + s == x ==> Wrap64(x - p - q + r + s) == x
  {
    hide Wrap64;
    Wrap64Add(x - p, -q);
    Wrap64Add(x - p - q, r);
    Wrap64Add(x - p - q + r, s);
    Wrap64Is(x, x, 0);
  }

  /** Filling the buy order leaves the sell order as it was. */
  lemma SellUndisturbed<K>(b: Book<K>, t: TradeMessage, key: Key)
    requires WellFormed(b) && (t.buyId == t.sellId ==> t.buyId == 0)
    ensures var b1 := Fill(b, t.buyId, t.quantity);
            && Indexed(b1) && (forall c :: LegLeft(b1, c, t.sellId, t) ==> LegLeft(b, c, t.sellId, t))
            && Lost(b1, t.sellId, t, key) == Lost(b, t.sellId, t, key)
            && (forall f :: Kept(b1, f, t.sellId, t, key) == Kept(b, f, t.sellId, t, key))
  {
    hide Placed, Totalled, Bucketed, Fill, Survives, Wrap32;
    FillWellFormed(b, t.buyId, t.quantity);
    if t.sellId != 0 {
      if t.sellId in b.index { OthersUntouched(b, Step(Take(t.buyId, t.quantity), None), b.index[t.sellId]); }
      else { StaysUnknown(b, Step(Take(t.buyId, t.quantity), None), t.sellId); }
    }
  }

  /** A level after the round trip: survivors keep their place, orders filled up leave theirs, and orders the
      cancel makes stand at the tail of the level the trade message names. */
  lemma CancelledLevel<K>(b: Book<K>, h1: Option<K>, h2: Option<K>, t: TradeMessage, key: Key)
    requires WellFormed(b) && CancelServed(Trade(b, t.buyId, t.sellId, t.quantity), h1, h2, t)
    requires t.buyId == t.sellId ==> t.buyId == 0
    ensures var c := Cancelled(b, h1, h2, t);
            && TotalAt(c, key) == Wrap64(TotalAt(b, key) - Lost(b, t.buyId, t, key) - Lost(b, t.sellId, t, key)
                                   + Gained(b, t.buyId, SIDE_BUY, t, key) + Gained(b, t.sellId, SIDE_SELL, t, key))
            && Fifo(c, key) == Kept(b, Kept(b, Fifo(b, key), t.buyId, t, key), t.sellId, t, key)
                             + Rejoining(b, t.buyId, SIDE_BUY, h1, t, key)
                             + Rejoining(b, t.sellId, SIDE_SELL, h2, t, key)
    ensures (Recreated(b, t.buyId, t) ==> h1.Some?) && (Recreated(b, t.sellId, t) ==> h2.Some?)
  {
    hide Placed, Totalled, Bucketed, Fill, Restore, Wrap64, TotalAt, Fifo, Lost, Gained, Kept, Rejoining, LegLeft,
      Recreated;
    var q := t.quantity;
    var b1 := Fill(b, t.buyId, q);
    var b2 := Fill(b1, t.sellId, q);
    var buy, sell := Leg(t.buyId, SIDE_BUY, t), Leg(t.sellId, SIDE_SELL, t);
    var b3 := Restore(b2, h1, buy);
    FillWellFormed(b, t.buyId, q);
    FillWellFormed(b1, t.sellId, q);
    RestoreWellFormed(b2, h1, buy);
    SellUndisturbed(b, t, key);
    FillLeg(b, t.buyId, t, key);
    FillLeg(b1, t.sellId, t, key);
    LegsLeft(b, h1, t);
    RestoreLeg(b, b2, h1, t.buyId, SIDE_BUY, t, key);
    RestoreLeg(b, b3, h2, t.sellId, SIDE_SELL, t, key);
    WrapChain(TotalAt(b, key), Lost(b, t.buyId, t, key), Lost(b, t.sellId, t, key),
              Gained(b, t.buyId, SIDE_BUY, t, key), Gained(b, t.sellId, SIDE_SELL, t, key));
  }

  lemma LegsLeft<K>(b: Book<K>, h1: Option<K>, t: TradeMessage)
    requires WellFormed(b) && (t.buyId == t.sellId ==> t.buyId == 0)
    requires Unused(Trade(b, t.buyId, t.sellId, t.quantity), h1)
    ensures var b2 := Trade(b, t.buyId, t.sellId, t.quantity);
            && LegLeft(b, b2, t.buyId, t)
            && LegLeft(b, Restore(b2, h1, Leg(t.buyId, SIDE_BUY, t)), t.sellId, t)
  {
    hide Placed, Totalled, Bucketed, Fill, Restore, LegLeft;
    var q := t.quantity;
    var b1 := Fill(b, t.buyId, q);
    var b2 := Fill(b1, t.sellId, q);
    var buy := Leg(t.buyId, SIDE_BUY, t);
    FillWellFormed(b, t.buyId, q);
    FillWellFormed(b1, t.sellId, q);
    SellUndisturbed(b, t, KeyOf(buy));
    FillLeaves(b, t.buyId, t);
    FillLeaves(b1, t.sellId, t);
    if t.buyId == 0 { NoLeg(b, b2, t); } else { LegUndisturbed(b, b1, Step(Take(t.sellId, q), None), t.buyId, t); }
    if t.sellId == 0 { NoLeg(b, Restore(b2, h1, buy), t); }
    else { LegUndisturbed(b, b2, Step(Return(buy), h1), t.sellId, t); }
  }

  lemma NoLeg<K>(b: Book<K>, c: Book<K>, t: TradeMessage)
    requires Indexed(b)
    ensures LegLeft(b, c, 0, t)
  {
  }

  // ---- The theorem for two orders ----

  /** At most one leg fills up an order at a level the other leg's order can come back to. */
  lemma KeptLength<K>(b: Book<K>, t: TradeMessage, key: Key)
    requires WellFormed(b) && (t.buyId == t.sellId ==> t.buyId == 0)
    ensures |Kept(b, Kept(b, Fifo(b, key), t.buyId, t, key), t.sellId, t, key)|
         == |Fifo(b, key)| - (if FilledAt(b, t.buyId, t, key) then 1 else 0)
            - if FilledAt(b, t.sellId, t, key) then 1 else 0
  {
    hide Totalled, Bucketed, Survives;
    var f := Fifo(b, key);
    if FilledAt(b, t.buyId, t, key) { WithoutMembers(f, b.index[t.buyId]); }
    if FilledAt(b, t.sellId, t, key) { WithoutMembers(Kept(b, f, t.buyId, t, key), b.index[t.sellId]); }
  }

  lemma ReturnedLevel<K>(b: Book<K>, h1: Option<K>, h2: Option<K>, t: TradeMessage, key: Key)
    requires WellFormed(b) && CancelServed(Trade(b, t.buyId, t.sellId, t.quantity), h1, h2, t)
    requires (t.buyId == t.sellId ==> t.buyId == 0)
    requires LegReturns(b, t.buyId, SIDE_BUY, t) && LegReturns(b, t.sellId, SIDE_SELL, t)
    ensures var c := Cancelled(b, h1, h2, t);
            TotalAt(c, key) == TotalAt(b, key) && |Fifo(c, key)| == |Fifo(b, key)|
  {
    hide Placed, Totalled, Bucketed, Cancelled, CancelServed, Survives, Wrap64, Kept;
    CancelledLevel(b, h1, h2, t, key);
    KeptLength(b, t, key);
    WrapChain(TotalAt(b, key), Lost(b, t.buyId, t, key), Lost(b, t.sellId, t, key),
              Gained(b, t.buyId, SIDE_BUY, t, key), Gained(b, t.sellId, SIDE_SELL, t, key));
  }

  lemma ReturnedView<K>(b: Book<K>, h1: Option<K>, h2: Option<K>, t: TradeMessage)
    requires WellFormed(b) && CancelServed(Trade(b, t.buyId, t.sellId, t.quantity), h1, h2, t)
    requires (t.buyId == t.sellId ==> t.buyId == 0)
    requires LegReturns(b, t.buyId, SIDE_BUY, t) && LegReturns(b, t.sellId, SIDE_SELL, t)
    ensures View(Cancelled(b, h1, h2, t)) == View(b)
  {
    hide Placed, Totalled, Bucketed, Cancelled, CancelServed, Survives, View, CancelledEntries;
    CancelledView(b, h1, h2, t);
    ViewKeys(b);
    EntriesReturn(View(b), b.mask, t);
  }

  /** If the book is as it was, the buy leg named no order, a survivor, or an order the message describes. A leg
      that names an unknown order adds an id, or an order to the level the message names. */
  lemma BuyMustReturn<K>(b: Book<K>, h1: Option<K>, h2: Option<K>, t: TradeMessage)
    requires WellFormed(b) && CancelServed(Trade(b, t.buyId, t.sellId, t.quantity), h1, h2, t)
    requires (t.buyId == t.sellId ==> t.buyId == 0) && SameBook(b, Cancelled(b, h1, h2, t))
    ensures LegReturns(b, t.buyId, SIDE_BUY, t)
  {
    hide Placed, Totalled, Bucketed, Cancelled, CancelServed, Survives, View, CancelledEntries, Kept, Lost, Gained;
    CancelledView(b, h1, h2, t);
    ViewKeys(b);
    if t.buyId != 0 {
      if t.buyId in b.index {
        if Recreated(b, t.buyId, t) { BuyRecreated(View(b), b.mask, t); }
      } else {
        var key := Key(true, t.price);
        CancelledLevel(b, h1, h2, t, key);
        KeptLength(b, t, key);
        assert FilledAt(b, t.sellId, t, key);
        SellRecreated(View(b), b.mask, t);
        assert false;
      }
    }
  }

  lemma SellMustReturn<K>(b: Book<K>, h1: Option<K>, h2: Option<K>, t: TradeMessage)
    requires WellFormed(b) && CancelServed(Trade(b, t.buyId, t.sellId, t.quantity), h1, h2, t)
    requires (t.buyId == t.sellId ==> t.buyId == 0) && SameBook(b, Cancelled(b, h1, h2, t))
    ensures LegReturns(b, t.sellId, SIDE_SELL, t)
  {
    hide Placed, Totalled, Bucketed, Cancelled, CancelServed, Survives, View, CancelledEntries, Kept, Lost, Gained;
    CancelledView(b, h1, h2, t);
    ViewKeys(b);
    if t.sellId != 0 {
      if t.sellId in b.index {
        if Recreated(b, t.sellId, t) { SellRecreated(View(b), b.mask, t); }
      } else {
        var key := Key(false, t.price);
        CancelledLevel(b, h1, h2, t, key);
        KeptLength(b, t, key);
        assert FilledAt(b, t.buyId, t, key);
        BuyRecreated(View(b), b.mask, t);
        assert false;
      }
    }
  }

  // ---- Two legs that name one order ----

  /** The quantity that two restores of q leave after the order is gone. */
  lemma DoubleQuantity(x: int32, q: int32)
    requires x == Wrap32(q + q)
    ensures Wrap32(x - q) == q && Wrap32(q - q) == 0
  {
    var d := Wrap32Class(q + q);
    var e := Wrap32Class(x - q);
  }

  /** Both fills leave something: both restores put it back, and the very same book returns. */
  lemma TwiceSurvives<K>(b: Book<K>, t: TradeMessage)
    requires WellFormed(b) && t.buyId == t.sellId != 0 && t.buyId in b.index
    requires var x := b.recs[b.index[t.buyId]].qty; Survives(x, t) && Survives(Wrap32(x - t.quantity), t)
    ensures Cancelled(b, None, None, t) == b
  {
    hide Placed, Totalled, Bucketed, Wrap32, Wrap64, Fill, Restore, SetQty, Survives;
    var k, q := b.index[t.buyId], t.quantity;
    var x: int := b.recs[k].qty;
    var b1 := SetQty(b, k, Wrap32(x - q), -(q as int));
    SetQtyRecs(b, k, Wrap32(x - q), -(q as int));
    SetQtyPlaced(b, k, Wrap32(x - q), -(q as int));
    FillSurvivor(b, t.buyId, t);
    FillSurvivor(b1, t.buyId, t);
    var y: int := Wrap32(x - q);
    SetQtyRecs(b1, k, Wrap32(y - q), -(q as int));
    SetQtyBackOne(b1, k, q);
    RestoreSurvivor(SetQty(b1, k, Wrap32(y - q), -(q as int)), t.buyId, SIDE_BUY, t, y);
    SetQtyBackOne(b, k, q);
    RestoreSurvivor(b1, t.buyId, SIDE_SELL, t, x);
  }

  lemma SetQtyRecs<K>(b: Book<K>, k: K, qty: int32, delta: int)
    requires Indexed(b) && k in b.recs
    ensures var c := SetQty(b, k, qty, delta);
            Indexed(c) && c.index == b.index && c.recs == b.recs[k := b.recs[k].(qty := qty)]
  {
    hide Wrap64;
  }

  lemma SetQtyCommutes<K>(b: Book<K>, k: K, l: K, x: int32, y: int32, d: int, e: int)
    requires k in b.recs && l in b.recs && k != l
    ensures SetQty(SetQty(b, k, x, d), l, y, e) == SetQty(SetQty(b, l, y, e), k, x, d)
  {
    hide Wrap64;
    var key, kel := KeyOf(b.recs[k]), KeyOf(b.recs[l]);
    var t: int := LevelAt(b, key).total;
    Wrap64Add(t + d, e);
    Wrap64Add(t + e, d);
    var c, c' := SetQty(SetQty(b, k, x, d), l, y, e), SetQty(SetQty(b, l, y, e), k, x, d);
    assert c.recs == c'.recs;
    if key == kel {
      assert c.levels[key] == c'.levels[key];
    } else {
      assert c.levels[key] == c'.levels[key] && c.levels[kel] == c'.levels[kel];
    }
    assert c.levels == c'.levels;
  }

  /** Two adjustments of two quantities and their inverses, in the handlers' order. */
  lemma SetQtyBack<K>(b: Book<K>, k: K, l: K, q: int32)
    requires Placed(b) && k in b.recs && l in b.recs && k != l
    ensures var x, y := b.recs[k].qty, b.recs[l].qty;
            var b1 := SetQty(b, k, Wrap32(x - q), -(q as int));
            var b2 := SetQty(b1, l, Wrap32(y - q), -(q as int));
            SetQty(SetQty(b2, k, x, q), l, y, q) == b
  {
    hide Wrap32, Wrap64, Placed, SetQty;
    var x, y := b.recs[k].qty, b.recs[l].qty;
    var b1 := SetQty(b, k, Wrap32(x - q), -(q as int));
    assert k in b1.recs && l in b1.recs by { SetQtyKeys(b, k, Wrap32(x - q), -(q as int)); }
    SetQtyCommutes(b1, k, l, x, Wrap32(y - q), q, -(q as int));
    SetQtyBackOne(b, k, q);
    SetQtyBackOne(b, l, q);
  }

  lemma SetQtyKeys<K>(b: Book<K>, k: K, qty: int32, delta: int)
    requires k in b.recs
    ensures SetQty(b, k, qty, delta).recs.Keys == b.recs.Keys
  {
    hide Wrap64;
  }

  lemma SetQtyBackOne<K>(b: Book<K>, k: K, q: int32)
    requires Placed(b) && k in b.recs
    ensures var x := b.recs[k].qty;
            SetQty(SetQty(b, k, Wrap32(x - q), -(q as int)), k, x, q) == b
  {
    hide Wrap32, Wrap64;
    var key := KeyOf(b.recs[k]);
    assert k in Fifo(b, key);
    Wrap64Add(LevelAt(b, key).total - q, q);
    Wrap64Is(LevelAt(b, key).total, LevelAt(b, key).total, 0);
  }

  lemma FillSurvivor<K>(b: Book<K>, id: uint64, t: TradeMessage)
    requires Indexed(b) && id != 0 && id in b.index && Survives(b.recs[b.index[id]].qty, t)
    ensures var k, q := b.index[id], t.quantity;
            Fill(b, id, q) == SetQty(b, k, Wrap32(b.recs[k].qty - q), -(q as int))
  {
  }

  lemma RestoreSurvivor<K>(b: Book<K>, id: uint64, side: uint8, t: TradeMessage, x: int32)
    requires Indexed(b) && id != 0 && id in b.index && b.recs[b.index[id]].qty == Wrap32(x - t.quantity)
    ensures Restore(b, None, Leg(id, side, t)) == SetQty(b, b.index[id], x, t.quantity)
  {
    hide Wrap32;
    UnwrapSum(x, t.quantity);
  }

  /** Otherwise the order goes with one of the fills, and the restores make a buy of twice the quantity. */
  lemma TwiceEntries(v: map<uint64, Entry>, mask: nat, t: TradeMessage)
    requires Bounded(v, mask) && t.buyId == t.sellId != 0 && t.buyId in v
    requires !(Survives(v[t.buyId].qty, t) && Survives(Wrap32(v[t.buyId].qty - t.quantity), t))
    ensures var gone := Filled(Filled(v, t.buyId, t.quantity), t.sellId, t.quantity);
            && gone == v - {t.buyId}
            && Restored(gone, mask, Leg(t.buyId, SIDE_BUY, t)) == v[t.buyId := EntryOf(Leg(t.buyId, SIDE_BUY, t))]
            && CancelledEntries(v, mask, t)
                 == v[t.buyId := Entry(SIDE_BUY, t.price, Wrap32(t.quantity + t.quantity))]
  {
    hide Wrap32, HasRoom, Bounded;
    RoomBack(v, v - {t.buyId}, mask, t.buyId);
  }

  lemma TwiceFilled<K>(b: Book<K>, t: TradeMessage, key: Key)
    requires WellFormed(b) && t.buyId == t.sellId != 0 && t.buyId in b.index
    requires var r := b.recs[b.index[t.buyId]];
             !(Survives(r.qty, t) && Survives(Wrap32(r.qty - t.quantity), t))
             && r.qty == Wrap32(t.quantity + t.quantity)
    ensures var b2 := Trade(b, t.buyId, t.sellId, t.quantity);
            var at := KeyOf(b.recs[b.index[t.buyId]]) == key;
            && TotalAt(b2, key) == Wrap64(TotalAt(b, key) - if at then t.quantity + t.quantity else 0)
            && |Fifo(b2, key)| == |Fifo(b, key)| - (if at then 1 else 0)
            && t.buyId !in b2.index
  {
    hide Placed, Totalled, Bucketed, Wrap32, Wrap64, Fill, QtyAt;
    var id, q, k := t.buyId, t.quantity, b.index[t.buyId];
    DoubleQuantity(b.recs[k].qty, q);
    FillLeg(b, id, t, key);
    FillLeaves(b, id, t);
    KeptOne(b, id, t, key);
    var b1 := Fill(b, id, q);
    if Survives(b.recs[k].qty, t) {
      FillWellFormed(b, id, q);
      assert b1 == SetQty(b, k, Wrap32(b.recs[k].qty - q), -(q as int)) by { FillSurvivor(b, id, t); }
      SetQtyRecs(b, k, Wrap32(b.recs[k].qty - q), -(q as int));
      FillLeg(b1, id, t, key);
      FillLeaves(b1, id, t);
      KeptOne(b1, id, t, key);
      Wrap64Add(TotalAt(b, key) - Lost(b, id, t, key), -Lost(b1, id, t, key));
    } else {
      FillIdle(b1, id, q);
    }
  }

  lemma KeptOne<K>(b: Book<K>, id: uint64, t: TradeMessage, key: Key)
    requires WellFormed(b)
    ensures |Kept(b, Fifo(b, key), id, t, key)| == |Fifo(b, key)| - if FilledAt(b, id, t, key) then 1 else 0
  {
    hide Totalled, Bucketed, Survives;
    if FilledAt(b, id, t, key) { WithoutMembers(Fifo(b, key), b.index[id]); }
  }

  lemma TwiceLevel<K>(b: Book<K>, h1: Option<K>, h2: Option<K>, t: TradeMessage, key: Key)
    requires WellFormed(b) && CancelServed(Trade(b, t.buyId, t.sellId, t.quantity), h1, h2, t)
    requires t.buyId == t.sellId != 0 && t.buyId in b.index
    requires var r := b.recs[b.index[t.buyId]];
             && !(Survives(r.qty, t) && Survives(Wrap32(r.qty - t.quantity), t))
             && r.side == SIDE_BUY && r.price == t.price && r.qty == Wrap32(t.quantity + t.quantity)
    ensures var c := Cancelled(b, h1, h2, t);
            TotalAt(c, key) == TotalAt(b, key) && |Fifo(c, key)| == |Fifo(b, key)|
  {
    hide Placed, Totalled, Bucketed, Wrap32, Wrap64, Fill, Restore, QtyAt, Survives, Trade, View;
    var id, q := t.buyId, t.quantity as int;
    var b2 := Trade(b, id, t.sellId, t.quantity);
    var buy, sell := Leg(id, SIDE_BUY, t), Leg(id, SIDE_SELL, t);
    var b3 := Restore(b2, h1, buy);
    TwiceFilled(b, t, key);
    TwiceBought(b, h1, t);
    RestoreLevel(b2, h1, buy, key);
    RestoreLevel(b3, h2, sell, key);
    var taken, back: int := if KeyOf(buy) == key then q + q else 0, if KeyOf(buy) == key then q else 0;
    WrapChain(TotalAt(b, key), taken, 0, back, back);
    Wrap64Add(TotalAt(b, key) - taken, 0);
  }

  /** After the buy leg's restore the order is known again, at the level of the trade message. */
  lemma TwiceBought<K>(b: Book<K>, h1: Option<K>, t: TradeMessage)
    requires WellFormed(b) && t.buyId == t.sellId != 0 && t.buyId in b.index
    requires var x := b.recs[b.index[t.buyId]].qty; !(Survives(x, t) && Survives(Wrap32(x - t.quantity), t))
    requires Served(Trade(b, t.buyId, t.sellId, t.quantity), Step(Return(Leg(t.buyId, SIDE_BUY, t)), h1))
    ensures var b2 := Trade(b, t.buyId, t.sellId, t.quantity);
            var b3 := Restore(b2, h1, Leg(t.buyId, SIDE_BUY, t));
            && Indexed(b2) && Indexed(b3) && t.buyId in b3.index
            && KeyOf(b3.recs[b3.index[t.buyId]]) == KeyOf(Leg(t.buyId, SIDE_BUY, t))
  {
    hide Placed, Totalled, Bucketed, Fill, Restore, View, Filled, Restored, Survives, Wrap32;
    var q, buy := t.quantity, Leg(t.buyId, SIDE_BUY, t);
    var b1 := Fill(b, t.buyId, q);
    var b2 := Fill(b1, t.sellId, q);
    FillWellFormed(b, t.buyId, q);
    FillWellFormed(b1, t.sellId, q);
    RestoreWellFormed(b2, h1, buy);
    FillView(b, t.buyId, q);
    FillView(b1, t.sellId, q);
    FillMask(b, t.buyId, q);
    FillMask(b1, t.sellId, q);
    RestoreView(b2, h1, buy);
    ViewBounded(b);
    ViewKeys(b);
    TwiceEntries(View(b), b.mask, t);
    ViewKeys(Restore(b2, h1, buy));
  }

  /** An order the book does not hold, named by both legs: the cancel adds its id, or leaves an order in the buy
      level of the message. */
  lemma TwiceUnknown<K>(b: Book<K>, h1: Option<K>, h2: Option<K>, t: TradeMessage)
    requires WellFormed(b) && CancelServed(Trade(b, t.buyId, t.sellId, t.quantity), h1, h2, t)
    requires t.buyId == t.sellId != 0 && t.buyId !in b.index
    ensures !SameBook(b, Cancelled(b, h1, h2, t))
  {
    hide Placed, Totalled, Bucketed, Fill, Restore, View, HasRoom;
    var id, key := t.buyId, Key(true, t.price);
    var buy, sell := Leg(id, SIDE_BUY, t), Leg(id, SIDE_SELL, t);
    var b3 := Restore(b, h1, buy);
    FillIdle(b, id, t.quantity);
    RestoreWellFormed(b, h1, buy);
    RestoreView(b, h1, buy);
    RestoreView(b3, h2, sell);
    ViewKeys(b);
    ViewKeys(b3);
    if !HasRoom(View(b), b.mask, id) {
      RestoreLevel(b, h1, buy, key);
      RestoreLevel(b3, h2, sell, key);
    }
  }

  lemma TwiceRoundTrip<K>(b: Book<K>, h1: Option<K>, h2: Option<K>, t: TradeMessage)
    requires WellFormed(b) && CancelServed(Trade(b, t.buyId, t.sellId, t.quantity), h1, h2, t)
    requires t.buyId == t.sellId != 0
    ensures SameBook(b, Cancelled(b, h1, h2, t)) <==> TwiceReturns(b, t)
  {
    hide Placed, Totalled, Bucketed, Cancelled, View, CancelledEntries, Survives, Wrap32, Fill, Restore;
    if t.buyId !in b.index {
      TwiceUnknown(b, h1, h2, t);
    } else {
      var x: int := b.recs[b.index[t.buyId]].qty;
      if Survives(x, t) && Survives(Wrap32(x - t.quantity), t) {
        TwiceSurvives(b, t);
        TwiceServed(b, h1, h2, t);
      } else {
        CancelledView(b, h1, h2, t);
        ViewKeys(b);
        TwiceEntries(View(b), b.mask, t);
        if TwiceReturns(b, t) {
          forall key ensures var c := Cancelled(b, h1, h2, t);
            TotalAt(c, key) == TotalAt(b, key) && |Fifo(c, key)| == |Fifo(b, key)|
          {
            TwiceLevel(b, h1, h2, t, key);
          }
        }
      }
    }
  }

  /** A surviving order needs nothing from the allocator. */
  lemma TwiceServed<K>(b: Book<K>, h1: Option<K>, h2: Option<K>, t: TradeMessage)
    requires WellFormed(b) && CancelServed(Trade(b, t.buyId, t.sellId, t.quantity), h1, h2, t)
    requires t.buyId == t.sellId != 0 && t.buyId in b.index
    requires var x := b.recs[b.index[t.buyId]].qty; Survives(x, t) && Survives(Wrap32(x - t.quantity), t)
    ensures h1 == None && h2 == None
  {
    hide Placed, Totalled, Bucketed, Fill, Restore, SetQty, Wrap32, Survives;
    var k, q, id := b.index[t.buyId], t.quantity as int, t.buyId;
    var x: int := b.recs[k].qty;
    var y: int := Wrap32(x - q);
    var b1 := SetQty(b, k, y, -q);
    FillSurvivor(b, id, t);
    SetQtyRecs(b, k, y, -q);
    FillSurvivor(b1, id, t);
    SetQtyRecs(b1, k, Wrap32(y - q), -q);
    var b2 := SetQty(b1, k, Wrap32(y - q), -q);
    RestoreSurvivor(b2, id, SIDE_BUY, t, y);
    SetQtyRecs(b2, k, y, q);
  }

  /** When both orders survive, the cancellation undoes the trade completely: the very same book, every
      order in its old place. */
  lemma PartialRoundTrip<K>(b: Book<K>, t: TradeMessage)
    requires WellFormed(b) && (t.buyId == t.sellId ==> t.buyId == 0)
    requires t.buyId != 0 ==> t.buyId in b.index && Survives(b.recs[b.index[t.buyId]].qty, t)
    requires t.sellId != 0 ==> t.sellId in b.index && Survives(b.recs[b.index[t.sellId]].qty, t)
    ensures Cancelled(b, None, None, t) == b
  {
    hide Placed, Totalled, Bucketed, Wrap32, Wrap64, Fill, Restore, Survives;
    var q := t.quantity;
    var buy, sell := Leg(t.buyId, SIDE_BUY, t), Leg(t.sellId, SIDE_SELL, t);
    FillIdle(b, 0, q);
    RestoreIdle(b, None, Leg(0, SIDE_BUY, t));
    RestoreIdle(b, None, Leg(0, SIDE_SELL, t));
    if t.buyId != 0 {
      var k := b.index[t.buyId];
      var b1 := SetQty(b, k, Wrap32(b.recs[k].qty - q), -(q as int));
      FillSurvivor(b, t.buyId, t);
      if t.sellId != 0 {
        var l := b.index[t.sellId];
        var b2 := SetQty(b1, l, Wrap32(b.recs[l].qty - q), -(q as int));
        FillSurvivor(b1, t.sellId, t);
        RestoreSurvivor(b2, t.buyId, SIDE_BUY, t, b.recs[k].qty);
        RestoreSurvivor(SetQty(b2, k, b.recs[k].qty, q), t.sellId, SIDE_SELL, t, b.recs[l].qty);
        SetQtyBack(b, k, l, q);
      } else {
        FillIdle(b1, 0, q);
        RestoreSurvivor(b1, t.buyId, SIDE_BUY, t, b.recs[k].qty);
        SetQtyBackOne(b, k, q);
      }
    } else if t.sellId != 0 {
      var l := b.index[t.sellId];
      FillSurvivor(b, t.sellId, t);
      RestoreIdle(SetQty(b, l, Wrap32(b.recs[l].qty - q), -(q as int)), None, buy);
      RestoreSurvivor(SetQty(b, l, Wrap32(b.recs[l].qty - q), -(q as int)), t.sellId, SIDE_SELL, t, b.recs[l].qty);
      SetQtyBackOne(b, l, q);
    }
  }

  // ---- The theorem ----

  /** A trade followed by the cancellation of the same trade gives back the ids, sides, prices, quantities,
      level totals and level counts if and only if each leg names no order, an order that survives its fill,
      or an order that the trade message describes. When both legs name one order it must survive both
      fills, or be a buy at the message's price of twice its quantity. */
  lemma RoundTrip<K>(b: Book<K>, h1: Option<K>, h2: Option<K>, t: TradeMessage)
    requires WellFormed(b) && CancelServed(Trade(b, t.buyId, t.sellId, t.quantity), h1, h2, t)
    ensures SameBook(b, Cancelled(b, h1, h2, t)) <==> Returns(b, t)
  {
    hide Placed, Totalled, Bucketed, Cancelled, CancelServed, View, LegReturns, TwiceReturns, TotalAt, Fifo;
    if t.buyId == t.sellId && t.buyId != 0 {
      TwiceRoundTrip(b, h1, h2, t);
    } else if Returns(b, t) {
      ReturnedView(b, h1, h2, t);
      forall key ensures var c := Cancelled(b, h1, h2, t);
        TotalAt(c, key) == TotalAt(b, key) && |Fifo(c, key)| == |Fifo(b, key)|
      {
        ReturnedLevel(b, h1, h2, t, key);
      }
    } else if SameBook(b, Cancelled(b, h1, h2, t)) {
      BuyMustReturn(b, h1, h2, t);
      SellMustReturn(b, h1, h2, t);
    }
  }

  /** The same for the feed: a trade message, then a trade cancel message with the same data. */
  lemma FeedRoundTrip<K>(b: Book<K>, trade: RawMessage, cancel: RawMessage, steps: seq<Step<K>>)
    requires trade.msgType == 'T' && cancel.msgType == 'C' && trade.trade.Some? && cancel.trade == trade.trade
    requires WellFormed(b) && ServedAll(b, steps) && Enacts(steps, ActsOf(trade) + ActsOf(cancel))
    ensures SameBook(b, Run(b, steps)) <==> Returns(b, trade.trade.value)
  {
    hide WellFormed, SameBook, Returns, Apply, Served;
    var t := trade.trade.value;
    var b1 := Apply(b, steps[0]);
    var b2 := Apply(b1, steps[1]);
    var b3 := Apply(b2, steps[2]);
    RunFour(b, steps);
    ActsAre(b, steps[0]);
    ActsAre(b1, steps[1]);
    ActsAre(b2, steps[2]);
    ActsAre(b3, steps[3]);
    WellIndexed(b);
    RoundTrip(b, steps[2].h, steps[3].h, t);
  }

  lemma RunFour<K>(b: Book<K>, steps: seq<Step<K>>)
    requires |steps| == 4 && ServedAll(b, steps)
    ensures var b1 := Apply(b, steps[0]);
            var b2 := Apply(b1, steps[1]);
            var b3 := Apply(b2, steps[2]);
            Served(b2, steps[2]) && Served(b3, steps[3]) && Run(b, steps) == Apply(b3, steps[3])
  {
    hide Apply, Served;
    var b1 := Apply(b, steps[0]);
    var b2 := Apply(b1, steps[1]);
    var b3 := Apply(b2, steps[2]);
    RunSplit(b, steps);
    RunSplit(b1, steps[1..]);
    assert steps[1..][1..] == steps[2..] && steps[2..][1..] == steps[3..] && steps[3..][1..] == [];
    RunSplit(b2, steps[2..]);
    RunSplit(b3, steps[3..]);
    assert Run(Apply(b3, steps[3]), []) == Apply(b3, steps[3]);
  }

  lemma RunSplit<K>(b: Book<K>, steps: seq<Step<K>>)
    requires steps != [] && ServedAll(b, steps)
    ensures Served(b, steps[0]) && ServedAll(Apply(b, steps[0]), steps[1..])
    ensures Run(b, steps) == Run(Apply(b, steps[0]), steps[1..])
  {
  }

  lemma ActsAre<K>(b: Book<K>, s: Step<K>)
    ensures s.act.Take? ==> Apply(b, s) == Fill(b, s.act.id, s.act.quantity)
    ensures s.act.Return? ==> Apply(b, s) == Restore(b, s.h, s.act.r)
  {
  }

  /** The same for what the two messages make of a book, whatever the allocator did. */
  lemma OutcomeRoundTrip<K>(b: Book<K>, trade: RawMessage, cancel: RawMessage, s: seq<Step<K>>, c: Book<K>,
                            t: seq<Step<K>>, d: Book<K>)
    requires trade.msgType == 'T' && cancel.msgType == 'C' && trade.trade.Some? && cancel.trade == trade.trade
    requires WellFormed(b) && Makes(b, s, ActsOf(trade), c) && Makes(c, t, ActsOf(cancel), d)
    ensures Indexed(b) && (SameBook(b, d) <==> Returns(b, trade.trade.value))
  {
    hide Placed, Totalled, Bucketed, SameBook, Returns, Run, ServedAll;
    MakesConcat(b, s, ActsOf(trade), c, t, ActsOf(cancel), d);
    FeedRoundTrip(b, trade, cancel, s + t);
  }

  // ---- Inputs that fail ----

  /** A full fill at a price other than the order's own does not come back: the order is recreated at the
      price of the trade. */
  lemma OtherPriceLost<K>(b: Book<K>, h: Option<K>, t: TradeMessage)
    requires WellFormed(b) && t.sellId == 0 && t.buyId != 0 && t.buyId in b.index
    requires CancelServed(Trade(b, t.buyId, 0, t.quantity), h, None, t)
    requires var r := b.recs[b.index[t.buyId]]; r.qty == t.quantity && r.price != t.price
    ensures !SameBook(b, Cancelled(b, h, None, t))
  {
    hide SameBook, Cancelled, CancelServed, WellFormed;
    WellIndexed(b);
    RoundTrip(b, h, None, t);
  }

  /** A trade of an order the book does not hold changes nothing, and its cancellation makes an order that
      never was: buy 7 on an empty book. */
  lemma PhantomOrder<K>(k: K, token: uint32, price: int32, quantity: int32)
    ensures var b, t := Empty<K>(1023), TradeMessage(7, 0, token, price, quantity);
            && Trade(b, t.buyId, t.sellId, t.quantity) == b
            && CancelServed(b, Some(k), None, t) && !SameBook(b, Cancelled(b, Some(k), None, t))
  {
    hide SameBook;
    var b, t := Empty<K>(1023), TradeMessage(7, 0, token, price, quantity);
    EmptyWellFormed<K>(1023);
    assert Trade(b, 7, 0, quantity) == b;
    assert CancelServed(b, Some(k), None, t);
    RoundTrip(b, Some(k), None, t);
  }
}
