/** The book invariant survives every primitive update and every handler, whatever ids arrive and
    whichever Puts fail. */
module BookInvariants {
  import opened Core
  import opened Sequences
  import opened Books

  // ---- Placement ----

  lemma LinkPlaced<K>(b: Book<K>, k: K, r: Rec)
    requires Placed(b) && k !in b.recs
    ensures Placed(Link(b, k, r))
  {
    hide Wrap64;
    var c := Link(b, k, r);
    assert Fifo(c, KeyOf(r)) == Fifo(b, KeyOf(r)) + [k];
    assert forall key :: key != KeyOf(r) ==> Fifo(c, key) == Fifo(b, key);
    JoinedPlaced(b, c, k, r);
  }

  /** An order joined to the queue of its side and price, and to no other. */
  lemma JoinedPlaced<K>(b: Book<K>, c: Book<K>, k: K, r: Rec)
    requires Placed(b) && k !in b.recs && c.recs == b.recs[k := r]
    requires Fifo(c, KeyOf(r)) == Fifo(b, KeyOf(r)) + [k]
    requires forall key :: key != KeyOf(r) ==> Fifo(c, key) == Fifo(b, key)
    ensures Placed(c)
  {
    hide Fifo;
  }

  lemma UnlinkPlaced<K>(b: Book<K>, k: K)
    requires Placed(b) && k in b.recs
    ensures Placed(Unlink(b, k))
  {
    hide Wrap32, Wrap64, Slot, Without;
    var c := Unlink(b, k);
    var key := KeyOf(b.recs[k]);
    WithoutMembers(Fifo(b, key), k);
    assert Fifo(c, key) == Without(Fifo(b, key), k);
    assert forall o :: o != key ==> Fifo(c, o) == Fifo(b, o);
  }

  lemma SetQtyPlaced<K>(b: Book<K>, k: K, qty: int32, delta: int)
    requires Placed(b) && k in b.recs
    ensures Placed(SetQty(b, k, qty, delta))
  {
    var c := SetQty(b, k, qty, delta);
    assert forall o :: Fifo(c, o) == Fifo(b, o);
  }

  /** A level created empty reads like an absent one. */
  lemma TouchSame<K>(b: Book<K>, key: Key)
    ensures forall k :: LevelAt(Touch(b, key), k) == LevelAt(b, k)
    ensures Placed(b) ==> Placed(Touch(b, key))
  {
    var c := Touch(b, key);
    assert forall k :: Fifo(c, k) == Fifo(b, k);
  }

  // ---- Quantities ----

  lemma LinkQty<K>(b: Book<K>, k: K, r: Rec, key: Key)
    requires Placed(b) && k !in b.recs
    ensures QtyAt(Link(b, k, r), key) == QtyAt(b, key) + if key == KeyOf(r) then r.qty else 0
  {
    var c := Link(b, k, r);
    SumByAgrees(Fifo(b, key), Quantities(b.recs), Quantities(c.recs));
    if key == KeyOf(r) {
      assert Fifo(c, key) == Fifo(b, key) + [k];
      SumByAppend(Fifo(b, key), k, Quantities(c.recs));
    } else {
      assert Fifo(c, key) == Fifo(b, key);
    }
  }

  lemma UnlinkQty<K>(b: Book<K>, k: K, key: Key)
    requires Placed(b) && k in b.recs
    ensures QtyAt(Unlink(b, k), key) == QtyAt(b, key) - if key == KeyOf(b.recs[k]) then b.recs[k].qty else 0
  {
    var c := Unlink(b, k);
    if key == KeyOf(b.recs[k]) {
      assert Fifo(c, key) == Without(Fifo(b, key), k);
      WithoutMembers(Fifo(b, key), k);
      SumByWithout(Fifo(b, key), k, Quantities(b.recs));
    } else {
      assert Fifo(c, key) == Fifo(b, key);
    }
    SumByAgrees(Fifo(c, key), Quantities(b.recs), Quantities(c.recs));
  }

  lemma SetQtyQty<K>(b: Book<K>, k: K, qty: int32, delta: int, key: Key)
    requires Placed(b) && k in b.recs
    ensures QtyAt(SetQty(b, k, qty, delta), key)
         == QtyAt(b, key) + if key == KeyOf(b.recs[k]) then qty - b.recs[k].qty else 0
  {
    var c := SetQty(b, k, qty, delta);
    assert Fifo(c, key) == Fifo(b, key);
    if key == KeyOf(b.recs[k]) {
      SumByUpdate(Fifo(b, key), k, Quantities(b.recs), Quantities(c.recs));
    } else {
      SumByAgrees(Fifo(b, key), Quantities(b.recs), Quantities(c.recs));
    }
  }

  // ---- Totals ----

  lemma LinkTotalled<K>(b: Book<K>, k: K, r: Rec)
    requires Placed(b) && Totalled(b) && k !in b.recs
    ensures Totalled(Link(b, k, r))
  {
    hide Placed, Congruent32, QtyAt, Wrap64;
    var c := Link(b, k, r);
    forall key ensures Congruent32(LevelAt(c, key).total, QtyAt(c, key)) {
      LinkQty(b, k, r, key);
      if key == KeyOf(r) {
        CongruentSelf(r.qty);
        Wrap64Congruent(LevelAt(b, key).total, QtyAt(b, key), r.qty, r.qty);
      }
    }
  }

  lemma UnlinkTotalled<K>(b: Book<K>, k: K)
    requires Placed(b) && Totalled(b) && k in b.recs
    ensures Totalled(Unlink(b, k))
  {
    hide Placed, Congruent32, QtyAt, Wrap64;
    var c := Unlink(b, k);
    var q: int := b.recs[k].qty;
    forall key ensures Congruent32(LevelAt(c, key).total, QtyAt(c, key)) {
      UnlinkQty(b, k, key);
      if key == KeyOf(b.recs[k]) {
        CongruentSelf(-q);
        Wrap64Congruent(LevelAt(b, key).total, QtyAt(b, key), -q, -q);
      }
    }
  }

  lemma SetQtyTotalled<K>(b: Book<K>, k: K, qty: int32, delta: int)
    requires Placed(b) && Totalled(b) && k in b.recs
    requires Congruent32(delta, qty - b.recs[k].qty)
    ensures Totalled(SetQty(b, k, qty, delta))
  {
    hide Placed, Congruent32, QtyAt, Wrap64;
    var c := SetQty(b, k, qty, delta);
    var change := qty - b.recs[k].qty;
    forall key ensures Congruent32(LevelAt(c, key).total, QtyAt(c, key)) {
      SetQtyQty(b, k, qty, delta, key);
      var total, sum := LevelAt(b, key).total, QtyAt(b, key);
      if key == KeyOf(b.recs[k]) {
        Wrap64Congruent(total, sum, delta, change);
      }
    }
  }

  // ---- The id index ----

  lemma PutBucketed<K>(b: Book<K>, id: uint64, k: K)
    requires Bucketed(b)
    ensures Bucketed(Put(b, id, k))
  {
    hide Slot;
    var c := Put(b, id, k);
    forall slot: nat ensures |BucketIds(c.index, c.mask, slot)| <= BUCKET_SIZE {
      var before, after := BucketIds(b.index, b.mask, slot), BucketIds(c.index, c.mask, slot);
      if CanPut(b, id) && id !in b.index && Slot(id, b.mask) == slot {
        assert after == before + {id};
      } else {
        assert after == before;
      }
    }
  }

  lemma BucketedSame<K>(b: Book<K>, c: Book<K>)
    requires Bucketed(b) && c.index == b.index && c.mask == b.mask
    ensures Bucketed(c)
  {
  }

  lemma DeleteBucketed<K>(b: Book<K>, id: uint64)
    requires Bucketed(b)
    ensures Bucketed(Delete(b, id))
  {
    var c := Delete(b, id);
    forall slot: nat ensures |BucketIds(c.index, c.mask, slot)| <= BUCKET_SIZE {
      var before, after := BucketIds(b.index, b.mask, slot), BucketIds(c.index, c.mask, slot);
      assert after == before - {id};
      assert |after| <= |before|;
    }
  }

  // ---- Handlers ----

  lemma AdmitWellFormed<K>(b: Book<K>, k: K, r: Rec)
    requires WellFormed(b) && k !in b.recs
    ensures WellFormed(Admit(b, k, r))
  {
    hide Placed, Totalled, Bucketed, HasRoom;
    var b1 := Put(b, r.id, k);
    PutBucketed(b, r.id, k);
    PutLinks(b, b1);
    LinkPlaced(b1, k, r);
    LinkTotalled(b1, k, r);
    BucketedSame(b1, Link(b1, k, r));
  }

  /** Placement and totals do not look at the index. */
  lemma PutLinks<K>(b: Book<K>, c: Book<K>)
    requires Placed(b) && Totalled(b) && c.recs == b.recs && c.levels == b.levels
    ensures Placed(c) && Totalled(c)
  {
    assert forall key :: LevelAt(c, key) == LevelAt(b, key) && QtyAt(c, key) == QtyAt(b, key);
  }

  lemma RepriceWellFormed<K>(b: Book<K>, k: K, price: int32)
    requires WellFormed(b) && k in b.recs
    ensures WellFormed(Reprice(b, k, price))
    ensures Reprice(b, k, price).index == b.index
    ensures Reprice(b, k, price).recs == b.recs[k := b.recs[k].(price := price)]
  {
    hide Placed, Totalled, Bucketed;
    if b.recs[k].price != price {
      var b1 := Unlink(b, k);
      UnlinkPlaced(b, k);
      UnlinkTotalled(b, k);
      LinkPlaced(b1, k, b.recs[k].(price := price));
      LinkTotalled(b1, k, b.recs[k].(price := price));
      BucketedSame(b, Reprice(b, k, price));
    }
  }

  lemma SetQtyWellFormed<K>(b: Book<K>, k: K, qty: int32, delta: int)
    requires WellFormed(b) && k in b.recs && Congruent32(delta, qty - b.recs[k].qty)
    ensures WellFormed(SetQty(b, k, qty, delta))
  {
    hide Placed, Totalled, Bucketed;
    SetQtyPlaced(b, k, qty, delta);
    SetQtyTotalled(b, k, qty, delta);
    BucketedSame(b, SetQty(b, k, qty, delta));
  }

  lemma RequantifyWellFormed<K>(b: Book<K>, k: K, qty: int32)
    requires WellFormed(b) && k in b.recs
    ensures WellFormed(Requantify(b, k, qty))
  {
    hide Placed, Totalled, Bucketed, Wrap32;
    if b.recs[k].qty != qty {
      Wrap32Congruent(qty - b.recs[k].qty);
      SetQtyWellFormed(b, k, qty, Wrap32(qty - b.recs[k].qty));
    }
  }

  lemma ModifyWellFormed<K>(b: Book<K>, h: Option<K>, r: Rec)
    requires WellFormed(b) && Unused(b, h)
    ensures WellFormed(Modify(b, h, r))
  {
    hide Placed, Totalled, Bucketed;
    if r.id !in b.index {
      if h.Some? { AdmitWellFormed(b, h.value, r); }
    } else {
      var o := b.index[r.id];
      RepriceWellFormed(b, o, r.price);
      var b1 := Reprice(b, o, r.price);
      RequantifyWellFormed(b1, o, r.qty);
    }
  }

  lemma ModifyKnown<K>(b: Book<K>, k: K, r: Rec)
    requires WellFormed(b) && r.id in b.index && b.index[r.id] == k
    ensures k in b.recs && WellFormed(Modify(b, None, r))
    ensures Modify(b, None, r) == Requantify(Reprice(b, k, r.price), k, r.qty)
    ensures Modify(b, None, r).recs.Keys == b.recs.Keys
  {
    hide Placed, Totalled, Bucketed, Wrap32;
    RepriceWellFormed(b, k, r.price);
    RequantifyWellFormed(Reprice(b, k, r.price), k, r.qty);
  }

  lemma TakeOutWellFormed<K>(b: Book<K>, id: uint64)
    requires WellFormed(b)
    ensures WellFormed(TakeOut(b, id))
  {
    hide Placed, Totalled, Bucketed;
    if id in b.index {
      var b1 := Unlink(b, b.index[id]);
      UnlinkPlaced(b, b.index[id]);
      UnlinkTotalled(b, b.index[id]);
      PutLinks(b1, Delete(b1, id));
      BucketedSame(b, b1);
      DeleteBucketed(b1, id);
    }
  }

  lemma FillWellFormed<K>(b: Book<K>, id: uint64, qty: int32)
    requires WellFormed(b)
    ensures WellFormed(Fill(b, id, qty))
  {
    hide Placed, Totalled, Bucketed, Wrap32;
    if id != 0 && id in b.index {
      var k := b.index[id];
      var left := Wrap32(b.recs[k].qty - qty);
      WrapDelta(b.recs[k].qty, -(qty as int));
      SetQtyWellFormed(b, k, left, -(qty as int));
      TakeOutWellFormed(SetQty(b, k, left, -(qty as int)), id);
    }
  }

  lemma AdmitKeeps<K>(b: Book<K>, k: K, r: Rec)
    ensures Admit(b, k, r).recs.Keys == b.recs.Keys + {k}
  {
    hide Wrap64, HasRoom;
  }

  /** The order that a cancellation takes out, if it finds one. */
  ghost function TakenOut<K>(b: Book<K>, id: uint64): set<K> {
    if id in b.index then {b.index[id]} else {}
  }

  lemma CancelKeeps<K>(b: Book<K>, id: uint64)
    requires WellFormed(b)
    ensures Cancel(b, id).recs.Keys == b.recs.Keys - TakenOut(b, id) && TakenOut(b, id) <= b.recs.Keys
  {
    hide Placed, Totalled, Bucketed, Wrap64;
  }

  /** The order that a fill uses up, if it does. */
  ghost function FilledUp<K>(b: Book<K>, id: uint64, qty: int32): set<K> {
    if id != 0 && id in b.index && b.index[id] in b.recs && Wrap32(b.recs[b.index[id]].qty - qty) <= 0
    then {b.index[id]} else {}
  }

  lemma FillKeeps<K>(b: Book<K>, id: uint64, qty: int32)
    ensures Fill(b, id, qty).recs.Keys == b.recs.Keys - FilledUp(b, id, qty)
    ensures FilledUp(b, id, qty) <= b.recs.Keys
    ensures id == 0 || id !in b.index ==> Fill(b, id, qty) == b && FilledUp(b, id, qty) == {}
  {
    hide Wrap32, Wrap64;
  }

  lemma RestoreKeeps<K>(b: Book<K>, h: Option<K>, r: Rec)
    ensures b.recs.Keys <= Restore(b, h, r).recs.Keys <= b.recs.Keys + if h.Some? then {h.value} else {}
    ensures h.Some? && r.id != 0 && r.id !in b.index ==> h.value in Restore(b, h, r).recs
  {
    hide Wrap32;
  }

  lemma WrapDelta(x: int, d: int)
    ensures Congruent32(d, Wrap32(x + d) - x)
  {
    Wrap32Congruent(x + d);
    var c :| Wrap32(x + d) - (x + d) == Times32(c);
    assert d - (Wrap32(x + d) - x) == Times32(-c);
  }

  lemma RestoreWellFormed<K>(b: Book<K>, h: Option<K>, r: Rec)
    requires WellFormed(b) && Unused(b, h)
    ensures WellFormed(Restore(b, h, r))
  {
    hide Placed, Totalled, Bucketed, Wrap32;
    if r.id == 0 {
    } else if r.id !in b.index {
      if h.Some? { AdmitWellFormed(b, h.value, r); }
    } else {
      var o := b.index[r.id];
      WrapDelta(b.recs[o].qty, r.qty);
      SetQtyWellFormed(b, o, Wrap32(b.recs[o].qty + r.qty), r.qty);
    }
  }

  lemma EmptyWellFormed<K>(mask: nat)
    ensures WellFormed(Empty<K>(mask))
  {
    var b := Empty<K>(mask);
    CongruentSelf(0);
    forall slot: nat ensures |BucketIds(b.index, b.mask, slot)| <= BUCKET_SIZE {
      assert BucketIds(b.index, b.mask, slot) == {};
    }
  }
}
