/** Level totals and quantities: when a total is exactly the sum of its orders, what a fill takes from
    it, and how the grand total moves over a run. */
module Totals {
  import opened Core
  import opened Sequences
  import opened Books
  import opened BookInvariants
  import opened Actions

  ghost predicate Exact<K>(b: Book<K>) {
    forall key :: TotalAt(b, key) == QtyAt(b, key)
  }

  function Min(x: int, y: int): int {
    if x <= y then x else y
  }

  // ---- The guards: no value of the step leaves its machine type ----

  ghost predicate LinkFits<K>(b: Book<K>, r: Rec) {
    Fits64(TotalAt(b, KeyOf(r)) + r.qty)
  }

  ghost predicate UnlinkFits<K>(b: Book<K>, k: K)
    requires k in b.recs
  {
    Fits64(TotalAt(b, KeyOf(b.recs[k])) - b.recs[k].qty)
  }

  ghost predicate RequantifyFits<K>(b: Book<K>, k: K, qty: int32)
    requires k in b.recs
  {
    var r := b.recs[k];
    Fits32(qty - r.qty) && Fits64(TotalAt(b, KeyOf(r)) + qty - r.qty)
  }

  ghost predicate MoveFits<K>(b: Book<K>, k: K, price: int32, qty: int32)
    requires k in b.recs
  {
    var r := b.recs[k];
    UnlinkFits(b, k) && Fits32(qty - r.qty) && Fits64(TotalAt(b, KeyOf(r.(price := price))) + qty)
  }

  ghost predicate ModifyFits<K>(b: Book<K>, r: Rec)
    requires Indexed(b)
  {
    if r.id !in b.index then LinkFits(b, r)
    else if b.recs[b.index[r.id]].price == r.price then RequantifyFits(b, b.index[r.id], r.qty)
    else MoveFits(b, b.index[r.id], r.price, r.qty)
  }

  ghost predicate CancelFits<K>(b: Book<K>, id: uint64)
    requires Indexed(b)
  {
    id in b.index ==> UnlinkFits(b, b.index[id])
  }

  ghost predicate FillFits<K>(b: Book<K>, id: uint64, qty: int32)
    requires Indexed(b)
  {
    id != 0 && id in b.index ==>
      var r := b.recs[b.index[id]];
      Fits32(r.qty - qty) && Fits64(TotalAt(b, KeyOf(r)) - Min(r.qty, qty))
  }

  ghost predicate RestoreFits<K>(b: Book<K>, r: Rec)
    requires Indexed(b)
  {
    r.id != 0 ==>
      if r.id !in b.index then LinkFits(b, r)
      else var o := b.recs[b.index[r.id]]; Fits32(o.qty + r.qty) && Fits64(TotalAt(b, KeyOf(o)) + r.qty)
  }

  // ---- Exactly when totals stay exact ----

  lemma LinkExact<K>(b: Book<K>, k: K, r: Rec)
    requires Placed(b) && Exact(b) && k !in b.recs
    ensures Exact(Link(b, k, r)) <==> LinkFits(b, r)
  {
    hide Placed, QtyAt, Wrap64;
    var c := Link(b, k, r);
    forall key ensures QtyAt(c, key) == QtyAt(b, key) + if key == KeyOf(r) then r.qty else 0 {
      LinkQty(b, k, r, key);
    }
    Wrap64Off(TotalAt(b, KeyOf(r)) + r.qty, TotalAt(b, KeyOf(r)) + r.qty, 0);
    assert TotalAt(c, KeyOf(r)) == Wrap64(TotalAt(b, KeyOf(r)) + r.qty);
  }

  lemma UnlinkExact<K>(b: Book<K>, k: K)
    requires Placed(b) && Exact(b) && k in b.recs
    ensures Exact(Unlink(b, k)) <==> UnlinkFits(b, k)
  {
    hide Placed, QtyAt, Wrap64;
    var c, r := Unlink(b, k), b.recs[k];
    forall key ensures QtyAt(c, key) == QtyAt(b, key) - if key == KeyOf(r) then r.qty else 0 {
      UnlinkQty(b, k, key);
    }
    Wrap64Off(TotalAt(b, KeyOf(r)) - r.qty, TotalAt(b, KeyOf(r)) - r.qty, 0);
    assert TotalAt(c, KeyOf(r)) == Wrap64(TotalAt(b, KeyOf(r)) - r.qty);
  }

  lemma SetQtyExact<K>(b: Book<K>, k: K, qty: int32, delta: int)
    requires Placed(b) && Exact(b) && k in b.recs
    ensures Exact(SetQty(b, k, qty, delta)) <==>
              Wrap64(TotalAt(b, KeyOf(b.recs[k])) + delta) == TotalAt(b, KeyOf(b.recs[k])) + qty - b.recs[k].qty
  {
    hide Placed, QtyAt, Wrap64;
    var c, r := SetQty(b, k, qty, delta), b.recs[k];
    forall key ensures QtyAt(c, key) == QtyAt(b, key) + if key == KeyOf(r) then qty - r.qty else 0 {
      SetQtyQty(b, k, qty, delta, key);
    }
    assert TotalAt(c, KeyOf(r)) == Wrap64(TotalAt(b, KeyOf(r)) + delta);
  }

  lemma RequantifyExact<K>(b: Book<K>, k: K, qty: int32)
    requires Placed(b) && Exact(b) && k in b.recs
    ensures Exact(Requantify(b, k, qty)) <==> RequantifyFits(b, k, qty)
  {
    hide Placed, Exact, Wrap32, Wrap64;
    var r := b.recs[k];
    var t := TotalAt(b, KeyOf(r));
    if r.qty != qty {
      var d := Wrap32Class(qty - r.qty);
      SetQtyExact(b, k, qty, Wrap32(qty - r.qty));
      Wrap64Off(t + Wrap32(qty - r.qty), t + qty - r.qty, -d);
    }
  }

  /** What a price change followed by a quantity change leaves at the two levels. */
  lemma MoveEffect<K>(b: Book<K>, k: K, price: int32, qty: int32)
    requires Placed(b) && k in b.recs && b.recs[k].price != price
    ensures var r := b.recs[k];
            var s := r.(price := price);
            var c := Requantify(Reprice(b, k, price), k, qty);
            && (forall key :: QtyAt(c, key)
                 == QtyAt(b, key) - (if key == KeyOf(r) then r.qty else 0) + if key == KeyOf(s) then qty else 0)
            && TotalAt(c, KeyOf(r)) == Wrap64(TotalAt(b, KeyOf(r)) - r.qty)
            && TotalAt(c, KeyOf(s)) == Wrap64(TotalAt(b, KeyOf(s)) + r.qty + Wrap32(qty - r.qty))
            && (forall key :: key != KeyOf(r) && key != KeyOf(s) ==> TotalAt(c, key) == TotalAt(b, key))
  {
    hide Placed, QtyAt, Wrap32, Wrap64;
    var r := b.recs[k];
    var s := r.(price := price);
    var b1 := Unlink(b, k);
    var b2 := Link(b1, k, s);
    var c := Requantify(b2, k, qty);
    UnlinkPlaced(b, k);
    LinkPlaced(b1, k, s);
    forall key
      ensures QtyAt(c, key) == QtyAt(b, key) - (if key == KeyOf(r) then r.qty else 0)
              + if key == KeyOf(s) then qty else 0
    {
      UnlinkQty(b, k, key);
      LinkQty(b1, k, s, key);
      SetQtyQty(b2, k, qty, Wrap32(qty - r.qty), key);
    }
    Wrap64Add(TotalAt(b, KeyOf(s)) + r.qty, Wrap32(qty - r.qty));
  }

  /** A price change moves the whole quantity; overflow on the way in may still be undone by the
      quantity change that follows, so the guard looks at the net amount. */
  lemma MoveExact<K>(b: Book<K>, k: K, price: int32, qty: int32)
    requires Placed(b) && Exact(b) && k in b.recs && b.recs[k].price != price
    ensures Exact(Requantify(Reprice(b, k, price), k, qty)) <==> MoveFits(b, k, price, qty)
  {
    hide Placed, QtyAt, Wrap32, Wrap64, TotalAt, Requantify, Reprice;
    var r := b.recs[k];
    var s := r.(price := price);
    var c := Requantify(Reprice(b, k, price), k, qty);
    MoveEffect(b, k, price, qty);
    var t1, t2 := TotalAt(b, KeyOf(r)), TotalAt(b, KeyOf(s));
    Wrap64Off(t1 - r.qty, t1 - r.qty, 0);
    var d := Wrap32Class(qty - r.qty);
    Wrap64Off(t2 + r.qty + Wrap32(qty - r.qty), t2 + qty, -d);
  }

  /** What one leg of a trade leaves at the level of the order it hits. */
  lemma FillEffect<K>(b: Book<K>, id: uint64, qty: int32)
    requires WellFormed(b) && id != 0 && id in b.index
    ensures var r := b.recs[b.index[id]];
            var left := Wrap32(r.qty - qty);
            var c := Fill(b, id, qty);
            && (forall key :: key != KeyOf(r) ==> LevelAt(c, key) == LevelAt(b, key) && QtyAt(c, key) == QtyAt(b, key))
            && TotalAt(c, KeyOf(r)) == Wrap64(TotalAt(b, KeyOf(r)) - qty - (if left <= 0 then left else 0))
            && QtyAt(c, KeyOf(r)) == QtyAt(b, KeyOf(r)) - r.qty + (if left <= 0 then 0 else left)
            && (left > 0 ==> c == SetQty(b, b.index[id], left, -(qty as int)))
            && (left <= 0 ==> Fifo(c, KeyOf(r)) == Without(Fifo(b, KeyOf(r)), b.index[id]))
  {
    hide Placed, QtyAt, Wrap32, Wrap64, Totalled, Bucketed;
    var k := b.index[id];
    var r := b.recs[k];
    var left := Wrap32(r.qty - qty);
    var b1 := SetQty(b, k, left, -(qty as int));
    var c := Fill(b, id, qty);
    SetQtyPlaced(b, k, left, -(qty as int));
    forall key ensures QtyAt(b1, key) == QtyAt(b, key) + if key == KeyOf(r) then left - r.qty else 0 {
      SetQtyQty(b, k, left, -(qty as int), key);
    }
    if left <= 0 {
      var b2 := Unlink(b1, k);
      forall key ensures QtyAt(c, key) == QtyAt(b1, key) - if key == KeyOf(r) then left else 0 {
        UnlinkQty(b1, k, key);
        QtySame(b2, c, key);
      }
      Wrap64Add(TotalAt(b, KeyOf(r)) - qty, -(left as int));
      assert TotalAt(c, KeyOf(r)) == Wrap64(TotalAt(b1, KeyOf(r)) - left);
    }
  }

  lemma QtySame<K>(b: Book<K>, c: Book<K>, key: Key)
    requires b.recs == c.recs && b.levels == c.levels
    ensures QtyAt(b, key) == QtyAt(c, key)
  {
  }

  lemma FillExact<K>(b: Book<K>, id: uint64, qty: int32)
    requires WellFormed(b) && Exact(b)
    ensures Exact(Fill(b, id, qty)) <==> FillFits(b, id, qty)
  {
    hide Placed, QtyAt, Wrap32, Wrap64, Totalled, Bucketed, Fill;
    if id != 0 && id in b.index {
      FillEffect(b, id, qty);
      var r := b.recs[b.index[id]];
      var t := TotalAt(b, KeyOf(r));
      var left := Wrap32(r.qty - qty);
      var d := Wrap32Class(r.qty - qty);
      if left <= 0 {
        Wrap64Off(t - qty - left, t - r.qty, d);
      } else {
        Wrap64Off(t - qty, t - r.qty + left, d);
      }
    } else {
      assert Fill(b, id, qty) == b by { FillIdle(b, id, qty); }
    }
  }

  lemma FillIdle<K>(b: Book<K>, id: uint64, qty: int32)
    requires id == 0 || id !in b.index
    ensures Fill(b, id, qty) == b
  {
  }

  lemma AdmitExact<K>(b: Book<K>, k: K, r: Rec)
    requires WellFormed(b) && Exact(b) && k !in b.recs
    ensures Exact(Admit(b, k, r)) <==> LinkFits(b, r)
  {
    hide Placed, Totalled, Bucketed, HasRoom, Link, Wrap64;
    var b1 := Put(b, r.id, k);
    PutLinks(b, b1);
    assert forall key :: TotalAt(b1, key) == TotalAt(b, key) && QtyAt(b1, key) == QtyAt(b, key);
    LinkExact(b1, k, r);
  }

  lemma CancelExact<K>(b: Book<K>, id: uint64)
    requires WellFormed(b) && Exact(b)
    ensures Exact(Cancel(b, id)) <==> CancelFits(b, id)
  {
    hide Placed, Totalled, Bucketed, Unlink;
    if id in b.index {
      UnlinkExact(b, b.index[id]);
      var c := Unlink(b, b.index[id]);
      assert forall key :: TotalAt(Cancel(b, id), key) == TotalAt(c, key) && QtyAt(Cancel(b, id), key) == QtyAt(c, key);
    }
  }

  lemma RestoreExact<K>(b: Book<K>, k: K, qty: int32)
    requires Placed(b) && Exact(b) && k in b.recs
    ensures Exact(SetQty(b, k, Wrap32(b.recs[k].qty + qty), qty)) <==>
              Fits32(b.recs[k].qty + qty) && Fits64(TotalAt(b, KeyOf(b.recs[k])) + qty)
  {
    hide Placed, Exact, Wrap32, Wrap64;
    var r := b.recs[k];
    var t := TotalAt(b, KeyOf(r));
    var d := Wrap32Class(r.qty + qty);
    SetQtyExact(b, k, Wrap32(r.qty + qty), qty);
    Wrap64Off(t + qty, t + Wrap32(r.qty + qty) - r.qty, d);
  }

  // ---- Steps and runs ----

  ghost predicate StepFits<K>(b: Book<K>, s: Step<K>)
    requires Indexed(b)
  {
    match s.act
    case Add(r) => LinkFits(b, r)
    case Revise(r) => ModifyFits(b, r)
    case Drop(id) => CancelFits(b, id)
    case Take(id, quantity) => FillFits(b, id, quantity)
    case Return(r) => RestoreFits(b, r)
  }

  /** From a book whose totals are exact, a step leaves them exact if and only if none of its int32
      differences and int64 sums leaves its type. */
  lemma StepExact<K>(b: Book<K>, s: Step<K>)
    requires WellFormed(b) && Exact(b) && Served(b, s)
    ensures Exact(Apply(b, s)) <==> StepFits(b, s)
  {
    hide Placed, Totalled, Bucketed, Exact, Admit, Fill, Cancel, Requantify, Reprice, SetQty;
    hide LinkFits, RequantifyFits, MoveFits, FillFits, CancelFits, Fits32, Fits64, Wrap32;
    match s.act
    case Add(r) => AdmitExact(b, s.h.value, r);
    case Revise(r) =>
      if r.id !in b.index { AdmitExact(b, s.h.value, r); }
      else {
        var k := b.index[r.id];
        if b.recs[k].price == r.price {
          RequantifyExact(b, k, r.qty);
          assert Reprice(b, k, r.price) == b by { RepriceIdle(b, k); }
        } else { MoveExact(b, k, r.price, r.qty); }
      }
    case Drop(id) => CancelExact(b, id);
    case Take(id, quantity) => FillExact(b, id, quantity);
    case Return(r) =>
      if r.id != 0 {
        if r.id !in b.index { AdmitExact(b, s.h.value, r); } else { RestoreExact(b, b.index[r.id], r.qty); }
      }
  }

  lemma RepriceIdle<K>(b: Book<K>, k: K)
    requires k in b.recs
    ensures Reprice(b, k, b.recs[k].price) == b
  {
  }

  ghost function SumTotals(m: map<Key, int64>): int {
    if m == map[] then 0 else
    var key :| key in m;
    m[key] + SumTotals(m - {key})
  }

  ghost function At(m: map<Key, int64>, key: Key): int {
    if key in m then m[key] else 0
  }

  lemma {:induction false} SumTotalsSplit(m: map<Key, int64>, key: Key)
    ensures SumTotals(m) == At(m, key) + SumTotals(m - {key})
  {
    if key in m {
      var first :| first in m && SumTotals(m) == m[first] + SumTotals(m - {first});
      if first != key {
        SumTotalsSplit(m - {first}, key);
        SumTotalsSplit(m - {key}, first);
        assert m - {first} - {key} == m - {key} - {first};
      }
    } else {
      assert m - {key} == m;
    }
  }

  ghost function LevelTotals<K>(b: Book<K>): map<Key, int64> {
    map key | key in b.levels :: b.levels[key].total
  }

  /** The sum of TotalQty over every level of both trees. */
  ghost function GrandTotal<K>(b: Book<K>): int {
    SumTotals(LevelTotals(b))
  }

  lemma OneLevelChanged<K>(b: Book<K>, c: Book<K>, key: Key)
    requires forall k :: k != key ==> LevelAt(b, k) == LevelAt(c, k) && (k in b.levels <==> k in c.levels)
    ensures GrandTotal(c) == GrandTotal(b) - TotalAt(b, key) + TotalAt(c, key)
  {
    SumTotalsSplit(LevelTotals(b), key);
    SumTotalsSplit(LevelTotals(c), key);
    forall k | k in LevelTotals(b) - {key} ensures LevelTotals(b)[k] == LevelTotals(c)[k] {
      assert LevelAt(b, k) == LevelAt(c, k);
    }
    forall k | k in LevelTotals(c) - {key} ensures k in LevelTotals(b) { }
    assert LevelTotals(b) - {key} == LevelTotals(c) - {key};
  }

  /** What a step adds to the quantity on the book: added, plus the change of a modification, plus
      restored, minus cancelled, minus what a fill can take. */
  ghost function Flow<K>(b: Book<K>, a: Act): int
    requires Indexed(b)
  {
    match a
    case Add(r) => r.qty
    case Revise(r) => if r.id in b.index then r.qty - b.recs[b.index[r.id]].qty else r.qty
    case Drop(id) => if id in b.index then -(b.recs[b.index[id]].qty as int) else 0
    case Take(id, quantity) => if id != 0 && id in b.index then -Min(b.recs[b.index[id]].qty, quantity) else 0
    case Return(r) => if r.id != 0 then r.qty else 0
  }

  lemma LinkGrand<K>(b: Book<K>, k: K, r: Rec)
    ensures GrandTotal(Link(b, k, r)) == GrandTotal(b) - TotalAt(b, KeyOf(r)) + Wrap64(TotalAt(b, KeyOf(r)) + r.qty)
  {
    hide GrandTotal, Wrap64;
    OneLevelChanged(b, Link(b, k, r), KeyOf(r));
  }

  lemma UnlinkGrand<K>(b: Book<K>, k: K)
    requires k in b.recs
    ensures var r := b.recs[k];
            GrandTotal(Unlink(b, k)) == GrandTotal(b) - TotalAt(b, KeyOf(r)) + Wrap64(TotalAt(b, KeyOf(r)) - r.qty)
  {
    hide GrandTotal, Wrap64;
    OneLevelChanged(b, Unlink(b, k), KeyOf(b.recs[k]));
  }

  lemma SetQtyGrand<K>(b: Book<K>, k: K, qty: int32, delta: int)
    requires k in b.recs
    ensures var r := b.recs[k];
            GrandTotal(SetQty(b, k, qty, delta))
              == GrandTotal(b) - TotalAt(b, KeyOf(r)) + Wrap64(TotalAt(b, KeyOf(r)) + delta)
  {
    hide GrandTotal, Wrap64;
    OneLevelChanged(b, SetQty(b, k, qty, delta), KeyOf(b.recs[k]));
  }

  lemma MoveGrand<K>(b: Book<K>, k: K, price: int32, qty: int32)
    requires Placed(b) && k in b.recs && b.recs[k].price != price && MoveFits(b, k, price, qty)
    ensures GrandTotal(Requantify(Reprice(b, k, price), k, qty)) == GrandTotal(b) + qty - b.recs[k].qty
  {
    hide GrandTotal, Placed, QtyAt, Wrap32, Wrap64;
    var r := b.recs[k];
    var s := r.(price := price);
    var c := Requantify(Reprice(b, k, price), k, qty);
    MoveEffect(b, k, price, qty);
    OneLevelChanged(b, Unlink(b, k), KeyOf(r));
    OneLevelChanged(Unlink(b, k), c, KeyOf(s));
    assert Wrap32(qty - r.qty) == qty - r.qty;
  }

  lemma FillGrand<K>(b: Book<K>, id: uint64, qty: int32)
    requires WellFormed(b) && id != 0 && id in b.index && FillFits(b, id, qty)
    ensures GrandTotal(Fill(b, id, qty)) == GrandTotal(b) - Min(b.recs[b.index[id]].qty, qty)
  {
    hide GrandTotal, Placed, QtyAt, Wrap32, Wrap64, Totalled, Bucketed;
    var r := b.recs[b.index[id]];
    FillEffect(b, id, qty);
    assert Wrap32(r.qty - qty) == r.qty - qty;
    OneLevelChanged(b, Fill(b, id, qty), KeyOf(r));
  }

  lemma SameLevels<K>(b: Book<K>, c: Book<K>)
    requires b.levels == c.levels
    ensures GrandTotal(b) == GrandTotal(c)
  {
  }

  lemma AdmitGrand<K>(b: Book<K>, k: K, r: Rec)
    requires LinkFits(b, r)
    ensures GrandTotal(Admit(b, k, r)) == GrandTotal(b) + r.qty
  {
    hide GrandTotal, HasRoom, Link, Wrap64;
    var b1 := Put(b, r.id, k);
    SameLevels(b, b1);
    LinkGrand(b1, k, r);
    assert TotalAt(b1, KeyOf(r)) == TotalAt(b, KeyOf(r));
  }

  lemma StepConserves<K>(b: Book<K>, s: Step<K>)
    requires WellFormed(b) && Served(b, s) && StepFits(b, s)
    ensures GrandTotal(Apply(b, s)) == GrandTotal(b) + Flow(b, s.act)
  {
    hide GrandTotal, Placed, Totalled, Bucketed, Admit, Fill, Reprice, SetQty, Unlink, TotalAt, Wrap32, Wrap64,
      MoveFits, FillFits;
    match s.act
    case Add(r) => AdmitGrand(b, s.h.value, r);
    case Revise(r) =>
      if r.id !in b.index { AdmitGrand(b, s.h.value, r); }
      else {
        var k := b.index[r.id];
        if b.recs[k].price == r.price {
          RepriceIdle(b, k);
          SetQtyGrand(b, k, r.qty, Wrap32(r.qty - b.recs[k].qty));
        } else { MoveGrand(b, k, r.price, r.qty); }
      }
    case Drop(id) =>
      if id in b.index {
        UnlinkGrand(b, b.index[id]);
        SameLevels(Unlink(b, b.index[id]), Apply(b, s));
      }
    case Take(id, quantity) =>
      if id != 0 && id in b.index { FillGrand(b, id, quantity); } else { FillIdle(b, id, quantity); }
    case Return(r) =>
      if r.id != 0 {
        if r.id !in b.index { AdmitGrand(b, s.h.value, r); }
        else {
          var k := b.index[r.id];
          SetQtyGrand(b, k, Wrap32(b.recs[k].qty + r.qty), r.qty);
        }
      }
  }

  ghost predicate RunFits<K>(b: Book<K>, steps: seq<Step<K>>)
    requires WellFormed(b) && ServedAll(b, steps)
    decreases |steps|
  {
    steps == [] ||
    (ApplyWellFormed(b, steps[0]);
     StepFits(b, steps[0]) && RunFits(Apply(b, steps[0]), steps[1..]))
  }

  ghost function Flows<K>(b: Book<K>, steps: seq<Step<K>>): int
    requires WellFormed(b) && ServedAll(b, steps)
    decreases |steps|
  {
    if steps == [] then 0 else
      ApplyWellFormed(b, steps[0]);
      Flow(b, steps[0].act) + Flows(Apply(b, steps[0]), steps[1..])
  }

  /** Every step of the run is served and none leaves its machine types. */
  ghost predicate NothingOverflows<K>(b: Book<K>, steps: seq<Step<K>>) {
    WellFormed(b) && ServedAll(b, steps) && RunFits(b, steps)
  }

  /** Quantity is conserved over every run that overflows nothing: totals stay the sums of their orders,
      and the total of all levels moves by what the messages added and took. */
  lemma {:induction false} RunConserves<K>(b: Book<K>, steps: seq<Step<K>>)
    requires Exact(b) && NothingOverflows(b, steps)
    ensures Exact(Run(b, steps)) && GrandTotal(Run(b, steps)) == GrandTotal(b) + Flows(b, steps)
    decreases |steps|
  {
    hide WellFormed, Exact, GrandTotal, Apply, StepFits;
    if steps != [] {
      ApplyWellFormed(b, steps[0]);
      StepExact(b, steps[0]);
      StepConserves(b, steps[0]);
      RunConserves(Apply(b, steps[0]), steps[1..]);
    }
  }

  /** A trade cancel that adds one to the largest quantity wraps it, and the total of the level is no longer
      the sum of its orders. */
  lemma RestoreOverflows<K>(k: K)
    ensures var r := Rec(1, SIDE_BUY, 100, 0x7fff_ffff);
            var b := Admit(Empty<K>(1023), k, r);
            Exact(b) && !Exact(Apply(b, Step(Return(r.(qty := 1)), None)))
  {
    hide Placed, Totalled, Bucketed, QtyAt, Admit, HasRoom, Wrap32, Wrap64;
    var e, r := Empty<K>(1023), Rec(1, SIDE_BUY, 100, 0x7fff_ffff);
    var b := Admit(e, k, r);
    EmptyWellFormed<K>(1023);
    assert Exact(e) by { EmptyExact<K>(1023); }
    AdmitExact(e, k, r);
    AdmitWellFormed(e, k, r);
    assert k in b.recs && b.recs[k] == r && r.id in b.index && b.index[r.id] == k by { FirstAdmitted(k, r); }
    RestoreExact(b, k, 1);
  }

  lemma EmptyExact<K>(mask: nat)
    ensures Exact(Empty<K>(mask)) && GrandTotal(Empty<K>(mask)) == 0
  {
    assert LevelTotals(Empty<K>(mask)) == map[];
  }

  lemma FirstAdmitted<K>(k: K, r: Rec)
    ensures var b := Admit(Empty<K>(1023), k, r); k in b.recs && b.recs[k] == r && r.id in b.index && b.index[r.id] == k
  {
    assert BucketIds(Empty<K>(1023).index, 1023, Slot(r.id, 1023)) == {};
  }

  // ---- Fills ----

  ghost predicate NonNegative<K>(b: Book<K>) {
    forall k :: k in b.recs ==> b.recs[k].qty >= 0
  }

  /** A fill of q on a resting Q lowers its level's total by exactly min(q, Q), over-fills included, if and only if
      neither the difference nor the sum overflows; it touches no other level. */
  lemma FillTakesMin<K>(b: Book<K>, id: uint64, qty: int32)
    requires WellFormed(b) && id != 0 && id in b.index
    ensures var r, c := b.recs[b.index[id]], Fill(b, id, qty);
            && (TotalAt(c, KeyOf(r)) == TotalAt(b, KeyOf(r)) - Min(r.qty, qty) <==> FillFits(b, id, qty))
            && (forall key :: key != KeyOf(r) ==> TotalAt(c, key) == TotalAt(b, key))
  {
    hide Placed, Wrap64, Totalled, Bucketed, Fill;
    FillEffect(b, id, qty);
    var r := b.recs[b.index[id]];
    var t: int, left: int := TotalAt(b, KeyOf(r)), Wrap32(r.qty - qty);
    Wrap64Near(t - qty - (if left <= 0 then left else 0), t - Min(r.qty, qty));
  }
}
