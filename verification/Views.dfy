/** What the id index knows: side, price and quantity by id. The next view follows from the last one and
    the message alone, whatever objects carry the orders and whatever orphans the levels hold. */
module Views {
  import opened Core
  import opened Books
  import opened Actions

  datatype Entry = Entry(side: uint8, price: int32, qty: int)

  function EntryOf(r: Rec): Entry {
    Entry(r.side, r.price, r.qty)
  }

  ghost function View<K>(b: Book<K>): map<uint64, Entry> {
    map id | id in b.index && b.index[id] in b.recs :: EntryOf(b.recs[b.index[id]])
  }

  lemma ViewKeys<K>(b: Book<K>)
    requires Indexed(b)
    ensures View(b).Keys == b.index.Keys
    ensures forall id :: id in b.index ==> View(b)[id] == EntryOf(b.recs[b.index[id]])
  {
  }

  lemma ViewRoom<K>(b: Book<K>, id: uint64)
    requires Indexed(b)
    ensures HasRoom(View(b), b.mask, id) <==> CanPut(b, id)
  {
    assert BucketIds(View(b), b.mask, Slot(id, b.mask)) == BucketIds(b.index, b.mask, Slot(id, b.mask));
  }

  // ---- One message ----

  /** An id comes in when its bucket has room for it. */
  ghost function Entered(v: map<uint64, Entry>, mask: nat, id: uint64, e: Entry): map<uint64, Entry> {
    if HasRoom(v, mask, id) then v[id := e] else v
  }

  ghost function Filled(v: map<uint64, Entry>, id: uint64, q: int32): map<uint64, Entry> {
    if id == 0 || id !in v then v
    else if Wrap32(v[id].qty - q) <= 0 then v - {id}
    else v[id := v[id].(qty := Wrap32(v[id].qty - q))]
  }

  ghost function Restored(v: map<uint64, Entry>, mask: nat, r: Rec): map<uint64, Entry> {
    if r.id == 0 then v
    else if r.id in v then v[r.id := v[r.id].(qty := Wrap32(v[r.id].qty + r.qty))]
    else Entered(v, mask, r.id, EntryOf(r))
  }

  ghost function ViewStep(v: map<uint64, Entry>, mask: nat, a: Act): map<uint64, Entry> {
    match a
    case Add(r) => Entered(v, mask, r.id, EntryOf(r))
    case Revise(r) =>
      if r.id in v then v[r.id := v[r.id].(price := r.price, qty := r.qty)]
      else Entered(v, mask, r.id, EntryOf(r))
    case Drop(id) => v - {id}
    case Take(id, q) => Filled(v, id, q)
    case Return(r) => Restored(v, mask, r)
  }

  ghost function ViewRun(v: map<uint64, Entry>, mask: nat, acts: seq<Act>): map<uint64, Entry>
    decreases |acts|
  {
    if acts == [] then v else ViewRun(ViewStep(v, mask, acts[0]), mask, acts[1..])
  }

  lemma AdmitView<K>(b: Book<K>, k: K, r: Rec)
    requires Indexed(b) && k !in b.recs
    ensures View(Admit(b, k, r)) == Entered(View(b), b.mask, r.id, EntryOf(r))
  {
    hide HasRoom, Wrap64;
    ViewRoom(b, r.id);
  }

  lemma TakeOutView<K>(b: Book<K>, id: uint64)
    requires Indexed(b)
    ensures View(TakeOut(b, id)) == View(b) - {id}
  {
    hide Wrap64;
    if id !in b.index { assert View(b) - {id} == View(b); }
  }

  lemma SetQtyView<K>(b: Book<K>, id: uint64, qty: int32, delta: int)
    requires Indexed(b) && id in b.index
    ensures var c := SetQty(b, b.index[id], qty, delta);
            && Indexed(c) && c.index == b.index && id in View(b)
            && View(c) == View(b)[id := View(b)[id].(qty := qty)]
  {
    hide Wrap64;
  }

  lemma FillView<K>(b: Book<K>, id: uint64, q: int32)
    requires Indexed(b)
    ensures View(Fill(b, id, q)) == Filled(View(b), id, q)
  {
    hide Wrap32, TakeOut, SetQty, View;
    ViewKeys(b);
    if id != 0 && id in b.index {
      var left := Wrap32(b.recs[b.index[id]].qty - q);
      SetQtyView(b, id, left, -(q as int));
      TakeOutView(SetQty(b, b.index[id], left, -(q as int)), id);
    }
  }

  lemma ModifyView<K>(b: Book<K>, r: Rec)
    requires Indexed(b) && r.id in b.index
    ensures View(Modify(b, None, r)) == View(b)[r.id := View(b)[r.id].(price := r.price, qty := r.qty)]
  {
    hide Wrap32, Wrap64;
  }

  /** The view after a step is the view before it and the act, nothing more. */
  lemma StepView<K>(b: Book<K>, s: Step<K>)
    requires Indexed(b) && Served(b, s)
    ensures View(Apply(b, s)) == ViewStep(View(b), b.mask, s.act)
  {
    hide View, Admit, Fill, Cancel, Entered, Filled, SetQty, Wrap32, Reprice, Requantify, HasRoom;
    ViewKeys(b);
    match s.act
    case Add(r) => AdmitView(b, s.h.value, r);
    case Revise(r) => if r.id in b.index { ModifyView(b, r); } else { AdmitView(b, s.h.value, r); }
    case Drop(id) => CancelView(b, id);
    case Take(id, q) => FillView(b, id, q);
    case Return(r) =>
      if r.id != 0 {
        if r.id in b.index { SetQtyView(b, r.id, Wrap32(b.recs[b.index[r.id]].qty + r.qty), r.qty); }
        else { AdmitView(b, s.h.value, r); }
      }
  }

  lemma CancelView<K>(b: Book<K>, id: uint64)
    requires Indexed(b)
    ensures View(Cancel(b, id)) == View(b) - {id}
  {
    hide TakeOut, View;
    TakeOutView(b, id);
  }

  lemma ApplyMask<K>(b: Book<K>, s: Step<K>)
    ensures Apply(b, s).mask == b.mask
  {
    hide HasRoom, Wrap32, Wrap64;
  }

  lemma ApplyUnused<K>(b: Book<K>, s: Step<K>)
    requires Served(b, s)
    ensures Unused(b, s.h)
  {
  }

  lemma WellIndexed<K>(b: Book<K>)
    requires WellFormed(b)
    ensures Indexed(b)
  {
  }

  /** What a contract's index knows is a function of the messages, for every run. */
  lemma {:induction false} RunView<K>(b: Book<K>, steps: seq<Step<K>>, acts: seq<Act>)
    requires WellFormed(b) && ServedAll(b, steps) && Enacts(steps, acts)
    ensures View(Run(b, steps)) == ViewRun(View(b), b.mask, acts)
    decreases |steps|
  {
    hide WellFormed, Indexed, Apply, Served, View, ViewStep;
    if steps != [] {
      WellIndexed(b);
      StepView(b, steps[0]);
      ApplyMask(b, steps[0]);
      ApplyUnused(b, steps[0]);
      ApplyWellFormed(b, steps[0]);
      RunView(Apply(b, steps[0]), steps[1..], acts[1..]);
    }
  }

  // ---- Room ----

  lemma {:induction false} Fewer(s: set<uint64>, t: set<uint64>)
    requires s <= t
    ensures |s| <= |t|
  {
    if s != {} {
      var x :| x in s;
      Fewer(s - {x}, t - {x});
    }
  }

  /** No bucket exceeds its size. */
  ghost predicate Bounded(v: map<uint64, Entry>, mask: nat) {
    forall slot :: |BucketIds(v, mask, slot)| <= BUCKET_SIZE
  }

  lemma ViewBounded<K>(b: Book<K>)
    requires Indexed(b) && Bucketed(b)
    ensures Bounded(View(b), b.mask)
  {
    forall slot: nat ensures |BucketIds(View(b), b.mask, slot)| <= BUCKET_SIZE {
      assert BucketIds(View(b), b.mask, slot) == BucketIds(b.index, b.mask, slot);
    }
  }

  /** A bucket that once held an id has room for it again while nothing new has come in. */
  lemma RoomBack(v: map<uint64, Entry>, w: map<uint64, Entry>, mask: nat, id: uint64)
    requires Bounded(v, mask) && id in v && w.Keys <= v.Keys
    ensures HasRoom(w, mask, id)
  {
    if id !in w {
      var slot := Slot(id, mask);
      var all, left := BucketIds(v, mask, slot), BucketIds(w, mask, slot);
      assert left <= all - {id} && id in all;
      Fewer(left, all - {id});
    }
  }
}
