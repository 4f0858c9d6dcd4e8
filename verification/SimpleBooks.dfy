/** The abstract book: an order map by id and, for each side and price, a first-come queue of ids.
    The book of objects refines it on every run whose ids are new, whose buckets have room and whose
    quantities stay within int32. */
module SimpleBooks {
  import opened Core
  import opened Sequences
  import opened Books
  import opened BookInvariants
  import opened Actions
  import opened Bits
  import opened Views

  datatype SimpleBook = SimpleBook(orders: map<uint64, Entry>, queues: imap<Key, seq<uint64>>)

  // ---- The specification ----

  function Place(e: Entry): Key {
    Key(e.side == SIDE_BUY, e.price)
  }

  ghost function Queue(s: SimpleBook, key: Key): seq<uint64> {
    if key in s.queues then s.queues[key] else []
  }

  ghost function Enter(s: SimpleBook, id: uint64, e: Entry): SimpleBook {
    SimpleBook(s.orders[id := e], s.queues[Place(e) := Queue(s, Place(e)) + [id]])
  }

  ghost function Leave(s: SimpleBook, id: uint64): SimpleBook {
    if id !in s.orders then s else
    var key := Place(s.orders[id]);
    SimpleBook(s.orders - {id}, s.queues[key := Without(Queue(s, key), id)])
  }

  ghost function Resize(s: SimpleBook, id: uint64, qty: int): SimpleBook {
    if id !in s.orders then s else s.(orders := s.orders[id := s.orders[id].(qty := qty)])
  }

  function NoIds(key: Key): seq<uint64> {
    []
  }

  ghost function NoOrders(): SimpleBook {
    SimpleBook(map[], imap key: Key | true :: NoIds(key))
  }

  ghost function SimpleStep(s: SimpleBook, a: Act): SimpleBook {
    match a
    case Add(r) => Enter(s, r.id, EntryOf(r))
    case Revise(r) =>
      if r.id !in s.orders then Enter(s, r.id, EntryOf(r))
      else if s.orders[r.id].price == r.price then Resize(s, r.id, r.qty)
      else Enter(Leave(s, r.id), r.id, EntryOf(r).(side := s.orders[r.id].side))
    case Drop(id) => Leave(s, id)
    case Take(id, q) =>
      if id == 0 || id !in s.orders then s
      else if s.orders[id].qty <= q then Leave(s, id)
      else Resize(s, id, s.orders[id].qty - q)
    case Return(r) =>
      if r.id == 0 then s
      else if r.id !in s.orders then Enter(s, r.id, EntryOf(r))
      else Resize(s, r.id, s.orders[r.id].qty + r.qty)
  }

  ghost function SimpleRun(s: SimpleBook, acts: seq<Act>): SimpleBook
    decreases |acts|
  {
    if acts == [] then s else SimpleRun(SimpleStep(s, acts[0]), acts[1..])
  }

  /** An order comes in only under an id that is not known, into a bucket with room. */
  ghost predicate Tidy(v: map<uint64, Entry>, mask: nat, a: Act) {
    match a
    case Add(r) => r.id !in v && HasRoom(v, mask, r.id)
    case Revise(r) => HasRoom(v, mask, r.id)
    case Return(r) => r.id != 0 ==> HasRoom(v, mask, r.id)
    case _ => true
  }

  ghost predicate TidyFeed(v: map<uint64, Entry>, mask: nat, acts: seq<Act>)
    decreases |acts|
  {
    acts == [] || (Tidy(v, mask, acts[0]) && TidyFeed(ViewStep(v, mask, acts[0]), mask, acts[1..]))
  }

  /** What the feed must respect: new ids are new, buckets have room, and quantities stay in int32. */
  ghost predicate Smooth(s: SimpleBook, mask: nat, a: Act) {
    && Tidy(s.orders, mask, a)
    && match a
       case Take(id, q) => id != 0 && id in s.orders ==> Fits32(s.orders[id].qty - q)
       case Return(r) => r.id != 0 && r.id in s.orders ==> Fits32(s.orders[r.id].qty + r.qty)
       case _ => true
  }

  ghost predicate SmoothRun(s: SimpleBook, mask: nat, acts: seq<Act>)
    decreases |acts|
  {
    acts == [] || (Smooth(s, mask, acts[0]) && SmoothRun(SimpleStep(s, acts[0]), mask, acts[1..]))
  }

  // ---- The abstraction ----

  ghost function IdOf<K>(recs: map<K, Rec>, k: K): uint64 {
    if k in recs then recs[k].id else 0
  }

  ghost function Ids<K>(fifo: seq<K>, recs: map<K, Rec>): seq<uint64> {
    seq(|fifo|, i requires 0 <= i < |fifo| => IdOf(recs, fifo[i]))
  }

  ghost function Abstract<K>(b: Book<K>): SimpleBook {
    SimpleBook(View(b), imap key: Key | true :: Ids(Fifo(b, key), b.recs))
  }

  // ---- Exact agreement of the index and the levels ----

  /** Every linked order is the one its id finds: no orphans. */
  ghost predicate Clean<K>(b: Book<K>) {
    forall k :: k in b.recs ==> b.recs[k].id in b.index && b.index[b.recs[k].id] == k
  }

  lemma AdmitClean<K>(b: Book<K>, k: K, r: Rec)
    requires Indexed(b) && Clean(b) && k !in b.recs
    ensures Clean(Admit(b, k, r)) <==> r.id !in b.index && CanPut(b, r.id)
  {
    hide HasRoom, Wrap64;
    var c := Admit(b, k, r);
    if r.id in b.index {
      var o := b.index[r.id];
      assert c.recs[o].id == r.id;
    }
    assert c.recs[k].id == r.id;
  }

  /** A second new order under the same id takes over the index entry and leaves the first in its level,
      where no id finds it. */
  lemma DuplicateLeavesOrphan<K>(k: K, l: K, r: Rec)
    requires k != l
    ensures !Clean(Admit(Admit(Empty<K>(1023), k, r), l, r))
  {
    hide HasRoom, Wrap64;
    var b := Admit(Admit(Empty<K>(1023), k, r), l, r);
    assert b.recs[k].id == r.id && b.recs[l].id == r.id;
  }

  lemma EmptyAbstract<K>(mask: nat)
    ensures Abstract(Empty<K>(mask)) == NoOrders() && Clean(Empty<K>(mask))
  {
  }

  // ---- A full bucket ----

  /** Ids whose hashes agree in the low ten bits: they all belong to bucket 0 of a new contract. */
  function CrowdId(i: nat): uint64
    requires i < 16
  {
    UnhashFast64(1024 * i)
  }

  lemma CrowdSlot(i: nat)
    requires i < 16
    ensures Slot(CrowdId(i), 1023) == 0
    ensures forall j :: 0 <= j < 16 && j != i ==> CrowdId(j) != CrowdId(i)
  {
    hide FastHash64, UnhashFast64, And;
    FastHash64Bijective(1024 * i);
    assert Pow2(10) == 1024;
    AndMaskIsMod(1024 * i, 10);
    forall j | 0 <= j < 16 && j != i ensures CrowdId(j) != CrowdId(i) { FastHash64Bijective(1024 * j); }
  }

  /** New orders under the crowded ids, one for each object. */
  ghost function Crowd<K>(hs: seq<K>): Book<K>
    requires |hs| <= 9
    decreases |hs|
  {
    if hs == [] then Empty(1023)
    else Admit(Crowd(hs[..|hs| - 1]), hs[|hs| - 1], Rec(CrowdId(|hs| - 1), SIDE_BUY, 100, 1))
  }

  ghost function CrowdIds(n: nat): set<uint64>
    requires n <= 9
  {
    set i | 0 <= i < n :: CrowdId(i)
  }

  lemma {:induction false} CrowdCount(n: nat)
    requires n <= 9
    ensures |CrowdIds(n)| == n
    ensures forall i :: n <= i < 16 ==> CrowdId(i) !in CrowdIds(n)
  {
    hide CrowdId;
    if n == 0 {
      assert CrowdIds(n) == {};
    } else {
      CrowdCount(n - 1);
      assert CrowdIds(n) == CrowdIds(n - 1) + {CrowdId(n - 1)};
      forall i | n <= i < 16 ensures CrowdId(i) !in CrowdIds(n) { CrowdSlot(i); }
    }
  }

  lemma {:induction false} CrowdClean<K>(hs: seq<K>)
    requires |hs| <= 8 && NoDuplicates(hs)
    ensures var c := Crowd(hs);
            Clean(c) && Indexed(c) && c.mask == 1023 && c.index.Keys == CrowdIds(|hs|) && c.recs.Keys == Elements(hs)
    decreases |hs|
  {
    hide CrowdId, CrowdIds, Slot, Admit, Clean, NoDuplicates;
    if hs == [] {
      CrowdNone<K>();
      assert Elements(hs) == {};
    } else {
      var n := |hs| - 1;
      SplitLast(hs);
      CrowdClean(hs[..n]);
      CrowdGrows(Crowd(hs[..n]), hs[n], n);
      assert Crowd(hs) == Admit(Crowd(hs[..n]), hs[n], Rec(CrowdId(n), SIDE_BUY, 100, 1));
    }
  }

  lemma SplitLast<K>(s: seq<K>)
    requires s != [] && NoDuplicates(s)
    ensures var t, x := s[..|s| - 1], s[|s| - 1];
            NoDuplicates(t) && x !in Elements(t) && Elements(s) == Elements(t) + {x}
  {
    var t, x := s[..|s| - 1], s[|s| - 1];
    assert s == t + [x];
  }

  /** While the bucket has room, one more crowded order keeps index and levels in agreement. */
  lemma CrowdGrows<K>(b: Book<K>, k: K, n: nat)
    requires n < 8 && b.mask == 1023 && b.index.Keys == CrowdIds(n) && Clean(b) && Indexed(b) && k !in b.recs
    ensures var c := Admit(b, k, Rec(CrowdId(n), SIDE_BUY, 100, 1));
            Clean(c) && Indexed(c) && c.mask == 1023
            && c.index.Keys == CrowdIds(n + 1) && c.recs.Keys == b.recs.Keys + {k}
  {
    hide CrowdId, CrowdIds, CanPut, Clean, Indexed, Admit;
    CrowdCount(n);
    CrowdRoom(b, n);
    CrowdStep(n);
    AdmitClean(b, k, Rec(CrowdId(n), SIDE_BUY, 100, 1));
    AdmitPut(b, k, Rec(CrowdId(n), SIDE_BUY, 100, 1));
  }

  lemma AdmitPut<K>(b: Book<K>, k: K, r: Rec)
    requires Indexed(b) && CanPut(b, r.id) && k !in b.recs
    ensures var c := Admit(b, k, r);
            Indexed(c) && c.mask == b.mask && c.index.Keys == b.index.Keys + {r.id} && c.recs.Keys == b.recs.Keys + {k}
  {
    hide HasRoom, Wrap64;
  }

  lemma CrowdNone<K>()
    ensures CrowdIds(0) == {} && Clean(Empty<K>(1023)) && Indexed(Empty<K>(1023))
  {
  }

  lemma CrowdStep(n: nat)
    requires n < 9
    ensures CrowdIds(n + 1) == CrowdIds(n) + {CrowdId(n)}
  {
    hide CrowdId;
  }

  /** With n crowded ids in the index there is room for another exactly when n < 8. */
  lemma CrowdRoom<K>(b: Book<K>, n: nat)
    requires n <= 8 && b.mask == 1023 && b.index.Keys == CrowdIds(n)
    ensures CanPut(b, CrowdId(n)) <==> n < 8
  {
    hide Slot, CrowdId;
    CrowdCount(n);
    CrowdSlot(n);
    assert BucketIds(b.index, 1023, 0) == CrowdIds(n) by { forall i | 0 <= i < n { CrowdSlot(i); } }
  }

  /** Nine new orders with new ids that share a bucket: the ninth Put fails, and the ninth order rests where
      no id finds it. */
  lemma FullBucketLeavesOrphan<K>(hs: seq<K>)
    requires |hs| == 9 && NoDuplicates(hs)
    ensures Clean(Crowd(hs[..8])) && !Clean(Crowd(hs)) && CrowdId(8) !in Crowd(hs).index
  {
    hide Clean, CrowdId, CrowdIds, Admit;
    var c := Crowd(hs[..8]);
    CrowdClean(hs[..8]);
    CrowdCount(8);
    CrowdRoom(c, 8);
    assert hs[8] !in hs[..8];
    assert Crowd(hs) == Admit(c, hs[8], Rec(CrowdId(8), SIDE_BUY, 100, 1));
    AdmitClean(c, hs[8], Rec(CrowdId(8), SIDE_BUY, 100, 1));
    AdmitUnput(c, hs[8], Rec(CrowdId(8), SIDE_BUY, 100, 1));
  }

  lemma AdmitUnput<K>(b: Book<K>, k: K, r: Rec)
    requires !CanPut(b, r.id)
    ensures Admit(b, k, r).index == b.index && r.id !in b.index
  {
  }

  // ---- Steps ----

  /** The index and the levels hold the same orders after a step if and only if the step was tidy: a
      duplicate new order, or a Put into a full bucket, leaves an order no id finds. */
  lemma StepClean<K>(b: Book<K>, s: Step<K>)
    requires WellFormed(b) && Clean(b) && Served(b, s)
    ensures Clean(Apply(b, s)) <==> Tidy(View(b), b.mask, s.act)
  {
    hide Placed, Totalled, Bucketed, HasRoom, Admit, Wrap32, Wrap64, Clean, View, Reprice, Requantify;
    ViewKeys(b);
    forall id: uint64 ensures HasRoom(View(b), b.mask, id) <==> CanPut(b, id) { ViewRoom(b, id); }
    match s.act
    case Add(r) => AdmitClean(b, s.h.value, r);
    case Revise(r) =>
      if r.id !in b.index { AdmitClean(b, s.h.value, r); } else { Roomy(b, r.id); ReviseClean(b, s.h, r); }
    case Drop(id) => if id in b.index { TakeOutClean(b, id); }
    case Take(id, quantity) =>
      if id != 0 && id in b.index {
        var left := Wrap32(b.recs[b.index[id]].qty - quantity);
        var b1 := SetQty(b, b.index[id], left, -(quantity as int));
        SameIdsClean(b, b1);
        TakeOutClean(b1, id);
      }
    case Return(r) =>
      if r.id != 0 {
        if r.id !in b.index { AdmitClean(b, s.h.value, r); }
        else { Roomy(b, r.id); SameIdsClean(b, Apply(b, s)); }
      }
  }

  lemma ReviseClean<K>(b: Book<K>, h: Option<K>, r: Rec)
    requires Indexed(b) && Clean(b) && r.id in b.index
    ensures Clean(Modify(b, h, r))
  {
    hide Wrap32, Wrap64, Clean, Fifo, Without;
    SameIdsClean(b, Modify(b, h, r));
  }

  /** A linked order that its id does not find. */
  ghost predicate Orphan<K>(b: Book<K>, k: K) {
    k in b.recs && !(b.recs[k].id in b.index && b.index[b.recs[k].id] == k)
  }

  /** An orphan is never found again: the handlers reach orders only through the index, and put only the order they
      admit into it. */
  lemma OrphanStays<K>(b: Book<K>, s: Step<K>, k: K)
    requires Indexed(b) && Served(b, s) && Orphan(b, k)
    ensures Orphan(Apply(b, s), k)
  {
    hide HasRoom, Wrap32, Wrap64;
  }

  /** The index and the levels hold the same orders after a run if and only if they did before it and every step
      was tidy: a condition on the messages. */
  lemma {:induction false} RunClean<K>(b: Book<K>, steps: seq<Step<K>>, acts: seq<Act>)
    requires WellFormed(b) && ServedAll(b, steps) && Enacts(steps, acts)
    ensures Clean(Run(b, steps)) <==> Clean(b) && TidyFeed(View(b), b.mask, acts)
    decreases |steps|
  {
    hide WellFormed, Indexed, Clean, Apply, Served, View, ViewStep, Tidy, Orphan;
    if steps != [] {
      var c := Apply(b, steps[0]);
      WellIndexed(b);
      ApplyUnused(b, steps[0]);
      ApplyWellFormed(b, steps[0]);
      ApplyMask(b, steps[0]);
      StepView(b, steps[0]);
      RunClean(c, steps[1..], acts[1..]);
      if Clean(b) { StepClean(b, steps[0]); } else { UncleanStays(b, steps[0]); }
    }
  }

  lemma UncleanStays<K>(b: Book<K>, s: Step<K>)
    requires Indexed(b) && Served(b, s) && !Clean(b)
    ensures !Clean(Apply(b, s))
  {
    hide Indexed, Served, Apply;
    var k :| k in b.recs && Orphan(b, k);
    OrphanStays(b, s, k);
  }

  lemma Roomy<K>(b: Book<K>, id: uint64)
    requires id in b.index
    ensures CanPut(b, id)
  {
  }

  lemma SameIdsClean<K>(b: Book<K>, c: Book<K>)
    requires Clean(b) && c.index == b.index && c.recs.Keys == b.recs.Keys
    requires forall k :: k in b.recs ==> c.recs[k].id == b.recs[k].id
    ensures Clean(c)
  {
    assert forall k :: k in c.recs ==> k in b.recs;
  }

  lemma TakeOutClean<K>(b: Book<K>, id: uint64)
    requires Indexed(b) && Clean(b) && id in b.index
    ensures Clean(TakeOut(b, id))
  {
    hide Wrap64;
    var c := TakeOut(b, id);
    forall k | k in c.recs ensures c.recs[k].id in c.index && c.index[c.recs[k].id] == k {
      assert k in b.recs;
    }
  }

  // ---- Refinement ----

  lemma IdsAgree<K>(fifo: seq<K>, recs: map<K, Rec>, recs': map<K, Rec>)
    requires forall k :: k in fifo ==> IdOf(recs, k) == IdOf(recs', k)
    ensures Ids(fifo, recs) == Ids(fifo, recs')
  {
  }

  lemma {:induction false} IdsWithout<K>(fifo: seq<K>, recs: map<K, Rec>, k: K)
    requires forall x :: x in fifo && IdOf(recs, x) == IdOf(recs, k) ==> x == k
    ensures Ids(Without(fifo, k), recs) == Without(Ids(fifo, recs), IdOf(recs, k))
  {
    if fifo != [] {
      assert Ids(fifo, recs)[1..] == Ids(fifo[1..], recs);
      if fifo[0] != k { IdsWithout(fifo[1..], recs, k); }
    }
  }

  lemma LinkIds<K>(b: Book<K>, k: K, r: Rec, key: Key)
    requires Placed(b) && k !in b.recs
    ensures Ids(Fifo(Link(b, k, r), key), Link(b, k, r).recs)
         == Ids(Fifo(b, key), b.recs) + if key == KeyOf(r) then [r.id] else []
  {
    hide Placed, Wrap64;
    PlacedAt(b);
    IdsAgree(Fifo(b, key), b.recs, Link(b, k, r).recs);
  }

  lemma QueueDistinct<K>(b: Book<K>, key: Key)
    requires Placed(b)
    ensures NoDuplicates(Fifo(b, key))
  {
  }

  lemma UnlinkIds<K>(b: Book<K>, k: K, key: Key)
    requires Placed(b) && Clean(b) && k in b.recs
    ensures Ids(Fifo(Unlink(b, k), key), Unlink(b, k).recs)
         == if key == KeyOf(b.recs[k])
            then Without(Ids(Fifo(b, key), b.recs), b.recs[k].id) else Ids(Fifo(b, key), b.recs)
  {
    hide Placed, Fifo, Unlink;
    PlacedAt(b);
    var c := Unlink(b, k);
    UnlinkedFifo(b, k, key);
    if key == KeyOf(b.recs[k]) {
      IdsWithout(Fifo(b, key), b.recs, k);
      QueueDistinct(b, key);
      WithoutMembers(Fifo(b, key), k);
      assert forall x :: x in Fifo(c, key) ==> x != k;
    } else {
      assert forall x :: x in Fifo(c, key) ==> x != k;
    }
    IdsAgree(Fifo(c, key), b.recs, c.recs);
  }

  lemma UnlinkedFifo<K>(b: Book<K>, k: K, key: Key)
    requires k in b.recs
    ensures Fifo(Unlink(b, k), key) == if key == KeyOf(b.recs[k]) then Without(Fifo(b, key), k) else Fifo(b, key)
    ensures Unlink(b, k).recs == b.recs - {k}
  {
    hide Wrap64;
  }

  lemma SetQtyIds<K>(b: Book<K>, k: K, qty: int32, delta: int, key: Key)
    ensures Ids(Fifo(SetQty(b, k, qty, delta), key), SetQty(b, k, qty, delta).recs) == Ids(Fifo(b, key), b.recs)
  {
    IdsAgree(Fifo(b, key), b.recs, SetQty(b, k, qty, delta).recs);
  }

  /** Agreement with the abstract book, orders and queues apart. */
  lemma Agrees<K>(c: Book<K>, s: SimpleBook)
    requires View(c) == s.orders
    requires forall key :: key in s.queues && s.queues[key] == Ids(Fifo(c, key), c.recs)
    ensures Abstract(c) == s
  {
  }

  lemma AdmitRefines<K>(b: Book<K>, k: K, r: Rec)
    requires Placed(b) && Indexed(b) && k !in b.recs && CanPut(b, r.id)
    ensures Abstract(Admit(b, k, r)) == Enter(Abstract(b), r.id, EntryOf(r))
  {
    hide Placed, HasRoom, Wrap64, Ids, Link, View;
    var b1, c, s := Put(b, r.id, k), Admit(b, k, r), Enter(Abstract(b), r.id, EntryOf(r));
    assert Placed(b1) by { Reindexed(b, b1); }
    AdmitView(b, k, r);
    ViewRoom(b, r.id);
    forall key ensures key in s.queues && s.queues[key] == Ids(Fifo(c, key), c.recs) {
      LinkIds(b1, k, r, key);
      assert Fifo(b1, key) == Fifo(b, key);
      assert Abstract(b).queues[key] + [] == Abstract(b).queues[key];
    }
    Agrees(c, s);
  }

  lemma Reindexed<K>(b: Book<K>, c: Book<K>)
    requires Placed(b) && c.recs == b.recs && c.levels == b.levels
    ensures Placed(c)
  {
    assert forall key :: Fifo(c, key) == Fifo(b, key);
  }

  lemma ResizeRefines<K>(b: Book<K>, id: uint64, qty: int32, delta: int)
    requires Indexed(b) && id in b.index
    ensures Abstract(SetQty(b, b.index[id], qty, delta)) == Resize(Abstract(b), id, qty)
  {
    hide Ids, Wrap64;
    var k := b.index[id];
    var c := SetQty(b, k, qty, delta);
    forall key ensures Ids(Fifo(c, key), c.recs) == Ids(Fifo(b, key), b.recs) {
      SetQtyIds(b, k, qty, delta, key);
    }
  }

  lemma LeaveRefines<K>(b: Book<K>, id: uint64)
    requires Placed(b) && Indexed(b) && Clean(b)
    ensures Abstract(TakeOut(b, id)) == Leave(Abstract(b), id)
  {
    hide Placed, Ids, Wrap64, Clean;
    if id in b.index {
      var c, s := TakeOut(b, id), Leave(Abstract(b), id);
      forall key ensures key in s.queues && s.queues[key] == Ids(Fifo(c, key), c.recs) {
        UnlinkIds(b, b.index[id], key);
        assert Fifo(c, key) == Fifo(Unlink(b, b.index[id]), key);
      }
      assert View(c) == View(b) - {id} by { TakeOutView(b, id); }
      Agrees(c, s);
    }
  }

  lemma RepriceRefines<K>(b: Book<K>, id: uint64, price: int32)
    requires Placed(b) && Indexed(b) && Clean(b) && id in b.index && b.recs[b.index[id]].price != price
    ensures var e := EntryOf(b.recs[b.index[id]]);
            Abstract(Reprice(b, b.index[id], price)) == Enter(Leave(Abstract(b), id), id, e.(price := price))
  {
    hide Placed, Ids, Wrap64, Clean, Reprice;
    var k := b.index[id];
    var b1, r := Unlink(b, k), b.recs[k].(price := price);
    var c, s := Reprice(b, k, price), Enter(Leave(Abstract(b), id), id, EntryOf(r));
    assert c == Link(b1, k, r) && c.recs == b.recs[k := r] && c.index == b.index by { Repriced(b, k, price); }
    UnlinkPlaced(b, k);
    forall key ensures key in s.queues && s.queues[key] == Ids(Fifo(c, key), c.recs) {
      UnlinkIds(b, k, key);
      LinkIds(b1, k, r, key);
      assert Leave(Abstract(b), id).queues[key] + [] == Leave(Abstract(b), id).queues[key];
    }
    ViewMoved(b, c, id, r);
    Agrees(c, s);
  }

  lemma ViewMoved<K>(b: Book<K>, c: Book<K>, id: uint64, r: Rec)
    requires id in b.index && c.index == b.index && c.recs == b.recs[b.index[id] := r]
    requires forall x, y :: x in b.index && y in b.index && b.index[x] == b.index[y] ==> x == y
    ensures View(c) == (View(b) - {id})[id := EntryOf(r)]
  {
  }

  lemma ReviseRefines<K>(b: Book<K>, r: Rec)
    requires WellFormed(b) && Clean(b) && r.id in b.index
    ensures Abstract(Modify(b, None, r)) == SimpleStep(Abstract(b), Revise(r))
  {
    hide Placed, Totalled, Bucketed, SetQty, Reprice, Wrap32, Clean, Abstract, Leave, Enter;
    var k := b.index[r.id];
    var b1, e := Reprice(b, k, r.price), EntryOf(b.recs[k]);
    ViewIds(b);
    Repriced(b, k, r.price);
    ViewIds(b1);
    if e.price != r.price { RepriceRefines(b, r.id, r.price); }
    if e.qty != r.qty { ResizeRefines(b1, r.id, r.qty, Wrap32(r.qty - b.recs[k].qty)); }
    Resettled(Abstract(b), r, e.side);
  }

  /** A repriced order keeps its side and takes the new quantity, in either order of the two changes. */
  lemma Resettled(s: SimpleBook, r: Rec, side: uint8)
    ensures var left := Leave(s, r.id);
            forall q :: Resize(Enter(left, r.id, Entry(side, r.price, q)), r.id, r.qty)
                     == Enter(left, r.id, Entry(side, r.price, r.qty))
    ensures r.id in s.orders ==> Resize(s, r.id, s.orders[r.id].qty) == s
  {
    hide Leave;
    var left, e := Leave(s, r.id), Entry(side, r.price, r.qty);
    forall q ensures Resize(Enter(left, r.id, e.(qty := q)), r.id, r.qty) == Enter(left, r.id, e) {
      assert left.orders[r.id := e.(qty := q)][r.id := e] == left.orders[r.id := e];
    }
    if r.id in s.orders { assert s.orders[r.id := s.orders[r.id]] == s.orders; }
  }

  lemma Repriced<K>(b: Book<K>, k: K, price: int32)
    requires k in b.recs
    ensures Reprice(b, k, price).index == b.index
    ensures Reprice(b, k, price).recs == b.recs[k := b.recs[k].(price := price)]
    ensures if b.recs[k].price == price then Reprice(b, k, price) == b
            else Reprice(b, k, price) == Link(Unlink(b, k), k, b.recs[k].(price := price))
  {
  }

  /** One step: from an index and levels that agree, what the handlers do to buckets, trees and lists is what the
      message says should happen to the abstract book, and index and levels go on agreeing, if and only if the step
      is smooth. */
  lemma StepRefines<K>(b: Book<K>, s: Step<K>)
    requires WellFormed(b) && Clean(b) && Served(b, s)
    ensures Clean(Apply(b, s)) && Abstract(Apply(b, s)) == SimpleStep(Abstract(b), s.act)
       <==> Smooth(Abstract(b), b.mask, s.act)
  {
    hide WellFormed, Clean, Apply, Served, Abstract, SimpleStep, Smooth, Tidy;
    StepClean(b, s);
    assert Abstract(b).orders == View(b) by { AbstractOrders(b); }
    if Smooth(Abstract(b), b.mask, s.act) {
      SmoothTidy(Abstract(b), b.mask, s.act);
      SmoothRefines(b, s);
    } else if Tidy(View(b), b.mask, s.act) {
      OverflowShows(b, s);
    }
  }

  lemma AbstractOrders<K>(b: Book<K>)
    ensures Abstract(b).orders == View(b)
  {
  }

  lemma SmoothTidy(s: SimpleBook, mask: nat, a: Act)
    requires Smooth(s, mask, a)
    ensures Tidy(s.orders, mask, a)
  {
  }

  /** A quantity that wraps shows in what the index knows: the order stays when it should leave, leaves when it
      should stay, or has another quantity. */
  lemma OverflowShows<K>(b: Book<K>, s: Step<K>)
    requires WellFormed(b) && Served(b, s)
    requires Tidy(View(b), b.mask, s.act) && !Smooth(Abstract(b), b.mask, s.act)
    ensures Abstract(Apply(b, s)) != SimpleStep(Abstract(b), s.act)
  {
    hide Placed, Totalled, Bucketed, Apply, Served, View, HasRoom;
    WellIndexed(b);
    StepView(b, s);
    AbstractOrders(b);
    AbstractOrders(Apply(b, s));
    ViewFits(b);
    var v, w := View(b), SimpleStep(Abstract(b), s.act).orders;
    match s.act
    case Take(id, q) => FilledShows(v, id, q);
    case Return(r) =>
      assert ViewStep(v, b.mask, s.act)[r.id].qty != w[r.id].qty;
    case _ =>
  }

  lemma FilledShows(v: map<uint64, Entry>, id: uint64, q: int32)
    requires id != 0 && id in v && Fits32(v[id].qty) && !Fits32(v[id].qty - q)
    ensures id in Filled(v, id, q) <==> v[id].qty <= q
  {
  }

  lemma ViewFits<K>(b: Book<K>)
    requires Indexed(b)
    ensures forall id :: id in View(b) ==> Fits32(View(b)[id].qty)
  {
  }

  lemma SmoothRefines<K>(b: Book<K>, s: Step<K>)
    requires WellFormed(b) && Clean(b) && Served(b, s) && Smooth(Abstract(b), b.mask, s.act)
    ensures Abstract(Apply(b, s)) == SimpleStep(Abstract(b), s.act)
  {
    hide Placed, Totalled, Bucketed, Admit, SetQty, TakeOut, Modify, Abstract, Leave, Enter, Resize;
    ViewIds(b);
    match s.act
    case Add(r) => AdmitRefines(b, s.h.value, r);
    case Revise(r) =>
      if r.id !in b.index { AdmitAsModify(b, s.h, r); AdmitRefines(b, s.h.value, r); } else { ReviseRefines(b, r); }
    case Drop(id) => LeaveRefines(b, id);
    case Take(id, q) => if id != 0 && id in b.index { TakeRefines(b, id, q); }
    case Return(r) =>
      if r.id != 0 {
        if r.id !in b.index { AdmitRefines(b, s.h.value, r); }
        else { ResizeRefines(b, r.id, Wrap32(b.recs[b.index[r.id]].qty + r.qty), r.qty); }
      }
  }

  lemma AdmitAsModify<K>(b: Book<K>, h: Option<K>, r: Rec)
    requires r.id !in b.index
    ensures Modify(b, h, r) == AdmitAs(b, h, r)
  {
  }

  lemma ViewIds<K>(b: Book<K>)
    requires Indexed(b)
    ensures Abstract(b).orders.Keys == b.index.Keys
    ensures forall id :: id in b.index ==> Abstract(b).orders[id] == EntryOf(b.recs[b.index[id]])
    ensures forall id: uint64 :: HasRoom(Abstract(b).orders, b.mask, id) <==> CanPut(b, id)
  {
    forall id: uint64 ensures HasRoom(Abstract(b).orders, b.mask, id) <==> CanPut(b, id) { ViewRoom(b, id); }
  }

  lemma TakeRefines<K>(b: Book<K>, id: uint64, q: int32)
    requires WellFormed(b) && Clean(b) && id != 0 && id in b.index && Fits32(b.recs[b.index[id]].qty - q)
    ensures Abstract(Fill(b, id, q)) == SimpleStep(Abstract(b), Take(id, q))
  {
    hide Placed, Totalled, Bucketed, Clean, Abstract, SetQty, TakeOut;
    var k := b.index[id];
    var left := Wrap32(b.recs[k].qty - q);
    var b1 := SetQty(b, k, left, -(q as int));
    ViewIds(b);
    ResizeRefines(b, id, left, -(q as int));
    if left <= 0 {
      SetQtyPlaced(b, k, left, -(q as int));
      Resized(b, k, left, -(q as int));
      SameIdsClean(b, b1);
      LeaveRefines(b1, id);
    }
  }

  lemma Resized<K>(b: Book<K>, k: K, qty: int32, delta: int)
    requires Indexed(b) && k in b.recs
    ensures var c := SetQty(b, k, qty, delta); c.index == b.index && c.recs == b.recs[k := b.recs[k].(qty := qty)]
  {
  }

  /** Index, levels and abstract book agree now and after each of the steps. */
  ghost predicate AlwaysAgrees<K>(b: Book<K>, steps: seq<Step<K>>, s: SimpleBook)
    decreases |steps|
  {
    && Clean(b) && Abstract(b) == s
    && (steps == [] || AlwaysAgrees(Apply(b, steps[0]), steps[1..], SimpleStep(s, steps[0].act)))
  }

  /** Throughout a run the trees, lists and index hold what the messages make of the abstract book, if and only if
      every message is smooth. */
  lemma {:induction false} RunRefines<K>(b: Book<K>, steps: seq<Step<K>>, acts: seq<Act>)
    requires WellFormed(b) && Clean(b) && ServedAll(b, steps) && Enacts(steps, acts)
    ensures AlwaysAgrees(b, steps, Abstract(b)) <==> SmoothRun(Abstract(b), b.mask, acts)
    decreases |steps|
  {
    hide WellFormed, Clean, Apply, Served, Abstract, SimpleStep, Smooth;
    if steps != [] {
      var c := Apply(b, steps[0]);
      ApplyMask(b, steps[0]);
      StepRefines(b, steps[0]);
      ApplyUnused(b, steps[0]);
      ApplyWellFormed(b, steps[0]);
      if Clean(c) && Abstract(c) == SimpleStep(Abstract(b), acts[0]) {
        RunRefines(c, steps[1..], acts[1..]);
      } else {
        assert !AlwaysAgrees(c, steps[1..], SimpleStep(Abstract(b), acts[0]));
      }
    }
  }

  /** Agreement throughout a run includes its end. */
  lemma {:induction false} AgreesAtEnd<K>(b: Book<K>, steps: seq<Step<K>>, acts: seq<Act>, s: SimpleBook)
    requires Enacts(steps, acts) && AlwaysAgrees(b, steps, s)
    ensures Clean(Run(b, steps)) && Abstract(Run(b, steps)) == SimpleRun(s, acts)
    decreases |steps|
  {
    hide Clean, Apply, Abstract, SimpleStep;
    if steps != [] { AgreesAtEnd(Apply(b, steps[0]), steps[1..], acts[1..], SimpleStep(s, acts[0])); }
  }
}
