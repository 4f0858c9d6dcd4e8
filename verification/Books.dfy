/** The book of one contract as a mathematical value, and what each message handler does to it
    (internal/orderbook/message_handler.go).

    K stands for the identity of an order object. The same order id may be carried by several
    objects (a duplicate 'N', or a Put into a full bucket, leaves an object linked in its level that
    the id no longer finds), so the book is keyed by object and the id index is a separate map. */
module Books {
  import opened Core
  import opened Sequences

  datatype Rec = Rec(id: uint64, side: uint8, price: int32, qty: int32)

  datatype Key = Key(buy: bool, price: int32)

  datatype Level<K> = Level(total: int64, fifo: seq<K>)

  datatype Book<K> = Book(
    mask: nat,                  // OrderMap buckets, less one
    index: map<uint64, K>,      // OrdersById
    recs: map<K, Rec>,          // the fields of every linked order
    levels: map<Key, Level<K>>) // both price trees

  const BUCKET_SIZE := 8

  /** A contract's index is made for 1024 orders. */
  const BUCKET_MASK: nat := 1023

  // ---- Reading the book ----

  /** The tree a side byte selects: 'B' is a bid and every other byte an ask. */
  function KeyOf(r: Rec): Key {
    Key(r.side == SIDE_BUY, r.price)
  }

  /** The level of a key; a key the trees do not hold reads as an empty level. */
  ghost function LevelAt<K>(b: Book<K>, key: Key): Level<K> {
    if key in b.levels then b.levels[key] else Level(0, [])
  }

  ghost function Fifo<K>(b: Book<K>, key: Key): seq<K> {
    LevelAt(b, key).fifo
  }

  ghost function TotalAt<K>(b: Book<K>, key: Key): int64 {
    LevelAt(b, key).total
  }

  ghost function Quantities<K>(recs: map<K, Rec>): map<K, int> {
    map k | k in recs :: recs[k].qty
  }

  /** Sum of the quantities linked at a level. */
  ghost function QtyAt<K>(b: Book<K>, key: Key): int {
    SumBy(Fifo(b, key), Quantities(b.recs))
  }

  ghost function BucketIds<K>(index: map<uint64, K>, mask: nat, slot: nat): set<uint64> {
    set id | id in index && Slot(id, mask) == slot
  }

  /** OrderMap.put succeeds: the id is present, or its bucket has a free place. */
  ghost predicate HasRoom<K>(index: map<uint64, K>, mask: nat, id: uint64) {
    id in index || |BucketIds(index, mask, Slot(id, mask))| < BUCKET_SIZE
  }

  ghost predicate CanPut<K>(b: Book<K>, id: uint64) {
    HasRoom(b.index, b.mask, id)
  }

  /** An object the allocator may hand out: it is in no level. */
  ghost predicate Unused<K>(b: Book<K>, h: Option<K>) {
    h.Some? ==> h.value !in b.recs
  }

  // ---- Primitive updates ----

  ghost function Put<K>(b: Book<K>, id: uint64, k: K): Book<K> {
    if CanPut(b, id) then b.(index := b.index[id := k]) else b
  }

  ghost function Delete<K>(b: Book<K>, id: uint64): Book<K> {
    b.(index := b.index - {id})
  }

  /** GetOrCreate: an absent key gets an empty level. */
  ghost function Touch<K>(b: Book<K>, key: Key): Book<K> {
    if key in b.levels then b else b.(levels := b.levels[key := Level(0, [])])
  }

  /** GetOrCreate then AddOrderToLevel: the order joins the tail of its level. */
  ghost function Link<K>(b: Book<K>, k: K, r: Rec): Book<K> {
    var l := LevelAt(b, KeyOf(r));
    b.(recs := b.recs[k := r],
       levels := b.levels[KeyOf(r) := Level(Wrap64(l.total + r.qty), l.fifo + [k])])
  }

  /** RemoveOrderFromLevel: the order leaves its level, which stays in the tree even when empty. */
  ghost function Unlink<K>(b: Book<K>, k: K): Book<K> {
    if k !in b.recs then b else
    var r := b.recs[k];
    var l := LevelAt(b, KeyOf(r));
    b.(recs := b.recs - {k},
       levels := b.levels[KeyOf(r) := Level(Wrap64(l.total - r.qty), Without(l.fifo, k))])
  }

  /** A quantity overwritten in place; the level total moves by `delta`. */
  ghost function SetQty<K>(b: Book<K>, k: K, qty: int32, delta: int): Book<K> {
    if k !in b.recs then b else
    var r := b.recs[k];
    var l := LevelAt(b, KeyOf(r));
    b.(recs := b.recs[k := r.(qty := qty)],
       levels := b.levels[KeyOf(r) := l.(total := Wrap64(l.total + delta))])
  }

  // ---- Handlers ----

  ghost function Admit<K>(b: Book<K>, k: K, r: Rec): Book<K> {
    Link(Put(b, r.id, k), k, r)
  }

  ghost function Reprice<K>(b: Book<K>, k: K, price: int32): Book<K> {
    if k !in b.recs || b.recs[k].price == price then b
    else Link(Unlink(b, k), k, b.recs[k].(price := price))
  }

  ghost function Requantify<K>(b: Book<K>, k: K, qty: int32): Book<K> {
    if k !in b.recs || b.recs[k].qty == qty then b
    else SetQty(b, k, qty, Wrap32(qty - b.recs[k].qty))
  }

  /** A new order in the object the allocator handed out; None stands for no allocation. */
  ghost function AdmitAs<K>(b: Book<K>, h: Option<K>, r: Rec): Book<K> {
    if h.Some? then Admit(b, h.value, r) else b
  }

  ghost function Modify<K>(b: Book<K>, h: Option<K>, r: Rec): Book<K> {
    if r.id !in b.index then AdmitAs(b, h, r)
    else Requantify(Reprice(b, b.index[r.id], r.price), b.index[r.id], r.qty)
  }

  ghost function TakeOut<K>(b: Book<K>, id: uint64): Book<K> {
    if id !in b.index then b else Delete(Unlink(b, b.index[id]), id)
  }

  ghost function Cancel<K>(b: Book<K>, id: uint64): Book<K> {
    TakeOut(b, id)
  }

  /** One leg of a trade: reduceOrderQuantity on the order the id finds. */
  ghost function Fill<K>(b: Book<K>, id: uint64, qty: int32): Book<K> {
    if id == 0 || id !in b.index || b.index[id] !in b.recs then b else
    var left := Wrap32(b.recs[b.index[id]].qty - qty);
    var b1 := SetQty(b, b.index[id], left, -(qty as int));
    if left <= 0 then TakeOut(b1, id) else b1
  }

  ghost function Trade<K>(b: Book<K>, buyId: uint64, sellId: uint64, qty: int32): Book<K> {
    Fill(Fill(b, buyId, qty), sellId, qty)
  }

  /** One leg of a trade cancel: restoreOrderQuantity, where `r` carries the trade's price and
      quantity and the side of the leg. */
  ghost function Restore<K>(b: Book<K>, h: Option<K>, r: Rec): Book<K> {
    if r.id == 0 then b
    else if r.id !in b.index then AdmitAs(b, h, r)
    else if b.index[r.id] !in b.recs then b
    else SetQty(b, b.index[r.id], Wrap32(b.recs[b.index[r.id]].qty + r.qty), r.qty)
  }

  function Leg(id: uint64, side: uint8, t: TradeMessage): Rec {
    Rec(id, side, t.price, t.quantity)
  }

  ghost function TradeCancel<K>(b: Book<K>, h1: Option<K>, h2: Option<K>, t: TradeMessage): Book<K> {
    Restore(Restore(b, h1, Leg(t.buyId, SIDE_BUY, t)), h2, Leg(t.sellId, SIDE_SELL, t))
  }

  ghost function Empty<K>(mask: nat): Book<K> {
    Book(mask, map[], map[], map[])
  }

  // ---- The invariant ----

  /** Every linked order sits once, in the one level its side and price name. */
  ghost predicate Placed<K>(b: Book<K>) {
    && (forall k :: k in b.recs ==> k in Fifo(b, KeyOf(b.recs[k])))
    && (forall key, k :: k in Fifo(b, key) ==> k in b.recs && KeyOf(b.recs[k]) == key)
    && (forall key :: NoDuplicates(Fifo(b, key)))
  }

  /** Level totals are the sums of the linked quantities, up to int32 overflow. */
  ghost predicate Totalled<K>(b: Book<K>) {
    forall key :: Congruent32(LevelAt(b, key).total, QtyAt(b, key))
  }

  /** Every order the index finds is linked and carries the id it was found by. */
  ghost predicate Indexed<K>(b: Book<K>) {
    forall id :: id in b.index ==> b.index[id] in b.recs && b.recs[b.index[id]].id == id
  }

  ghost predicate Bucketed<K>(b: Book<K>) {
    forall slot :: |BucketIds(b.index, b.mask, slot)| <= BUCKET_SIZE
  }

  ghost predicate WellFormed<K>(b: Book<K>) {
    Placed(b) && Totalled(b) && Indexed(b) && Bucketed(b)
  }
}
