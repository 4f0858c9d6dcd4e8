/** The fixed-bucket hash index from order id to order (internal/orderbook/orderbook.go). */
module OrderMaps {
  import opened Core
  import opened Bits
  import opened Orders
  import opened Books
  import opened Sequences

  /** BUCKET_SIZE places, of which the first `count` are in use. */
  datatype OrderBucket = OrderBucket(orders: seq<Order?>, count: nat)

  /** The bucket holds, packed in the order of `ids`, exactly the entries that hash to `slot`. */
  ghost predicate Holds(b: OrderBucket, ids: seq<uint64>, slot: nat, mask: nat, contents: map<uint64, Order>) {
    && |b.orders| == BUCKET_SIZE && b.count == |ids| <= BUCKET_SIZE
    && (forall i :: b.count <= i < BUCKET_SIZE ==> b.orders[i] == null)
    && NoDuplicates(ids)
    && (forall id :: id in ids <==> id in contents && Slot(id, mask) == slot)
    && (forall i :: 0 <= i < b.count ==> ids[i] in ids && b.orders[i] == contents[ids[i]])
  }

  lemma HoldsCount(b: OrderBucket, ids: seq<uint64>, slot: nat, mask: nat, contents: map<uint64, Order>)
    requires Holds(b, ids, slot, mask, contents)
    ensures |BucketIds(contents, mask, slot)| == b.count
  {
    DistinctCount(ids);
    assert BucketIds(contents, mask, slot) == Elements(ids);
  }

  lemma HoldsShape(b: OrderBucket, ids: seq<uint64>, slot: nat, mask: nat, contents: map<uint64, Order>)
    requires Holds(b, ids, slot, mask, contents)
    ensures |b.orders| == BUCKET_SIZE && b.count <= BUCKET_SIZE
    ensures forall i :: b.count <= i < BUCKET_SIZE ==> b.orders[i] == null
  {
  }

  lemma HoldsReplaced(b: OrderBucket, ids: seq<uint64>, slot: nat, mask: nat,
                      contents: map<uint64, Order>, i: nat, order: Order)
    requires Holds(b, ids, slot, mask, contents) && i < b.count
    ensures Holds(b.(orders := b.orders[i := order]), ids, slot, mask, contents[ids[i] := order])
  {
    assert ids[i] in ids;
  }

  lemma HoldsAppended(b: OrderBucket, ids: seq<uint64>, slot: nat, mask: nat, contents: map<uint64, Order>,
                      id: uint64, order: Order)
    requires Holds(b, ids, slot, mask, contents) && b.count < BUCKET_SIZE
    requires id !in contents && Slot(id, mask) == slot
    ensures Holds(OrderBucket(b.orders[b.count := order], b.count + 1), ids + [id], slot, mask, contents[id := order])
  {
    var js := ids + [id];
    forall i | 0 <= i < |js| ensures js[i] in js && b.orders[b.count := order][i] == contents[id := order][js[i]] {
      if i < |ids| { assert ids[i] in ids; }
    }
  }

  /** `after` is `before` with place `i` gone and the places up to `count` moved down by one. */
  ghost predicate ClosedUp(before: seq<Order?>, i: nat, count: nat, after: seq<Order?>)
    requires i < count <= |before| == |after|
  {
    && (forall j :: 0 <= j < i ==> after[j] == before[j])
    && (forall j :: i <= j < count - 1 ==> after[j] == before[j + 1])
    && (forall j :: count - 1 <= j < |after| ==> after[j] == null)
  }

  lemma HoldsDeleted(b: OrderBucket, ids: seq<uint64>, slot: nat, mask: nat, contents: map<uint64, Order>,
                     i: nat, orders: seq<Order?>)
    requires Holds(b, ids, slot, mask, contents) && i < b.count && |orders| == BUCKET_SIZE
    requires ClosedUp(b.orders, i, b.count, orders)
    ensures Holds(OrderBucket(orders, b.count - 1), Without(ids, ids[i]), slot, mask, contents - {ids[i]})
  {
    WithoutAt(ids, i);
    WithoutMembers(ids, ids[i]);
    var js := Without(ids, ids[i]);
    forall j | 0 <= j < |js| ensures js[j] in js && orders[j] == (contents - {ids[i]})[js[j]] {
      var k := if j < i then j else j + 1;
      assert js[j] == ids[k] && ids[k] in ids;
    }
  }

  /** Changes to another id leave a bucket alone. */
  lemma HoldsElsewhere(b: OrderBucket, ids: seq<uint64>, slot: nat, mask: nat, contents: map<uint64, Order>,
                       other: uint64, changed: map<uint64, Order>)
    requires Holds(b, ids, slot, mask, contents) && Slot(other, mask) != slot
    requires forall id :: id != other ==>
               (id in contents <==> id in changed) && (id in contents ==> contents[id] == changed[id])
    ensures Holds(b, ids, slot, mask, changed)
  {
  }

  // ---- The whole table ----

  ghost function Counts(buckets: seq<OrderBucket>): nat {
    if buckets == [] then 0 else Counts(buckets[..|buckets| - 1]) + buckets[|buckets| - 1].count
  }

  ghost function IdsBelow(contents: map<uint64, Order>, mask: nat, n: nat): set<uint64> {
    set id | id in contents && Slot(id, mask) < n
  }

  /** The first n buckets hold as many orders as there are ids that hash to them, at most eight each. */
  lemma {:induction false} CountsBelow(buckets: seq<OrderBucket>, ids: seq<seq<uint64>>, mask: nat,
                                       contents: map<uint64, Order>)
    requires |buckets| <= |ids|
    requires forall s :: 0 <= s < |buckets| ==> Holds(buckets[s], ids[s], s, mask, contents)
    ensures |IdsBelow(contents, mask, |buckets|)| == Counts(buckets) <= BUCKET_SIZE * |buckets|
  {
    hide Slot;
    if buckets == [] {
      assert IdsBelow(contents, mask, 0) == {};
    } else {
      var n := |buckets| - 1;
      CountsBelow(buckets[..n], ids, mask, contents);
      HoldsCount(buckets[n], ids[n], n, mask, contents);
      assert IdsBelow(contents, mask, n + 1) == IdsBelow(contents, mask, n) + BucketIds(contents, mask, n);
    }
  }

  class OrderMap {
    var buckets: array<OrderBucket>
    var mask: nat
    var size: nat
    ghost var contents: map<uint64, Order>
    ghost var ids: seq<seq<uint64>>

    ghost predicate Valid()
      reads this, buckets, contents.Values`OrderID
    {
      && buckets.Length == |ids| == size == mask + 1
      && (forall id :: id in contents ==> contents[id].OrderID == id)
      && (forall s :: 0 <= s < size ==> Holds(buckets[s], ids[s], s, mask, contents))
    }

    /** Buckets: the least power of two that is at least the capacity. */
    constructor (capacity: int)
      requires capacity <= 0x4000_0000_0000_0000
      ensures Valid() && contents == map[] && fresh(buckets)
      ensures exists n :: size == Pow2(n) && LeastPower(n, capacity)
    {
      var s := 1;
      ghost var n := 0;
      while s < capacity
        invariant s == Pow2(n) && (n == 0 || Pow2(n - 1) < capacity)
        decreases capacity - s
      {
        s := s * 2;
        n := n + 1;
      }
      buckets := new OrderBucket[s](_ => OrderBucket(seq(BUCKET_SIZE, _ => null), 0));
      mask, size := s - 1, s;
      contents, ids := map[], seq(s, _ => []);
    }

    /** The table holds as many orders as its bucket counts add up to, at most eight for each bucket. */
    lemma SizeBounded()
      requires Valid()
      ensures |contents| == Counts(buckets[..]) <= BUCKET_SIZE * size
    {
      hide Slot;
      CountsBelow(buckets[..], ids, mask, contents);
      assert IdsBelow(contents, mask, size) == contents.Keys;
    }

    /** The scan that get, put and delete share: the place of the id in its bucket. */
    method Scan(orderID: uint64) returns (slot: nat, i: nat)
      requires Valid()
      ensures slot == Slot(orderID, mask) < size && i <= buckets[slot].count == |ids[slot]| <= BUCKET_SIZE
      ensures i < buckets[slot].count <==> orderID in contents
      ensures i < buckets[slot].count ==> ids[slot][i] == orderID && buckets[slot].orders[i] == contents[orderID]
    {
      slot := Slot(orderID, mask);
      var bucket := buckets[slot];
      assert Holds(bucket, ids[slot], slot, mask, contents);
      i := 0;
      while i < bucket.count && !(bucket.orders[i] != null && bucket.orders[i].OrderID == orderID)
        invariant 0 <= i <= bucket.count
        invariant forall j :: 0 <= j < i ==> ids[slot][j] != orderID
      {
        i := i + 1;
      }
    }

    method Get(orderID: uint64) returns (order: Order?)
      requires Valid()
      ensures order == if orderID in contents then contents[orderID] else null
    {
      var slot, i := Scan(orderID);
      order := if i < buckets[slot].count then buckets[slot].orders[i] else null;
    }

    lemma Room(orderID: uint64)
      ensures HasRoom(contents, mask, orderID) <==>
                orderID in contents || |BucketIds(contents, mask, Slot(orderID, mask))| < BUCKET_SIZE
    {
    }

    /** The index stays what the scans rely on if and only if the order carries the id it is stored under. */
    method Put(orderID: uint64, order: Order) returns (ok: bool)
      requires Valid()
      modifies this, buckets
      ensures Valid() <==> !ok || order.OrderID == orderID
      ensures mask == old(mask) && buckets == old(buckets)
      ensures ok == HasRoom(old(contents), mask, orderID)
      ensures contents == if ok then old(contents)[orderID := order] else old(contents)
    {
      hide Holds, Slot, HasRoom;
      var slot, i := Scan(orderID);
      var bucket := buckets[slot];
      ghost var before := contents;
      Room(orderID);
      HoldsShape(bucket, ids[slot], slot, mask, contents);
      HoldsCount(bucket, ids[slot], slot, mask, contents);
      if i < bucket.count {
        HoldsReplaced(bucket, ids[slot], slot, mask, contents, i, order);
        buckets[slot] := bucket.(orders := bucket.orders[i := order]);
      } else if bucket.count < BUCKET_SIZE {
        HoldsAppended(bucket, ids[slot], slot, mask, contents, orderID, order);
        buckets[slot] := OrderBucket(bucket.orders[bucket.count := order], bucket.count + 1);
        ids := ids[slot := ids[slot] + [orderID]];
      } else {
        return false;
      }
      contents := contents[orderID := order];
      ok := true;
      assert orderID in contents && contents[orderID] == order;
      forall s | 0 <= s < size && s != slot ensures Holds(buckets[s], ids[s], s, mask, contents) {
        HoldsElsewhere(buckets[s], ids[s], s, mask, before, orderID, contents);
      }
    }

    method Delete(orderID: uint64) returns (found: bool)
      requires Valid()
      modifies this, buckets
      ensures Valid() && mask == old(mask) && buckets == old(buckets)
      ensures found == (orderID in old(contents))
      ensures contents == old(contents) - {orderID}
    {
      hide Holds, Slot, Without;
      var slot, i := Scan(orderID);
      var bucket := buckets[slot];
      HoldsShape(bucket, ids[slot], slot, mask, contents);
      if i == bucket.count { return false; }
      ghost var before := contents;
      var shifted := ShiftDown(bucket.orders, i, bucket.count);
      HoldsDeleted(bucket, ids[slot], slot, mask, contents, i, shifted);
      buckets[slot] := OrderBucket(shifted, bucket.count - 1);
      ids := ids[slot := Without(ids[slot], orderID)];
      contents := contents - {orderID};
      found := true;
      forall s | 0 <= s < size && s != slot ensures Holds(buckets[s], ids[s], s, mask, contents) {
        HoldsElsewhere(buckets[s], ids[s], s, mask, before, orderID, contents);
      }
    }
  }

  ghost predicate LeastPower(n: nat, capacity: int) {
    Pow2(n) >= capacity && (n == 0 || Pow2(n - 1) < capacity)
  }

  /** A capacity that is itself a power of two is taken as it is. */
  lemma LeastPowerExact(n: nat, m: nat)
    requires LeastPower(n, Pow2(m))
    ensures n == m
  {
    if n < m { Pow2Monotonic(n, m - 1); }
    if m < n { Pow2Monotonic(m, n - 1); }
  }

  method ShiftDown(orders: seq<Order?>, i: nat, count: nat) returns (r: seq<Order?>)
    requires i < count <= |orders|
    requires forall j :: count <= j < |orders| ==> orders[j] == null
    ensures |r| == |orders| && ClosedUp(orders, i, count, r)
  {
    r := orders;
    var j := i;
    while j < count - 1
      invariant i <= j <= count - 1 && |r| == |orders|
      invariant forall k :: 0 <= k < i ==> r[k] == orders[k]
      invariant forall k :: i <= k < j ==> r[k] == orders[k + 1]
      invariant forall k :: j <= k < |orders| ==> r[k] == orders[k]
    {
      r := r[j := r[j + 1]];
      j := j + 1;
    }
    r := r[count - 1 := null];
  }
}
