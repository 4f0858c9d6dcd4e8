/** Machine integers, protocol constants, the order-id hash and the shared record types
    (internal/core/types.go). */
module Core {
  import opened Bits

  datatype Option<+T> = None | Some(value: T)

  const TWO_32: int := 0x1_0000_0000
  const TWO_64: int := 0x1_0000_0000_0000_0000

  type uint8 = x: int | 0 <= x < 256
  type uint16 = x: int | 0 <= x < 0x1_0000
  type uint32 = x: int | 0 <= x < 0x1_0000_0000
  type uint64 = x: int | 0 <= x < 0x1_0000_0000_0000_0000
  type int32 = x: int | -0x8000_0000 <= x < 0x8000_0000
  type int64 = x: int | -0x8000_0000_0000_0000 <= x < 0x8000_0000_0000_0000

  /** Two's-complement truncation: the value Go's int32 arithmetic leaves behind. */
  function Wrap32(x: int): (r: int32)
    ensures -0x8000_0000 <= x < 0x8000_0000 ==> r == x
  {
    var m := x % 0x1_0000_0000;
    if m < 0x8000_0000 then m else m - 0x1_0000_0000
  }

  function Wrap64(x: int): (r: int64)
    ensures -0x8000_0000_0000_0000 <= x < 0x8000_0000_0000_0000 ==> r == x
  {
    var m := x % 0x1_0000_0000_0000_0000;
    if m < 0x8000_0000_0000_0000 then m else m - 0x1_0000_0000_0000_0000
  }

  function Times32(d: int): int {
    0x1_0000_0000 * d
  }

  /** Equal up to a multiple of 2^32, which is all an overflowing int32 difference preserves. */
  ghost predicate Congruent32(x: int, y: int) {
    exists d :: x - y == Times32(d)
  }

  lemma Wrap32Congruent(x: int)
    ensures Congruent32(Wrap32(x), x)
  {
    assert Wrap32(x) - x == Times32(-(x / TWO_32) - if Wrap32(x) < 0 then 1 else 0);
  }

  lemma Wrap64Congruent(x: int, y: int, dx: int, dy: int)
    requires Congruent32(x, y) && Congruent32(dx, dy)
    ensures Congruent32(Wrap64(x + dx), y + dy)
  {
    var w := Wrap64(x + dx);
    var b :| x - y == Times32(b);
    var c :| dx - dy == Times32(c);
    var a := -((x + dx) / TWO_64) - if w < 0 then 1 else 0;
    assert w - (y + dy) == Times32(TWO_32 * a + b + c);
  }

  predicate Fits32(x: int) {
    -0x8000_0000 <= x < 0x8000_0000
  }

  predicate Fits64(x: int) {
    -0x8000_0000_0000_0000 <= x < 0x8000_0000_0000_0000
  }

  function Times64(d: int): int {
    0x1_0000_0000_0000_0000 * d
  }

  /** The only value a wrapped sum can take is the representable one of its residue class. */
  lemma Wrap64Is(x: int, y: int, d: int)
    requires x - y == Times64(d) && Fits64(y)
    ensures Wrap64(x) == y
  {
    ModUnique(x, TWO_64, if y < 0 then d - 1 else d, if y < 0 then y + TWO_64 else y);
  }

  lemma Wrap64Class(x: int) returns (d: int)
    ensures x - Wrap64(x) == Times64(d)
  {
    d := x / TWO_64 + if Wrap64(x) < 0 then 1 else 0;
  }

  lemma Wrap32Class(x: int) returns (d: int)
    ensures x - Wrap32(x) == Times32(d) && (Fits32(x) <==> d == 0)
  {
    d := x / TWO_32 + if Wrap32(x) < 0 then 1 else 0;
  }

  lemma Wrap64Add(x: int, d: int)
    ensures Wrap64(Wrap64(x) + d) == Wrap64(x + d)
  {
    var p := Wrap64Class(x);
    var q := Wrap64Class(x + d);
    Wrap64Is(Wrap64(x) + d, Wrap64(x + d), q - p);
  }

  /** A 64-bit sum that is off by a 32-bit overflow cannot come out right. */
  lemma Wrap64Off(x: int, y: int, d: int)
    requires x - y == Times32(d) && -2 <= d <= 2
    ensures Wrap64(x) == y <==> Fits64(y) && d == 0
  {
    var p := Wrap64Class(x);
  }

  lemma Wrap64Near(x: int, y: int)
    requires -0x1_0000_0000_0000_0000 < x - y < 0x1_0000_0000_0000_0000
    ensures Wrap64(x) == y <==> x == y && Fits64(y)
  {
    var d := Wrap64Class(x);
    if x == y && Fits64(y) { Wrap64Is(x, y, 0); }
  }

  lemma CongruentSelf(x: int)
    ensures Congruent32(x, x)
  {
    assert x - x == Times32(0);
  }

  const SIDE_BUY: uint8 := 66   // 'B'
  const SIDE_SELL: uint8 := 83  // 'S'

  const MAX_SPIN_WAIT_GAP: uint32 := 8

  datatype OrderMessage =
    OrderMessage(orderId: uint64, token: uint32, side: uint8, price: int32, quantity: int32)

  datatype TradeMessage =
    TradeMessage(buyId: uint64, sellId: uint64, token: uint32, price: int32, quantity: int32)

  /** A feed message. The payload appears as what each parser makes of it: None where the source's
      length check rejects it. */
  datatype RawMessage = RawMessage(
    streamId: uint16, seqNo: uint32, msgType: char,
    order: Option<OrderMessage>, trade: Option<TradeMessage>, lastSeq: Option<uint32>)

  // ---- The order-id hash ----

  const MULTIPLIER1: uint64 := 0xff51afd7ed558ccd
  const MULTIPLIER2: uint64 := 0xc4ceb9fe1a85ec53

  function XorShift33(key: uint64): (r: uint64) {
    Pow2Word();
    ShrBound(key, 33);
    XorBound(key, Shr(key, 33), 64);
    Xor(key, Shr(key, 33))
  }

  function Multiply64(key: uint64, factor: uint64): uint64 {
    key * factor % 0x1_0000_0000_0000_0000
  }

  function FastHash64(key: uint64): uint64 {
    var k1 := XorShift33(key);
    var k2 := Multiply64(k1, MULTIPLIER1);
    var k3 := XorShift33(k2);
    var k4 := Multiply64(k3, MULTIPLIER2);
    XorShift33(k4)
  }

  /** The inverse hash: the same three xor-shifts around the inverse multipliers. */
  function UnhashFast64(hash: uint64): uint64 {
    var k4 := XorShift33(hash);
    var k3 := Multiply64(k4, 0x9cb4b2f8129337db);
    var k2 := XorShift33(k3);
    var k1 := Multiply64(k2, 0x4f74430c22a54005);
    XorShift33(k1)
  }

  lemma XorShift33Involution(key: uint64)
    ensures XorShift33(XorShift33(key)) == key
  {
    Pow2Word();
    XorShiftInvolution(key, 64, 33);
  }

  lemma Multiply64Cancels(key: uint64, f: uint64, g: uint64)
    requires f * g % 0x1_0000_0000_0000_0000 == 1
    ensures Multiply64(Multiply64(key, f), g) == key
  {
    var m := 0x1_0000_0000_0000_0000;
    var q := key * f / m;
    var s := f * g / m;
    assert key * f == m * q + Multiply64(key, f);
    assert f * g == m * s + 1;
    calc {
      Multiply64(key, f) * g;
      (key * f - m * q) * g;
      key * f * g - m * q * g;
      { assert key * f * g == key * (f * g); }
      key * (m * s + 1) - m * q * g;
      m * (key * s - q * g) + key;
    }
    ModUnique(Multiply64(key, f) * g, m, key * s - q * g, key);
  }

  lemma UnhashAfterHash(key: uint64)
    ensures UnhashFast64(FastHash64(key)) == key
  {
    hide XorShift33, Multiply64;
    var k1 := XorShift33(key);
    XorShift33Involution(key);
    var k2 := Multiply64(k1, MULTIPLIER1);
    Multiply64Cancels(k1, MULTIPLIER1, 0x4f74430c22a54005);
    XorShift33Involution(k2);
    var k3 := XorShift33(k2);
    Multiply64Cancels(k3, MULTIPLIER2, 0x9cb4b2f8129337db);
    XorShift33Involution(Multiply64(k3, MULTIPLIER2));
  }

  lemma HashAfterUnhash(key: uint64)
    ensures FastHash64(UnhashFast64(key)) == key
  {
    hide XorShift33, Multiply64;
    var k1 := XorShift33(key);
    XorShift33Involution(key);
    Multiply64Cancels(k1, 0x9cb4b2f8129337db, MULTIPLIER2);
    var j2 := Multiply64(k1, 0x9cb4b2f8129337db);
    XorShift33Involution(j2);
    var j3 := XorShift33(j2);
    Multiply64Cancels(j3, 0x4f74430c22a54005, MULTIPLIER1);
    XorShift33Involution(Multiply64(j3, 0x4f74430c22a54005));
  }

  /** The hash is a bijection on 64-bit keys, so two ids meet in a bucket only through the mask. */
  lemma FastHash64Bijective(key: uint64)
    ensures UnhashFast64(FastHash64(key)) == key
    ensures FastHash64(UnhashFast64(key)) == key
  {
    hide FastHash64, UnhashFast64;
    UnhashAfterHash(key);
    HashAfterUnhash(key);
  }

  /** Bucket of an order id in a table of mask + 1 buckets. */
  function Slot(id: uint64, mask: nat): (r: nat)
    ensures r <= mask
  {
    And(FastHash64(id), mask)
  }

  /** Ids share a bucket of a 2^n table exactly when their hashes agree in the low n bits, and two
      different ids never agree in all of them. */
  lemma SlotCollision(id1: uint64, id2: uint64, n: nat)
    ensures Slot(id1, Pow2(n) - 1) == Slot(id2, Pow2(n) - 1) <==>
              FastHash64(id1) % Pow2(n) == FastHash64(id2) % Pow2(n)
    ensures n >= 64 && Slot(id1, Pow2(n) - 1) == Slot(id2, Pow2(n) - 1) ==> id1 == id2
  {
    var h1, h2 := FastHash64(id1), FastHash64(id2);
    AndMaskIsMod(h1, n);
    AndMaskIsMod(h2, n);
    if n >= 64 {
      Pow2Word();
      Pow2Monotonic(64, n);
      SmallMod(h1, Pow2(n));
      SmallMod(h2, Pow2(n));
      FastHash64Bijective(id1);
      FastHash64Bijective(id2);
    }
  }

  lemma SmallMod(a: nat, m: nat)
    requires a < m
    ensures a % m == a
  {
    ModUnique(a, m, 0, a);
  }

  lemma {:induction false} Pow2Monotonic(m: nat, n: nat)
    requires m <= n
    ensures Pow2(m) <= Pow2(n)
    decreases n
  {
    if m < n { Pow2Monotonic(m, n - 1); }
  }
}
