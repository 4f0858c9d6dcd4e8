/** Bitwise operators on natural numbers, read off the binary digits: the source's unsigned
    integers are naturals below a power of two, so `&`, `^` and `>>` need no bit-vector type. */
module Bits {

  function Pow2(n: nat): (r: nat)
    ensures r > 0
  {
    if n == 0 then 1 else 2 * Pow2(n - 1)
  }

  lemma Pow2Word()
    ensures Pow2(64) == 0x1_0000_0000_0000_0000
  {
    assert Pow2(4) == 16;
    Pow2Double(4);
    Pow2Double(8);
    Pow2Double(16);
    Pow2Double(32);
  }

  lemma Pow2Double(n: nat)
    ensures Pow2(n + n) == Pow2(n) * Pow2(n)
  {
    Pow2Add(n, n);
  }

  lemma {:induction false} Pow2Add(m: nat, n: nat)
    ensures Pow2(m + n) == Pow2(m) * Pow2(n)
    decreases m
  {
    if m != 0 {
      Pow2Add(m - 1, n);
      assert 2 * (Pow2(m - 1) * Pow2(n)) == (2 * Pow2(m - 1)) * Pow2(n);
    }
  }

  function And(a: nat, b: nat): (r: nat)
    ensures r <= b
  {
    if a == 0 || b == 0 then 0 else 2 * And(a / 2, b / 2) + (a % 2) * (b % 2)
  }

  function Xor(a: nat, b: nat): nat {
    if a == 0 then b else if b == 0 then a else 2 * Xor(a / 2, b / 2) + (a % 2 + b % 2) % 2
  }

  function Shr(a: nat, n: nat): nat {
    if n == 0 then a else Shr(a / 2, n - 1)
  }

  lemma AndDigits(a: nat, b: nat)
    ensures And(a, b) == 2 * And(a / 2, b / 2) + (a % 2) * (b % 2)
  {
  }

  lemma AndOddMask(a: nat, p: nat)
    requires p > 0
    ensures And(a, 2 * p - 1) == 2 * And(a / 2, p - 1) + a % 2
  {
    hide And;
    AndDigits(a, 2 * p - 1);
  }

  /** Both index computations of the source (`hash & mask`, `head & mask`) take a mask that is one
      less than a power of two; on such a mask `&` is the remainder. */
  lemma {:induction false} AndMaskIsMod(a: nat, n: nat)
    ensures And(a, Pow2(n) - 1) == a % Pow2(n)
  {
    if n != 0 {
      AndMaskIsMod(a / 2, n - 1);
      HalfMod(a, Pow2(n - 1));
      AndOddMask(a, Pow2(n - 1));
    }
  }

  lemma HalfMod(a: nat, p: nat)
    requires p > 0
    ensures a % (2 * p) == 2 * (a / 2 % p) + a % 2
  {
    var q, r := a / 2 / p, a / 2 % p;
    assert a / 2 == q * p + r;
    assert a == (2 * p) * q + (2 * r + a % 2) by {
      assert a == 2 * (q * p + r) + a % 2;
      assert 2 * (q * p) == (2 * p) * q;
    }
    ModUnique(a, 2 * p, q, 2 * r + a % 2);
  }

  lemma ModUnique(a: int, m: int, q: int, r: int)
    requires m > 0 && 0 <= r < m && a == m * q + r
    ensures a % m == r && a / m == q
  {
    var d := a / m - q;
    assert a == m * (a / m) + a % m;
    assert m * d == r - a % m by { assert m * (a / m) - m * q == m * d; }
    assert d > 0 ==> m * d >= m;
    assert d < 0 ==> m * d <= -m;
  }

  // ---- Exclusive or ----

  lemma {:induction false} XorSelf(a: nat)
    ensures Xor(a, a) == 0
  {
    if a != 0 { XorSelf(a / 2); }
  }

  lemma {:induction false} XorDigits(a: nat, b: nat)
    ensures Xor(a, b) / 2 == Xor(a / 2, b / 2) && Xor(a, b) % 2 == (a % 2 + b % 2) % 2
  {
  }

  lemma {:induction false} XorAssoc(a: nat, b: nat, c: nat)
    ensures Xor(Xor(a, b), c) == Xor(a, Xor(b, c))
    decreases a + b + c
  {
    if a != 0 && b != 0 && c != 0 {
      XorAssoc(a / 2, b / 2, c / 2);
      XorAssocStep(a, b, c);
    }
  }

  lemma XorAssocStep(a: nat, b: nat, c: nat)
    requires Xor(Xor(a / 2, b / 2), c / 2) == Xor(a / 2, Xor(b / 2, c / 2))
    ensures Xor(Xor(a, b), c) == Xor(a, Xor(b, c))
  {
    hide Xor;
    DigitsLeft(a, b, c);
    DigitsRight(a, b, c);
    ParityAssoc(a % 2, b % 2, c % 2);
    SameDigits(Xor(Xor(a, b), c), Xor(a, Xor(b, c)));
  }

  lemma DigitsLeft(a: nat, b: nat, c: nat)
    ensures Xor(Xor(a, b), c) / 2 == Xor(Xor(a / 2, b / 2), c / 2)
    ensures Xor(Xor(a, b), c) % 2 == ((a % 2 + b % 2) % 2 + c % 2) % 2
  {
    hide Xor;
    XorDigits(a, b);
    XorDigits(Xor(a, b), c);
  }

  lemma DigitsRight(a: nat, b: nat, c: nat)
    ensures Xor(a, Xor(b, c)) / 2 == Xor(a / 2, Xor(b / 2, c / 2))
    ensures Xor(a, Xor(b, c)) % 2 == (a % 2 + (b % 2 + c % 2) % 2) % 2
  {
    hide Xor;
    XorDigits(b, c);
    XorDigits(a, Xor(b, c));
  }

  lemma ParityAssoc(x: nat, y: nat, z: nat)
    requires x < 2 && y < 2 && z < 2
    ensures ((x + y) % 2 + z) % 2 == (x + (y + z) % 2) % 2
  {
  }

  lemma SameDigits(x: nat, y: nat)
    requires x / 2 == y / 2 && x % 2 == y % 2
    ensures x == y
  {
  }

  lemma {:induction false} XorShr(a: nat, b: nat, n: nat)
    ensures Shr(Xor(a, b), n) == Xor(Shr(a, n), Shr(b, n))
    decreases n
  {
    if n != 0 {
      XorDigits(a, b);
      XorShr(a / 2, b / 2, n - 1);
    }
  }

  lemma {:induction false} XorBound(a: nat, b: nat, n: nat)
    requires a < Pow2(n) && b < Pow2(n)
    ensures Xor(a, b) < Pow2(n)
    decreases n
  {
    if n != 0 {
      XorBound(a / 2, b / 2, n - 1);
      XorDigits(a, b);
    }
  }

  // ---- Shifts ----

  lemma {:induction false} ShrCompose(a: nat, m: nat, n: nat)
    ensures Shr(Shr(a, m), n) == Shr(a, m + n)
    decreases m
  {
    if m != 0 { ShrCompose(a / 2, m - 1, n); }
  }

  lemma {:induction false} ShrVanishes(a: nat, w: nat, n: nat)
    requires a < Pow2(w) && w <= n
    ensures Shr(a, n) == 0
    decreases n
  {
    if n != 0 { ShrVanishes(a / 2, if w == 0 then 0 else w - 1, n - 1); }
  }

  lemma {:induction false} ShrBound(a: nat, n: nat)
    ensures Shr(a, n) <= a
    decreases n
  {
    if n != 0 { ShrBound(a / 2, n - 1); }
  }

  /** `x ^= x >> n` undoes itself once twice the shift reaches the word width. */
  lemma XorShiftInvolution(a: nat, w: nat, n: nat)
    requires a < Pow2(w) && w <= 2 * n
    ensures var x := Xor(a, Shr(a, n)); x < Pow2(w) && Xor(x, Shr(x, n)) == a
  {
    var s := Shr(a, n);
    var x := Xor(a, s);
    ShrBound(a, n);
    XorBound(a, s, w);
    XorShr(a, s, n);
    ShrCompose(a, n, n);
    ShrVanishes(a, w, n + n);
    assert Shr(x, n) == s;
    XorAssoc(a, s, s);
    XorSelf(s);
  }

  lemma {:induction false} AndSelf(a: nat)
    ensures And(a, a) == a
  {
    if a != 0 { AndSelf(a / 2); }
  }

  ghost predicate PowerOfTwo(size: nat) {
    exists n: nat :: size == Pow2(n)
  }

  lemma PowerOfTwoHalf(size: nat)
    requires size > 1
    ensures PowerOfTwo(size) <==> size % 2 == 0 && PowerOfTwo(size / 2)
  {
    if PowerOfTwo(size) {
      var n: nat :| size == Pow2(n);
      assert n != 0 && size == 2 * Pow2(n - 1);
    }
    if size % 2 == 0 && PowerOfTwo(size / 2) {
      var n: nat :| size / 2 == Pow2(n);
      assert size == Pow2(n + 1);
    }
  }

  /** The test `size & (size - 1) == 0` accepts exactly the powers of two. */
  lemma {:induction false} PowerOfTwoTest(size: nat)
    requires size > 0
    ensures And(size, size - 1) == 0 <==> PowerOfTwo(size)
  {
    hide And;
    if size == 1 {
      assert size == Pow2(0);
      assert And(1, 0) == 0;
    } else {
      PowerOfTwoHalf(size);
      AndDigits(size, size - 1);
      if size % 2 == 0 {
        PowerOfTwoTest(size / 2);
        assert (size - 1) / 2 == size / 2 - 1;
      } else {
        AndSelf(size / 2);
      }
    }
  }

  lemma ModApart(i: nat, j: nat, m: nat)
    requires i < j < i + m
    ensures i % m != j % m
  {
    var p, q, r := i / m, j / m, i % m;
    assert i == m * p + r;
    if j % m == r {
      assert j == m * q + r;
      assert j - i == m * (q - p);
      NoMultipleBetween(m, q - p);
    }
  }

  lemma NoMultipleBetween(m: nat, d: int)
    ensures !(0 < m * d < m)
  {
    if d >= 1 { assert m * d == m + m * (d - 1); }
  }

  /** Two positions less than a buffer apart fall into different slots. */
  lemma SlotsApart(i: nat, j: nat, n: nat)
    requires i < j < i + Pow2(n)
    ensures And(i, Pow2(n) - 1) != And(j, Pow2(n) - 1)
  {
    hide And, Pow2;
    AndMaskIsMod(i, n);
    AndMaskIsMod(j, n);
    ModApart(i, j, Pow2(n));
  }
}
