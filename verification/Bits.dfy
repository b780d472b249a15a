// Unsigned machine words as natural numbers.
//
// The C code uses &, |, ^ and shifts.  They are defined here bit by bit, and
// each use the kernel makes of them (toggle one bit, mask an aligned field,
// set low bits of an aligned value) is proved equal to ordinary arithmetic.
module Bits {

  function Pow2(k: nat): (p: nat)
    ensures p >= 1
  {
    if k == 0 then 1 else 2 * Pow2(k - 1)
  }

  function And(a: nat, b: nat): nat {
    if a == 0 || b == 0 then 0 else (a % 2) * (b % 2) + 2 * And(a / 2, b / 2)
  }

  function Or(a: nat, b: nat): nat {
    if a == 0 then b
    else if b == 0 then a
    else (if a % 2 == 1 || b % 2 == 1 then 1 else 0) + 2 * Or(a / 2, b / 2)
  }

  function Xor(a: nat, b: nat): nat {
    if a == 0 then b
    else if b == 0 then a
    else (if a % 2 == b % 2 then 0 else 1) + 2 * Xor(a / 2, b / 2)
  }

  function Shl(x: nat, k: nat): nat {
    x * Pow2(k)
  }

  function Shr(x: nat, k: nat): nat {
    QuotientNonNegative(x, Pow2(k)); x / Pow2(k)
  }

  predicate Aligned(x: nat, k: nat) {
    x % Pow2(k) == 0
  }

  lemma QuotientNonNegative(x: nat, d: nat)
    requires d > 0
    ensures x / d >= 0
  {
    assert x == (x / d) * d + x % d;
    if x / d < 0 { MulMono(x / d, -1, d); }
  }

  // ---- division by powers of two -------------------------------------------

  lemma DivUnique(x: nat, d: nat, q: int, r: int)
    requires 0 <= r < d && x == q * d + r
    ensures x / d == q && x % d == r
  {
    var q', r' := x / d, x % d;
    assert x == d * q' + r';
    assert (q' - q) * d == r - r';
    SmallMultiple(q' - q, d);
  }

  lemma SmallMultiple(m: int, d: nat)
    requires -(d as int) < m * d < d
    ensures m == 0
  {
    if m >= 1 { MulMono(1, m, d); }
    if m <= -1 { MulMono(m, -1, d); }
  }

  lemma MulMono(a: int, b: int, s: nat)
    requires a <= b
    ensures a * s <= b * s
  {
    assert (b - a) * s >= 0;
  }

  /** Multiples of s that are ordered strictly are at least s apart. */
  lemma MulGap(a: int, b: int, s: nat)
    requires a * s < b * s
    ensures a < b && (a + 1) * s <= b * s
  {
    if b <= a { MulMono(b, a, s); }
    MulMono(a + 1, b, s);
  }

  lemma Halve(x: nat, k: nat)
    requires k > 0
    ensures x / Pow2(k) == (x / 2) / Pow2(k - 1)
    ensures x % Pow2(k) == 2 * ((x / 2) % Pow2(k - 1)) + x % 2
  {
    var d := Pow2(k - 1);
    var q, r := (x / 2) / d, (x / 2) % d;
    assert x / 2 == d * q + r;
    assert x == q * (2 * d) + (2 * r + x % 2);
    DivUnique(x, 2 * d, q, 2 * r + x % 2);
  }

  lemma Pow2Mono(a: nat, b: nat)
    requires a <= b
    ensures Pow2(a) <= Pow2(b)
  {
    if a < b { Pow2Mono(a, b - 1); }
  }

  lemma Pow2Add(a: nat, b: nat)
    ensures Pow2(a + b) == Pow2(a) * Pow2(b)
  {
    if a > 0 {
      Pow2Add(a - 1, b);
      assert Pow2(a + b) == 2 * Pow2(a - 1 + b);
    } else {
      assert Pow2(a) == 1;
    }
  }

  lemma {:induction false} AlignedDown(x: nat, lo: nat, hi: nat)
    requires lo <= hi && Aligned(x, hi)
    ensures Aligned(x, lo)
  {
    if lo > 0 {
      Halve(x, hi);
      Halve(x, lo);
      AlignedDown(x / 2, lo - 1, hi - 1);
    }
  }

  lemma AlignedMultiple(x: nat, k: nat)
    requires Aligned(x, k)
    ensures x == (x / Pow2(k)) * Pow2(k)
  {
  }

  lemma Multiple(x: nat, k: nat) returns (q: nat)
    requires Aligned(x, k)
    ensures x == q * Pow2(k)
  {
    QuotientNonNegative(x, Pow2(k));
    q := x / Pow2(k);
  }

  // ---- single bits ---------------------------------------------------------

  /** Toggling bit k: the meaning of `pfn ^ (1 << k)`. */
  lemma {:induction false} XorBit(x: nat, k: nat)
    ensures Xor(x, Shl(1, k)) ==
            if Shr(x, k) % 2 == 0 then x + Pow2(k) else x - Pow2(k)
  {
    if k == 0 {
      assert Pow2(0) == 1;
      XorZero(x / 2);
      XorStep(x, 1);
    } else {
      Halve(x, k);
      XorBit(x / 2, k - 1);
      XorStep(x, Pow2(k));
    }
  }

  lemma XorStep(a: nat, b: nat)
    ensures Xor(a, b) == (if a % 2 == b % 2 then 0 else 1) + 2 * Xor(a / 2, b / 2)
  {
  }

  lemma XorZero(x: nat)
    ensures Xor(x, 0) == x
  {
  }

  lemma AndStep(a: nat, b: nat)
    ensures And(a, b) / 2 == And(a / 2, b / 2)
    ensures And(a, b) % 2 == if a % 2 == 1 && b % 2 == 1 then 1 else 0
  {
    if a > 0 && b > 0 {
      AndUnfold(a, b);
      BitProduct(a % 2, b % 2, And(a / 2, b / 2));
    }
  }

  lemma AndUnfold(a: nat, b: nat)
    requires a > 0 && b > 0
    ensures And(a, b) == (a % 2) * (b % 2) + 2 * And(a / 2, b / 2)
  {
  }

  lemma BitProduct(x: nat, y: nat, n: nat)
    requires x < 2 && y < 2
    ensures var r := x * y + 2 * n; r / 2 == n && r % 2 == if x == 1 && y == 1 then 1 else 0
  {
    assert x == 0 || x == 1;
  }

  /** Intersecting a value with itself is the identity. */
  lemma {:induction false} AndSelf(x: nat)
    ensures And(x, x) == x
  {
    if x > 0 {
      AndSelf(x / 2);
      AndStep(x, x);
    }
  }

  lemma {:induction false} AndComm(a: nat, b: nat)
    ensures And(a, b) == And(b, a)
  {
    if a > 0 && b > 0 { AndComm(a / 2, b / 2); }
  }

  /** Two neighbours that differ only in bit k intersect to the lower one. */
  lemma {:induction false} AndNeighbour(x: nat, k: nat)
    requires Aligned(x, k) && Shr(x, k) % 2 == 0
    ensures And(x, x + Pow2(k)) == x
    ensures And(x + Pow2(k), x) == x
  {
    hide And;
    AndComm(x, x + Pow2(k));
    AndStep(x, x + Pow2(k));
    if k == 0 {
      assert Pow2(0) == 1;
      assert (x + 1) / 2 == x / 2 && (x + 1) % 2 == 1;
      AndSelf(x / 2);
    } else {
      Halve(x, k);
      AndNeighbour(x / 2, k - 1);
      assert (x + Pow2(k)) / 2 == x / 2 + Pow2(k - 1);
      assert (x + Pow2(k)) % 2 == x % 2 == 0;
    }
  }

  // ---- fields --------------------------------------------------------------

  /** A union acts separately on the low k bits and on the bits above them. */
  lemma {:induction false} OrSplit(p: nat, x: nat, q: nat, y: nat, k: nat)
    requires x < Pow2(k) && y < Pow2(k)
    ensures Or(x, y) < Pow2(k)
    ensures Or(p * Pow2(k) + x, q * Pow2(k) + y) == Or(p, q) * Pow2(k) + Or(x, y)
  {
    hide Or;
    if k == 0 {
      assert Pow2(0) == 1 && x == 0 && y == 0;
      OrZero(0);
    } else {
      var d := Pow2(k - 1);
      assert Pow2(k) == 2 * d;
      hide Pow2;
      OrSplit(p, x / 2, q, y / 2, k - 1);
      HalfOf(p, d, x);
      HalfOf(q, d, y);
      OrStep(x, y);
      OrStep(p * (2 * d) + x, q * (2 * d) + y);
      HalvesAgree(Or(p * (2 * d) + x, q * (2 * d) + y), Or(x, y), Or(p, q), d);
    }
  }

  lemma HalfOf(p: nat, d: nat, x: nat)
    ensures (p * (2 * d) + x) / 2 == p * d + x / 2 && (p * (2 * d) + x) % 2 == x % 2
  {
    TwiceProduct(p, d);
  }

  lemma HalvesAgree(u: nat, z: nat, h: nat, d: nat)
    requires u / 2 == h * d + z / 2 && u % 2 == z % 2
    ensures u == h * (2 * d) + z
  {
    TwiceProduct(h, d);
  }

  lemma TwiceProduct(h: nat, d: nat)
    ensures 2 * (h * d) == h * (2 * d)
  {
  }

  lemma OrStep(a: nat, b: nat)
    ensures Or(a, b) / 2 == Or(a / 2, b / 2)
    ensures Or(a, b) % 2 == if a % 2 == 1 || b % 2 == 1 then 1 else 0
  {
  }

  lemma SmallMod(x: nat, d: nat)
    requires x < d
    ensures x % d == x && x / d == 0
  {
  }

  /** Setting low bits of an aligned value is addition. */
  lemma OrLow(a: nat, b: nat, k: nat)
    requires Aligned(a, k) && b < Pow2(k)
    ensures Or(a, b) == a + b && Or(b, a) == a + b
  {
    var q := Multiple(a, k);
    LowBits(q, b, k);
  }

  lemma LowBits(q: nat, b: nat, k: nat)
    requires b < Pow2(k)
    ensures Or(q * Pow2(k), b) == q * Pow2(k) + b && Or(b, q * Pow2(k)) == q * Pow2(k) + b
  {
    hide Or, Pow2;
    OrZero(q);
    OrZero(b);
    OrSplit(q, 0, 0, b, k);
    OrSplit(0, b, q, 0, k);
  }

  lemma OrZero(x: nat)
    ensures Or(x, 0) == x && Or(0, x) == x
  {
  }

  /** The bits of b and of c are all set in a | b | c. */
  lemma {:induction false} OrKeeps(a: nat, b: nat, c: nat)
    ensures And(Or(a, Or(b, c)), b) == b && And(Or(a, Or(b, c)), c) == c
    decreases a + b + c
  {
    if a + b + c > 0 {
      OrKeeps(a / 2, b / 2, c / 2);
      hide And, Or;
      OrStep(b, c);
      OrStep(a, Or(b, c));
      AndStep(Or(a, Or(b, c)), b);
      AndStep(Or(a, Or(b, c)), c);
    }
  }

  /** Masking with 2^k - 1 keeps the remainder. */
  lemma {:induction false} AndLow(x: nat, k: nat)
    ensures And(x, Pow2(k) - 1) == x % Pow2(k)
  {
    if k > 0 {
      Halve(x, k);
      AndLow(x / 2, k - 1);
      assert (Pow2(k) - 1) / 2 == Pow2(k - 1) - 1;
      assert (Pow2(k) - 1) % 2 == 1;
    }
  }

  /** Masking with a field of m ones above k zeros keeps exactly that field. */
  lemma {:induction false} AndField(x: nat, k: nat, m: nat)
    ensures And(x, (Pow2(m) - 1) * Pow2(k)) == (x / Pow2(k)) % Pow2(m) * Pow2(k)
    decreases k
  {
    if k == 0 {
      AndLow(x, m);
      assert Pow2(0) == 1;
    } else {
      var d := Pow2(k - 1);
      var f := (Pow2(m) - 1) * d;
      Halve(x, k);
      AndField(x / 2, k - 1, m);
      TwiceProduct(Pow2(m) - 1, d);
      AndEven(x, f);
      TwiceProduct((x / Pow2(k)) % Pow2(m), d);
    }
  }

  lemma AndEven(x: nat, f: nat)
    ensures And(x, 2 * f) == 2 * And(x / 2, f)
  {
  }

  // ---- ALIGN and packed words ----------------------------------------------

  const U32: nat := 0x1_0000_0000
  const WORD: nat := 0x1_0000_0000_0000_0000

  /** The powers of two that occur as constants. */
  lemma Pow2Values()
    ensures Pow2(3) == 8 && Pow2(9) == 0x200 && Pow2(12) == 0x1000 && Pow2(32) == U32
    ensures Pow2(36) == 0x10_0000_0000 && Pow2(48) == 0x1_0000_0000_0000 && Pow2(64) == WORD
  {
    assert Pow2(3) == 8;
    hide Pow2;
    Pow2Add(3, 3);
    Pow2Add(6, 3);
    Pow2Add(9, 3);
    Pow2Add(12, 12);
    Pow2Add(24, 12);
    Pow2Add(36, 12);
    Pow2Double();
  }

  lemma Pow2Double()
    ensures Pow2(32) == U32 && Pow2(64) == WORD
  {
    assert Pow2(8) == 0x100;
    hide Pow2;
    Squared(8, 0x100);
    Squared(16, 0x1_0000);
    Squared(32, U32);
  }

  lemma Squared(k: nat, v: nat)
    requires Pow2(k) == v
    ensures Pow2(2 * k) == v * v
  {
    Pow2Add(k, k);
  }

  /** The C macro: add a - 1, then mask with the 64-bit complement of a - 1. */
  function AlignUp(x: nat, a: nat): nat
    requires 0 < a <= WORD
  {
    And(x + a - 1, WORD - a)
  }

  /** For a power of two, ALIGN is the least multiple at or above x. */
  lemma AlignUpLeast(x: nat, k: nat)
    requires k <= 64 && x + Pow2(k) <= WORD
    ensures var c := AlignUp(x, Pow2(k));
            Aligned(c, k) && x <= c < x + Pow2(k) && forall m: nat :: Aligned(m, k) && m >= x ==> c <= m
  {
    Pow2Values();
    Pow2Mono(k, 64);
    MaskIsFloor(x + Pow2(k) - 1, k, 64);
    hide And, Pow2;
    LeastMultiple(x, Pow2(k));
  }

  /** Masking a w-bit word with the complement of 2^k - 1 clears its low k bits. */
  lemma {:induction false} MaskIsFloor(y: nat, k: nat, w: nat)
    requires k <= w && y < Pow2(w)
    ensures Pow2(k) <= Pow2(w)
    ensures And(y, Pow2(w) - Pow2(k)) == y / Pow2(k) * Pow2(k)
  {
    Pow2Mono(k, w);
    hide And;
    if k == 0 {
      AndLow(y, w);
      SmallMod(y, Pow2(w));
    } else {
      MaskIsFloor(y / 2, k - 1, w - 1);
      AndEven(y, Pow2(w - 1) - Pow2(k - 1));
      Halve(y, k);
      TwiceProduct(y / 2 / Pow2(k - 1), Pow2(k - 1));
    }
  }

  lemma LeastMultiple(x: nat, a: nat)
    requires a > 0
    ensures var c := (x + a - 1) / a * a;
            c % a == 0 && x <= c < x + a && forall m: nat :: m % a == 0 && m >= x ==> c <= m
  {
    var y := x + a - 1;
    var q := y / a;
    assert y == q * a + y % a;
    DivUnique(q * a, a, q, 0);
    forall m: nat | m % a == 0 && m >= x ensures q * a <= m {
      assert m == m / a * a;
      MultipleAbove(q, m / a, a, y);
    }
  }

  lemma MultipleAbove(q: nat, n: nat, a: nat, y: nat)
    requires a > 0 && q * a <= y < n * a + a
    ensures q * a <= n * a
  {
    assert (n + 1) * a == n * a + a;
    MulGap(q, n + 1, a);
    MulMono(q, n, a);
  }

  lemma QuotientBelow(y: nat, a: nat, n: nat)
    requires a > 0 && y < n * a
    ensures y / a < n
  {
    assert y == (y / a) * a + y % a;
    MulGap(y / a, n, a);
  }

  /** Two 32-bit indices in one 64-bit word, as the region iterator keeps them. */
  function Pack(lo: nat, hi: nat): nat {
    Or(lo % U32, Shl(hi, 32))
  }

  lemma Unpack(lo: nat, hi: nat)
    requires lo < U32
    ensures And(Pack(lo, hi), U32 - 1) == lo && Shr(Pack(lo, hi), 32) == hi
  {
    Pow2Values();
    PackIs(lo, hi);
    hide And, Or, Pow2, Pack;
    AndLow(hi * U32 + lo, 32);
    DivUnique(hi * U32 + lo, U32, hi, lo);
  }

  lemma PackIs(lo: nat, hi: nat)
    requires lo < U32
    ensures Pack(lo, hi) == hi * U32 + lo
  {
    Pow2Values();
    SmallMod(lo, U32);
    DivUnique(hi * U32, U32, hi, 0);
    hide Or, Pow2;
    OrLow(hi * U32, lo, 32);
  }
}
