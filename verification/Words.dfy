/**
 * Unsigned 64-bit words as numbers: bitwise and by binary digits, complement, and what masking
 * with a power of two does.
 */
module Words {

  const WORD: nat := 0x1_0000_0000_0000_0000

  function Pow2(n: nat): (p: nat)
    ensures p > 0
  {
    if n == 0 then 1 else 2 * Pow2(n - 1)
  }

  /** Bitwise and. */
  function And(x: nat, y: nat): nat {
    if x == 0 || y == 0 then 0
    else 2 * And(x / 2, y / 2) + if x % 2 == 1 && y % 2 == 1 then 1 else 0
  }

  /** Bitwise or. */
  function Or(x: nat, y: nat): nat {
    if x == 0 then y
    else if y == 0 then x
    else 2 * Or(x / 2, y / 2) + if x % 2 == 1 || y % 2 == 1 then 1 else 0
  }

  /** Bitwise complement of a word. */
  function Not(x: nat): nat
    requires x < WORD
  {
    WORD - 1 - x
  }

  lemma {:induction false} AndSame(x: nat)
    ensures And(x, x) == x
  {
    if x > 0 { AndSame(x / 2); }
  }

  lemma {:induction false} AndBelow(x: nat, y: nat)
    ensures And(x, y) <= x
  {
    if x > 0 && y > 0 { AndBelow(x / 2, y / 2); }
  }

  lemma {:induction false} Pow2Split(m: nat, n: nat)
    requires m <= n
    ensures Pow2(n) == Pow2(m) * Pow2(n - m)
    decreases n
  {
    if m < n {
      Pow2Split(m, n - 1);
      var a, b := Pow2(m), Pow2(n - 1 - m);
      DoubledProduct(a, b);
    }
  }

  lemma DoubledProduct(a: nat, b: nat)
    ensures 2 * (a * b) == a * (2 * b)
  {
  }

  lemma Pow2Divides(m: nat, n: nat)
    requires m <= n
    ensures Pow2(n) % Pow2(m) == 0 && Pow2(m) <= Pow2(n)
  {
    Pow2Split(m, n);
    MultipleMod(Pow2(n - m), Pow2(m));
    MultipleAtLeast(Pow2(n - m), Pow2(m));
  }

  lemma MultipleMod(q: nat, a: nat)
    requires a > 0
    ensures (q * a) % a == 0 && (a * q) % a == 0
    decreases q
  {
    if q > 0 {
      MultipleMod(q - 1, a);
      assert q * a == (q - 1) * a + a;
      ModShift((q - 1) * a, a);
    }
  }

  lemma MultipleAtLeast(q: nat, a: nat)
    requires q > 0
    ensures a <= q * a && a <= a * q
  {
    assert q * a == a + (q - 1) * a;
  }

  lemma ModShift(x: int, a: nat)
    requires a > 0
    ensures (x + a) % a == x % a
  {
    var q, r := x / a, x % a;
    assert x + a == (q + 1) * a + r;
    DivModUnique(x + a, a, q + 1, r);
  }

  /** Quotient and remainder are determined by x == q * a + r. */
  lemma DivModUnique(x: int, a: nat, q: int, r: int)
    requires a > 0 && x == q * a + r && 0 <= r < a
    ensures x / a == q && x % a == r
  {
    var q', r' := x / a, x % a;
    Distribute(q, q', a);
    if q > q' { MultipleAtLeast(q - q', a); }
    if q < q' { MultipleAtLeast(q' - q, a); }
  }

  lemma Distribute(q: int, q': int, a: nat)
    ensures (q - q') * a == q * a - q' * a && (q' - q) * a == q' * a - q * a
  {
  }

  /** Halving takes the last binary digit off quotient and remainder. */
  lemma HalfMod(x: nat, k: nat)
    requires k > 0
    ensures x % Pow2(k) == 2 * ((x / 2) % Pow2(k - 1)) + x % 2
  {
    var p := Pow2(k - 1);
    var h := x / 2;
    var q, r := h / p, h % p;
    assert h == q * p + r;
    assert q * Pow2(k) == 2 * (q * p);
    DivModUnique(x, Pow2(k), q, 2 * r + x % 2);
  }

  /** Masking the low digits is the remainder. */
  lemma {:induction false} MaskLow(x: nat, k: nat)
    ensures And(x, Pow2(k) - 1) == x % Pow2(k)
    decreases k
  {
    if k > 0 {
      MaskLow(x / 2, k - 1);
      HalfMod(x, k);
      assert (Pow2(k) - 1) / 2 == Pow2(k - 1) - 1 && (Pow2(k) - 1) % 2 == 1;
      if x == 0 { assert 0 % Pow2(k) == 0; }
    }
  }

  /** Masking off the low digits rounds down to a multiple. */
  lemma {:induction false} MaskHigh(x: nat, k: nat, n: nat)
    requires k <= n && x < Pow2(n)
    ensures Pow2(k) <= Pow2(n) && And(x, Pow2(n) - Pow2(k)) == x - x % Pow2(k)
    decreases k
  {
    Pow2Divides(k, n);
    if k == 0 {
      MaskLow(x, n);
      DivModUnique(x, Pow2(n), 0, x);
    } else {
      MaskHigh(x / 2, k - 1, n - 1);
      HalfMod(x, k);
      var m := Pow2(n) - Pow2(k);
      assert m / 2 == Pow2(n - 1) - Pow2(k - 1) && m % 2 == 0;
      if m == 0 { assert x - x % Pow2(k) == 0 by { DivModUnique(x, Pow2(k), 0, x); } }
    }
  }

  lemma WordIsPow2()
    ensures Pow2(64) == WORD && Pow2(63) == WORD / 2 && Pow2(12) == 4096
  {
    assert Pow2(8) == 256;
    assert Pow2(12) == 4096;
    assert Pow2(16) == 65536;
    Pow2Split(16, 32);
    Pow2Split(32, 64);
    assert Pow2(64) == 2 * Pow2(63);
  }

  lemma {:induction false} Pow2Strict(m: nat, n: nat)
    requires m < n
    ensures Pow2(m) < Pow2(n)
    decreases n
  {
    if m < n - 1 { Pow2Strict(m, n - 1); }
  }

  /** Masking a word with the complement of a power of two less one rounds it down. */
  lemma MaskWord(x: nat, k: nat)
    requires x < WORD && k < 64
    ensures Pow2(k) < WORD && And(x, Not(Pow2(k) - 1)) == x - x % Pow2(k)
  {
    WordIsPow2();
    Pow2Strict(k, 64);
    MaskHigh(x, k, 64);
  }

  // ---------------------------------------------------------------- the power-of-two test

  /** `align && ((align - 1) & align) == 0` */
  predicate ValidAlign(align: nat) {
    align != 0 && And(align - 1, align) == 0
  }

  ghost predicate IsPow2(a: nat) {
    exists k: nat :: a == Pow2(k)
  }

  /** The bit test accepts exactly the powers of two. */
  lemma {:induction false} ValidAlignIff(a: nat)
    ensures ValidAlign(a) <==> IsPow2(a)
  {
    if a > 0 {
      var h := a / 2;
      if a % 2 == 0 {
        assert (a - 1) / 2 == h - 1 && (a - 1) % 2 == 1;
        ValidAlignIff(h);
        if IsPow2(h) {
          var k: nat :| h == Pow2(k);
          assert a == Pow2(k + 1);
        }
        if IsPow2(a) {
          var k: nat :| a == Pow2(k);
          assert h == Pow2(k - 1);
        }
      } else {
        assert (a - 1) / 2 == h && (a - 1) % 2 == 0;
        AndSame(h);
        if a == 1 { assert a == Pow2(0); }
        if IsPow2(a) {
          var k: nat :| a == Pow2(k);
          assert k == 0;
        }
      }
    }
  }

  ghost function Log2(a: nat): (k: nat)
    requires ValidAlign(a)
    ensures a == Pow2(k)
  {
    ValidAlignIff(a);
    var k: nat :| a == Pow2(k);
    k
  }
}
