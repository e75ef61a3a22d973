/** Arithmetic on unbounded naturals standing in for the fixed-width
    shifts of cidr-rs: `x >> n` is `x / Pow2(n)`, `x << n` is
    `x * Pow2(n)` (only ever used where the product stays in range), and
    `(x >> n) << n` clears the low `n` bits. */
module Bits {

  function Pow2(n: nat): (r: nat)
    ensures r >= 1
  {
    if n == 0 then 1 else 2 * Pow2(n - 1)
  }

  /** `(x >> n) << n`: `x` with its low `n` bits cleared. */
  function MaskDown(x: nat, n: nat): nat
  {
    DivNat(x, Pow2(n));
    var q: nat := x / Pow2(n);
    MulLe(0, q, Pow2(n));
    q * Pow2(n)
  }

  /** Dividing a natural by a positive number gives a natural. */
  lemma DivNat(x: nat, d: nat)
    requires d > 0
    ensures x / d >= 0
  {
    assert x == (x / d) * d + x % d && x % d < d;
  }

  /** `x` has its low `n` bits clear. */
  predicate Aligned(x: nat, n: nat)
  {
    x % Pow2(n) == 0
  }

  lemma {:induction false} Pow2Add(a: nat, b: nat)
    ensures Pow2(a + b) == Pow2(a) * Pow2(b)
  {
    if a > 0 {
      Pow2Add(a - 1, b);
      calc {
        Pow2(a + b);
        2 * Pow2(a - 1 + b);
        2 * (Pow2(a - 1) * Pow2(b));
        (2 * Pow2(a - 1)) * Pow2(b);
      }
    }
  }

  /** The powers the fixed widths use, spelled out. */
  lemma Pow2Values()
    ensures Pow2(7) == 0x80 && Pow2(8) == 0x100 && Pow2(16) == 0x1_0000
    ensures Pow2(32) == 0x1_0000_0000
    ensures Pow2(128) == 0x1_0000_0000_0000_0000_0000_0000_0000_0000
  {
    Pow2Small();
    Pow2Add(8, 8);
    Pow2Wide();
  }

  /** The powers between 16 and 32 that IPv4 prefixes use. */
  lemma Pow2Mid()
    ensures Pow2(24) == 0x100_0000 && Pow2(25) == 0x200_0000 && Pow2(31) == 0x8000_0000
  {
    Pow2Values();
    Pow2Add(16, 8);
    assert Pow2(25) == 2 * Pow2(24);
    assert Pow2(32) == 2 * Pow2(31);
  }

  lemma Pow2Small()
    ensures Pow2(4) == 16 && Pow2(7) == 0x80 && Pow2(8) == 0x100
  {
    assert Pow2(2) == 4;
    Pow2Add(2, 2);
    Pow2Add(4, 4);
    assert Pow2(8) == 2 * Pow2(7);
  }

  lemma Pow2Wide()
    requires Pow2(16) == 0x1_0000
    ensures Pow2(32) == 0x1_0000_0000
    ensures Pow2(128) == 0x1_0000_0000_0000_0000_0000_0000_0000_0000
  {
    Pow2Double(16, 0x1_0000);
    Pow2Double(32, 0x1_0000_0000);
    Pow2Double(64, 0x1_0000_0000_0000_0000);
  }

  /** `2^(2n)` is the square of `2^n`. */
  lemma Pow2Double(n: nat, v: nat)
    requires Pow2(n) == v
    ensures Pow2(n + n) == v * v
  {
    Pow2Add(n, n);
  }


  lemma {:induction false} Pow2Le(a: nat, b: nat)
    requires a <= b
    ensures Pow2(a) <= Pow2(b)
    ensures a < b ==> 2 * Pow2(a) <= Pow2(b)
  {
    if a < b {
      Pow2Le(a, b - 1);
    }
  }

  /** The quotient and remainder of a division are the unique pair that
      the defining equation allows. */
  lemma DivModUnique(x: nat, d: nat, q: nat, r: nat)
    requires d > 0 && r < d && x == q * d + r
    ensures x / d == q && x % d == r
  {
    var q', r' := x / d, x % d;
    assert x == q' * d + r';
    if q' > q {
      MulLe(q + 1, q', d);
      assert false;
    } else if q' < q {
      MulLe(q' + 1, q, d);
      assert false;
    }
  }

  /** Shifting a concrete `x = q * 2^n + r` right by `n` gives `q`, and
      clearing its low `n` bits gives `q * 2^n`. */
  lemma DivPow2(x: nat, n: nat, q: nat, r: nat)
    requires r < Pow2(n) && x == q * Pow2(n) + r
    ensures x / Pow2(n) == q && x % Pow2(n) == r && MaskDown(x, n) == q * Pow2(n)
  {
    DivModUnique(x, Pow2(n), q, r);
  }

  lemma MulLe(a: nat, b: nat, d: nat)
    requires a <= b
    ensures a * d <= b * d
  {
  }

  lemma MaskDownBounds(x: nat, n: nat)
    ensures MaskDown(x, n) <= x < MaskDown(x, n) + Pow2(n)
    ensures Aligned(MaskDown(x, n), n)
  {
    var p := Pow2(n);
    assert x == (x / p) * p + x % p;
    DivModUnique(MaskDown(x, n), p, x / p, 0);
  }

  /** An aligned base is the masked value of every address in its block. */
  lemma AlignedUnique(a: nat, x: nat, n: nat)
    requires Aligned(a, n) && a <= x < a + Pow2(n)
    ensures MaskDown(x, n) == a
  {
    var p := Pow2(n);
    var q := a / p;
    assert a == q * p + a % p;
    DivModUnique(x, p, q, x - q * p);
  }

  lemma AlignedIndex(x: nat, n: nat)
    requires Aligned(x, n)
    ensures x == (x / Pow2(n)) * Pow2(n)
  {
    var p := Pow2(n);
    assert x == (x / p) * p + x % p;
  }

  lemma AlignedMul(k: nat, n: nat)
    ensures Aligned(k * Pow2(n), n) && (k * Pow2(n)) / Pow2(n) == k
  {
    DivModUnique(k * Pow2(n), Pow2(n), k, 0);
  }

  /** Alignment to `n` bits implies alignment to fewer bits. */
  lemma AlignedWeaken(x: nat, n: nat, m: nat)
    requires m <= n && Aligned(x, n)
    ensures Aligned(x, m)
  {
    var k := x / Pow2(n);
    AlignedIndex(x, n);
    Pow2Add(n - m, m);
    assert x == (k * Pow2(n - m)) * Pow2(m);
    AlignedMul(k * Pow2(n - m), m);
  }

  /** A block of `2^m` aligned at `b` that starts inside an aligned block of
      `2^n` (with `m <= n`) ends inside it too. */
  lemma AlignedNest(a: nat, n: nat, b: nat, m: nat)
    requires m <= n && Aligned(a, n) && Aligned(b, m) && a <= b < a + Pow2(n)
    ensures b + Pow2(m) <= a + Pow2(n)
  {
    var p, k := Pow2(m), Pow2(n - m);
    AlignedWeaken(a, n, m);
    AlignedIndex(a, m);
    AlignedIndex(b, m);
    Pow2Add(n - m, m);
    assert Pow2(n) == k * p by { assert n - m + m == n; }
    DivNat(a, p);
    DivNat(b, p);
    NestCore(a / p, b / p, k, p);
  }

  lemma NestCore(i: nat, j: nat, k: nat, p: nat)
    requires j * p < i * p + k * p
    ensures j * p + p <= i * p + k * p
  {
    assert i * p + k * p == (i + k) * p;
    MulLtInv(j, i + k, p);
    MulLe(j + 1, i + k, p);
  }

  lemma MulLtInv(a: nat, b: nat, d: nat)
    requires a * d < b * d
    ensures a < b
  {
    if a >= b {
      MulLe(b, a, d);
    }
  }

  lemma HalfBelow(x: nat, n: nat)
    requires n >= 1 && x < Pow2(n)
    ensures x / 2 < Pow2(n - 1)
  {
  }

  /** The block index of an aligned address is even exactly when the
      address is aligned one bit further. */
  lemma EvenIndex(x: nat, n: nat)
    requires Aligned(x, n)
    ensures (x / Pow2(n)) % 2 == 0 <==> Aligned(x, n + 1)
  {
    var p := Pow2(n);
    var v := x / p;
    AlignedIndex(x, n);
    assert Pow2(n + 1) == 2 * p;
    if v % 2 == 0 {
      assert x == (v / 2) * Pow2(n + 1);
      AlignedMul(v / 2, n + 1);
    } else if Aligned(x, n + 1) {
      var w := x / Pow2(n + 1);
      AlignedIndex(x, n + 1);
      assert x == (2 * w) * p;
      AlignedMul(2 * w, n);
      assert false;
    }
  }

  /** Two aligned addresses have consecutive block indices exactly when
      the second is one block above the first. */
  lemma NextIndex(x: nat, y: nat, n: nat)
    requires Aligned(x, n) && Aligned(y, n)
    ensures y / Pow2(n) == x / Pow2(n) + 1 <==> y == x + Pow2(n)
  {
    var p := Pow2(n);
    var v := x / p;
    AlignedIndex(x, n);
    AlignedIndex(y, n);
    if y == x + p {
      assert y == (v + 1) * p;
      AlignedMul(v + 1, n);
    }
    if y / p == v + 1 {
      assert y == (v + 1) * p;
    }
  }
}
