/** Powers of two and other arithmetic that the coders need. */
module Powers {

  function Pow2(n: nat): (p: nat)
    ensures p > 0
  {
    if n == 0 then 1 else 2 * Pow2(n - 1)
  }

  function Abs(v: int): nat {
    if v < 0 then -v else v
  }

  function ShiftLeft(x: nat, n: nat): nat {
    x * Pow2(n)
  }

  function Quotient(x: nat, p: nat): (q: nat)
    requires p > 0
    ensures x == q * p + x % p
  {
    x / p
  }

  function Remainder(x: nat, p: nat): (r: nat)
    requires p > 0
    ensures r < p
  {
    x % p
  }

  function ShiftRight(x: nat, n: nat): (y: nat) {
    Quotient(x, Pow2(n))
  }

  lemma {:induction false} Pow2Add(m: nat, n: nat)
    ensures Pow2(m + n) == Pow2(m) * Pow2(n)
  {
    if m == 0 {
    } else {
      Pow2Add(m - 1, n);
      assert Pow2(m + n) == 2 * Pow2(m - 1 + n);
      MulAssociative(2, Pow2(m - 1), Pow2(n));
    }
  }

  lemma {:induction false} Pow2Monotonic(m: nat, n: nat)
    requires m <= n
    ensures Pow2(m) <= Pow2(n)
    decreases n
  {
    if m < n {
      Pow2Monotonic(m, n - 1);
    }
  }

  lemma MulMonotonic(x: int, y: int, u: nat)
    requires x <= y
    ensures x * u <= y * u
  {
  }

  lemma MulStrict(x: int, y: int, u: nat)
    requires x < y && u > 0
    ensures x * u + u <= y * u
  {
    MulMonotonic(x + 1, y, u);
    assert (x + 1) * u == x * u + u;
  }

  /** Pow2(n + 8) == 256 * Pow2(n) */
  lemma Pow2Byte(n: nat)
    ensures Pow2(n + 8) == 256 * Pow2(n)
  {
    assert Pow2(n + 2) == 4 * Pow2(n);
    assert Pow2(n + 4) == 4 * Pow2(n + 2);
    assert Pow2(n + 6) == 4 * Pow2(n + 4);
    assert Pow2(n + 8) == 4 * Pow2(n + 6);
  }

  lemma MulAssociative(x: int, y: int, z: int)
    ensures (x * y) * z == x * (y * z)
  {
  }

  lemma MulScaled(x: int, k: int, y: int)
    ensures x * (k * y) == k * (x * y)
  {
    MulAssociative(x, k, y);
    MulAssociative(k, x, y);
    assert x * k == k * x;
  }

  lemma MulCommutes(x: int, y: int)
    ensures x * y == y * x
  {
  }

  lemma MulDistributes(x: int, y: int, z: int)
    ensures (x + y) * z == x * z + y * z
  {
  }

  lemma MultipleOf(y: nat, q: nat, d: nat)
    requires d > 0 && y == q * d
    ensures y % d == 0
  {
    var r := y % d;
    assert y == y / d * d + r;
    if r != 0 {
      assert (q - y / d) * d == r by { MulDistributes(q, -(y / d), d); }
      if q - y / d <= 0 {
        MulMonotonic(q - y / d, 0, d);
      } else {
        MulMonotonic(1, q - y / d, d);
      }
    }
  }

  lemma Constants()
    ensures Pow2(8) == 0x100 && Pow2(11) == 0x800 && Pow2(15) == 0x8000 && Pow2(16) == 0x10000
    ensures Pow2(19) == 0x80000 && Pow2(27) == 0x8000000
  {
    Pow2Byte(0);
    Pow2Byte(3);
    Pow2Byte(7);
    Pow2Byte(8);
    Pow2Byte(11);
    Pow2Byte(19);
  }

  lemma HalfShift(x: nat, n: nat, y: nat)
    requires n > 0
    ensures (ShiftLeft(x, n) + y) / 2 == ShiftLeft(x, n - 1) + y / 2
    ensures (ShiftLeft(x, n) + y) % 2 == y % 2
  {
    assert ShiftLeft(x, n) == 2 * ShiftLeft(x, n - 1) by {
      MulAssociative(x, 2, Pow2(n - 1));
      MulAssociative(2, x, Pow2(n - 1));
      assert x * 2 == 2 * x;
    }
  }

  lemma DivideUnique(v: nat, n: nat, q: nat, r: nat)
    requires n > 0 && v == q * n + r && r < n
    ensures v / n == q && v % n == r
  {
    var q', r' := v / n, v % n;
    assert v == q' * n + r';
    MulDistributes(q, -q', n);
    if q < q' {
      MulMonotonic(q - q', -1, n);
    } else if q > q' {
      MulMonotonic(1, q - q', n);
    }
  }
}
