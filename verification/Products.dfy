/** Laws of products, stated about a function so that the solver can be kept from its own
    nonlinear reasoning. */
module Products {
  import opened Powers

  /** A product. */
  function Prod(x: int, y: int): int {
    x * y
  }

  /** A product of naturals. */
  function Times(x: nat, y: nat): nat {
    x * y
  }

  lemma ProdSum(x: int, y: int, z: int)
    ensures Prod(x + y, z) == Prod(x, z) + Prod(y, z) && Prod(z, x + y) == Prod(z, x) + Prod(z, y)
  {
    MulDistributes(x, y, z);
  }

  lemma ProdGroup(x: int, y: int, z: int)
    ensures Prod(Prod(x, y), z) == Prod(x, Prod(y, z)) == Prod(Prod(x, z), y)
  {
    MulAssociative(x, y, z);
    MulAssociative(x, z, y);
    assert y * z == z * y;
  }

  lemma ProdMonotonic(x: int, y: int, z: nat)
    requires x <= y
    ensures Prod(x, z) <= Prod(y, z) && (x < y ==> Prod(x, z) + z <= Prod(y, z))
    ensures Prod(1, z) == z == Prod(z, 1)
  {
    MulMonotonic(x, y, z);
    if x < y && z > 0 {
      MulStrict(x, y, z);
    }
  }

  lemma ProdCommutes(x: int, y: int)
    ensures Prod(x, y) == Prod(y, x)
  {
  }

  lemma DivisionIs(n: nat, d: nat)
    requires d > 0
    ensures n == Prod(n / d, d) + n % d
    ensures n == Prod(Quotient(n, d), d) + Remainder(n, d)
  {
  }

  lemma NextMultiple(f: nat, d: nat)
    ensures Prod(f + 1, d) == Prod(f, d) + d
  {
    MulDistributes(f, 1, d);
  }

  lemma BetweenMultiples(m: nat, p: nat, q: nat)
    requires p > 0
    ensures m / p == q <==> Prod(q, p) <= m < Prod(q, p) + p
  {
    QuotientIs(m, p, q);
  }

  lemma QuotientIs(n: nat, d: nat, q: nat)
    requires d > 0
    ensures n / d == q <==> q * d <= n < q * d + d
  {
    if q * d <= n < q * d + d {
      DivideUnique(n, d, q, n - q * d);
    }
  }

  lemma ProdNatural(x: nat, y: nat)
    ensures Prod(x, y) >= 0
  {
  }

  lemma ProdIsTimes(x: int, y: int)
    ensures Prod(x, y) == x * y
  {
  }
}
