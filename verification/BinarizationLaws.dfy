/**
 * What the decisions for a coefficient and the conditioning are, said of the coefficient itself:
 * which bins, which values, and which context comes next (sections F.1.4.1 to F.1.4.4 of T.81).
 */
module BinarizationLaws {
  import opened Powers
  import opened IntervalCoder
  import opened Binarization

  // ---------- conditioning ----------

  /** The highest one bit of w against a power of two. */
  lemma ExtentAgainst(w: nat, n: nat)
    ensures Extent(w) < Pow2(n) <==> w < Pow2(n)
  {
    hide Pow2;
    PowerIsPositive(n);
    if w > 0 {
      NextPower(Log2(w));
      if Log2(w) < n {
        Pow2Monotonic(Log2(w) + 1, n);
      } else {
        Pow2Monotonic(n, Log2(w));
      }
    }
  }

  lemma NextPower(n: nat)
    ensures Pow2(n + 1) == 2 * Pow2(n)
  {
  }

  lemma PowerIsPositive(n: nat)
    ensures Pow2(n) > 0
  {
  }

  /** The largest difference that the lower bound L puts into the zero category. */
  function ZeroBound(dcL: nat): nat {
    if dcL == 0 then 0 else Pow2(dcL - 1)
  }

  /** The conditioning category of a difference: zero, small or large, and its sign. */
  lemma ContextOfDifference(diff: int, cond: Conditioning)
    ensures var context, zero := DcContextAfter(diff, cond), diff == 0 || Abs(diff) <= ZeroBound(cond.dcL);
            && (context == 0 <==> zero)
            && (context == 4 <==> !zero && 0 < diff <= Pow2(cond.dcU))
            && (context == 8 <==> !zero && -(Pow2(cond.dcU) as int) <= diff < 0)
            && (context == 12 <==> !zero && diff > Pow2(cond.dcU))
            && (context == 16 <==> !zero && diff < -(Pow2(cond.dcU) as int))
  {
    hide Extent;
    if diff != 0 {
      var w := Abs(diff) - 1;
      ExtentOfZero(w);
      if cond.dcL > 0 {
        ExtentAgainst(w, cond.dcL - 1);
      }
      ExtentAgainst(w, cond.dcU);
      ExtentIsPower(w, cond.dcU);
      PowerIsPositive(cond.dcU);
    }
  }

  lemma ExtentOfZero(w: nat)
    ensures Extent(w) >= 0 && (Extent(w) == 0 <==> w == 0)
  {
    if w > 0 {
      PowerIsPositive(Log2(w));
    }
  }

  /** A power of two lies above half of another exactly if it reaches it. */
  lemma ExtentIsPower(w: nat, n: nat)
    ensures Extent(w) > Pow2(n) / 2 <==> Extent(w) >= Pow2(n)
  {
    hide Pow2;
    PowerIsPositive(n);
    if w > 0 && n == 0 {
      ZeroPower();
      PowerIsPositive(Log2(w));
    } else if w > 0 {
      NextPower(n - 1);
      if Log2(w) >= n {
        Pow2Monotonic(n, Log2(w));
      } else {
        Pow2Monotonic(Log2(w), n - 1);
      }
    }
  }

  lemma ZeroPower()
    ensures Pow2(0) == 1
  {
  }

  // ---------- magnitudes ----------

  lemma {:induction false} CategoryAt(st: nat, w: nat, i: nat)
    requires w > 0
    ensures |CategoryDecisions(st, w)| == Log2(w) + 1
    ensures i <= Log2(w) ==> CategoryDecisions(st, w)[i] == Decision(st + i, if i < Log2(w) then 1 else 0)
    decreases w
  {
    if w >= 2 {
      CategoryAt(st + 1, w / 2, if i > 0 then i - 1 else 0);
    }
  }

  lemma {:induction false} PatternAt(st: nat, j: nat, w: nat, i: nat)
    ensures |PatternDecisions(st, j, w)| == j
    ensures i < j ==> PatternDecisions(st, j, w)[i] == Decision(st, Bit(w, Pow2(j - 1 - i)))
    decreases j
  {
    hide Bit;
    if j > 0 {
      PatternAt(st, j - 1, w, if i > 0 then i - 1 else 0);
    }
  }

  /** Decision number i for a magnitude with X bins from x on, w its value less one, of which the
      category of the top n + 1 bits is coded: ones, a zero, and the bits below the highest. */
  function MagnitudeAt(x: nat, n: nat, w: nat, i: nat): Decision
    requires w > 0
  {
    if i < n then Decision(x + i, 1)
    else if i == n then Decision(x + n, 0)
    else Decision(x + n + 14, w / Pow2(if i <= n + Log2(w) then n + Log2(w) - i else 0) % 2)
  }

  lemma MagnitudeIs(x: nat, v2: nat, w: nat, i: nat)
    requires v2 > 0 && w > 0
    ensures |MagnitudeDecisions(x, v2, w)| == Log2(v2) + 1 + Log2(w)
    ensures i < |MagnitudeDecisions(x, v2, w)| ==> MagnitudeDecisions(x, v2, w)[i] == MagnitudeAt(x, Log2(v2), w, i)
  {
    hide Pow2, Log2, CategoryDecisions, PatternDecisions;
    var n := Log2(v2);
    CategoryAt(x, v2, i);
    PatternAt(x + n + 14, Log2(w), w, if i > n then i - n - 1 else 0);
  }

  // ---------- whole coefficients ----------

  /** Decision number i for a DC difference in a context, in bins from base on. */
  function DcAt(base: nat, context: nat, diff: int, i: nat): Decision {
    if i == 0 then Decision(base + context, if diff == 0 then 0 else 1)
    else if i == 1 then Decision(base + context + 1, if diff < 0 then 1 else 0)
    else if i == 2 then
      Decision(base + context + (if diff > 0 then 2 else 3), if -1 <= diff <= 1 then 0 else 1)
    else if -1 <= diff <= 1 then Decision(0, 0)
    else MagnitudeAt(base + 20, Log2(Abs(diff) - 1), Abs(diff) - 1, i - 3)
  }

  /** All decisions for a difference, one by one. */
  lemma DcDecisionsAre(base: nat, context: nat, diff: int, i: nat)
    ensures |DcDecisions(base, context, diff)|
         == if diff == 0 then 1 else if -1 <= diff <= 1 then 3 else 4 + 2 * Log2(Abs(diff) - 1)
    ensures i < |DcDecisions(base, context, diff)| ==>
              DcDecisions(base, context, diff)[i] == DcAt(base, context, diff, i)
  {
    hide MagnitudeDecisions, MagnitudeAt, Log2;
    if Abs(diff) > 1 {
      MagnitudeIs(base + 20, Abs(diff) - 1, Abs(diff) - 1, if i >= 3 then i - 3 else 0);
    }
  }

  /** Where an AC category starts: bin 189 up to position Kx, bin 217 beyond it. */
  function CategoryBin(k: nat, acK: nat): nat {
    if k <= acK then 189 else 217
  }

  /** Decision number i for the nonzero AC coefficient v at position k. */
  function CoefAt(base: nat, k: nat, acK: nat, v: int, i: nat): Decision
    requires k > 0 && v != 0
  {
    var st, w := base + 3 * (k - 1), Abs(v) - 1;
    if i == 0 then Decision(st + 1, 1)
    else if i == 1 then Decision(FIXED_BIN, if v < 0 then 1 else 0)
    else if i == 2 then Decision(st + 2, if w > 0 then 1 else 0)
    else if i == 3 then Decision(st + 2, if w > 1 then 1 else 0)
    else if w < 2 then Decision(0, 0)
    else MagnitudeAt(base + CategoryBin(k, acK), Log2(w / 2), w, i - 4)
  }

  /** All decisions for a nonzero coefficient, one by one. */
  lemma CoefDecisionsAre(base: nat, k: nat, acK: nat, v: int, i: nat)
    requires k > 0 && v != 0
    ensures var w := Abs(v) - 1;
            |CoefDecisions(base, k, acK, v)|
            == if w == 0 then 3 else if w == 1 then 4 else 5 + Log2(w / 2) + Log2(w)
    ensures i < |CoefDecisions(base, k, acK, v)| ==> CoefDecisions(base, k, acK, v)[i] == CoefAt(base, k, acK, v, i)
  {
    hide MagnitudeDecisions, MagnitudeAt, Log2;
    var w := Abs(v) - 1;
    if w > 1 {
      MagnitudeIs(base + CategoryBin(k, acK), w / 2, w, if i >= 4 then i - 4 else 0);
    }
  }

  // ---------- the AC coefficients of a block ----------

  /** Zero coefficients from position k on: their decisions. */
  function ZeroRun(base: nat, k: nat, n: nat): (ds: seq<Decision>)
    requires k > 0
    ensures |ds| == n && forall i :: 0 <= i < n ==> ds[i] == Decision(base + 3 * (k + i) - 2, 0)
  {
    seq(n, i requires 0 <= i < n => Decision(base + 3 * (k + i) - 2, 0))
  }

  /** A run of zeroes up to position p, with the end-of-block decision at its start, and the
      coefficient at p; then all starts again at p + 1. */
  lemma RunIsCoded(base: nat, acK: nat, z: seq<int>, k: nat, p: nat, ke: nat)
    requires |z| == 64 && 0 < k <= p <= ke < 64 && z[ke] != 0
    requires z[p] != 0 && forall i :: k <= i < p ==> z[i] == 0
    ensures AcDecisions(base, acK, z, k, ke, false)
         == [Decision(base + 3 * k - 3, 0)] + ZeroRun(base, k, p - k)
            + CoefDecisions(base, p, acK, z[p]) + AcDecisions(base, acK, z, p + 1, ke, false)
  {
    hide CoefDecisions;
    RestOfRun(base, acK, z, k, p, ke);
    var a, b, c, d := [Decision(base + 3 * k - 3, 0)], ZeroRun(base, k, p - k), CoefDecisions(base, p, acK, z[p]),
                      AcDecisions(base, acK, z, p + 1, ke, false);
    assert a + (b + c + d) == a + b + c + d;
  }

  lemma {:induction false} RestOfRun(base: nat, acK: nat, z: seq<int>, k: nat, p: nat, ke: nat)
    requires |z| == 64 && 0 < k <= p <= ke < 64 && z[ke] != 0
    requires z[p] != 0 && forall i :: k <= i < p ==> z[i] == 0
    ensures AcDecisions(base, acK, z, k, ke, true)
         == ZeroRun(base, k, p - k) + CoefDecisions(base, p, acK, z[p]) + AcDecisions(base, acK, z, p + 1, ke, false)
    decreases p - k
  {
    hide CoefDecisions;
    var c, d := CoefDecisions(base, p, acK, z[p]), AcDecisions(base, acK, z, p + 1, ke, false);
    if k == p {
      assert ZeroRun(base, k, 0) + c + d == c + d;
    } else {
      RestOfRun(base, acK, z, k + 1, p, ke);
      assert ZeroRun(base, k, p - k) == [Decision(base + 3 * k - 2, 0)] + ZeroRun(base, k + 1, p - k - 1);
      assert [Decision(base + 3 * k - 2, 0)] + (ZeroRun(base, k + 1, p - k - 1) + c + d)
          == ZeroRun(base, k, p - k) + c + d;
    }
  }

  /** Behind the last nonzero coefficient comes one decision, unless that was the last of all. */
  lemma BlockEnds(base: nat, acK: nat, z: seq<int>, ke: nat)
    requires |z| == 64 && ke < 64 && (ke > 0 ==> z[ke] != 0)
    ensures AcDecisions(base, acK, z, ke + 1, ke, false) == if ke < 63 then [Decision(base + 3 * ke, 1)] else []
  {
  }

  /** The bins of two tables are apart, and apart from the fixed bin. */
  lemma TablesAreApart(t: nat, u: nat, b: nat, c: nat)
    requires t < 16 && u < 16
    ensures t != u && b < 64 && c < 64 ==> DcBins(t) + b != DcBins(u) + c
    ensures t != u && b < 256 && c < 256 ==> AcBins(t) + b != AcBins(u) + c
    ensures b < 64 && c < 256 ==> DcBins(t) + b < AcBins(u) + c < FIXED_BIN
  {
  }
}
