/**
 * Code lengths by weight: Kraft sums, total cost, and the exchange argument behind Huffman's
 * algorithm, which never leaves the best assignment of lengths behind by merging the two
 * lightest trees.
 */
module CodeLengths {
  import opened Powers
  import opened Sums

  /** 2^-n */
  function Half(n: nat): (h: real)
    ensures 0.0 < h <= 1.0
  {
    if n == 0 then 1.0 else Half(n - 1) / 2.0
  }

  function KraftTerms(alive: seq<bool>, len: seq<nat>): (t: seq<real>)
    requires |len| == |alive|
    ensures |t| == |alive| && forall i :: 0 <= i < |t| ==> t[i] == if alive[i] then Half(len[i]) else 0.0
  {
    seq(|alive|, i requires 0 <= i < |alive| => if alive[i] then Half(len[i]) else 0.0)
  }

  /** What the code words of these lengths take up of the code space. */
  function Kraft(alive: seq<bool>, len: seq<nat>): real
    requires |len| == |alive|
  {
    Sum(KraftTerms(alive, len))
  }

  function CostTerms(weight: seq<nat>, alive: seq<bool>, len: seq<nat>): (t: seq<real>)
    requires |weight| == |len| == |alive|
    ensures |t| == |alive|
    ensures forall i :: 0 <= i < |t| ==> t[i] == if alive[i] then Weighted(weight[i], len[i]) else 0.0
  {
    seq(|alive|, i requires 0 <= i < |alive| => if alive[i] then Weighted(weight[i], len[i]) else 0.0)
  }

  function Weighted(w: nat, n: nat): (r: real)
    ensures r >= 0.0
  {
    (w * n) as real
  }

  /** The total length of all that is to be coded. */
  function Cost(weight: seq<nat>, alive: seq<bool>, len: seq<nat>): real
    requires |weight| == |len| == |alive|
  {
    Sum(CostTerms(weight, alive, len))
  }

  lemma KraftUpdate(alive: seq<bool>, len: seq<nat>, i: nat, x: nat)
    requires |len| == |alive| && i < |alive| && alive[i]
    ensures Kraft(alive, len[i := x]) == Kraft(alive, len) - Half(len[i]) + Half(x)
  {
    assert KraftTerms(alive, len[i := x]) == KraftTerms(alive, len)[i := Half(x)];
    SumUpdate(KraftTerms(alive, len), i, Half(x));
  }

  lemma KraftWithout(alive: seq<bool>, len: seq<nat>, i: nat)
    requires |len| == |alive| && i < |alive| && alive[i]
    ensures Kraft(alive[i := false], len) == Kraft(alive, len) - Half(len[i])
  {
    assert KraftTerms(alive[i := false], len) == KraftTerms(alive, len)[i := 0.0];
    SumUpdate(KraftTerms(alive, len), i, 0.0);
  }

  lemma CostUpdate(weight: seq<nat>, alive: seq<bool>, len: seq<nat>, i: nat, w: nat, x: nat)
    requires |weight| == |len| == |alive| && i < |alive| && alive[i]
    ensures Cost(weight[i := w], alive, len[i := x])
         == Cost(weight, alive, len) - Weighted(weight[i], len[i]) + Weighted(w, x)
  {
    assert CostTerms(weight[i := w], alive, len[i := x]) == CostTerms(weight, alive, len)[i := Weighted(w, x)];
    SumUpdate(CostTerms(weight, alive, len), i, Weighted(w, x));
  }

  lemma CostWithout(weight: seq<nat>, alive: seq<bool>, len: seq<nat>, i: nat)
    requires |weight| == |len| == |alive| && i < |alive| && alive[i]
    ensures Cost(weight, alive[i := false], len) == Cost(weight, alive, len) - Weighted(weight[i], len[i])
  {
    assert CostTerms(weight, alive[i := false], len) == CostTerms(weight, alive, len)[i := 0.0];
    SumUpdate(CostTerms(weight, alive, len), i, 0.0);
  }

  lemma Rearrangement(f: nat, g: nat, x: nat, y: nat)
    requires f <= g && x <= y
    ensures Weighted(f, y) + Weighted(g, x) <= Weighted(f, x) + Weighted(g, y)
  {
    var d, e := g - f, y - x;
    assert f * y + g * x == f * x + g * y - d * e by {
      assert g * x == f * x + d * x && g * y == f * y + d * y by { MulDistributes(f, d, x); MulDistributes(f, d, y); }
      assert d * y == d * x + d * e by {
        MulCommutes(d, y);
        MulCommutes(d, x);
        MulCommutes(d, e);
        MulDistributes(x, e, d);
      }
    }
    MulMonotonic(0, d, e);
  }

  /** Giving the longer of two lengths to the lighter one. */
  lemma SwapLengths(weight: seq<nat>, alive: seq<bool>, len: seq<nat>, c: nat, y: nat)
    requires |weight| == |len| == |alive| && c < |alive| && y < |alive| && alive[c] && alive[y]
    requires weight[c] <= weight[y] && len[c] <= len[y]
    ensures var swapped := len[c := len[y]][y := len[c]];
            && Kraft(alive, swapped) == Kraft(alive, len)
            && Cost(weight, alive, swapped) <= Cost(weight, alive, len)
  {
    var first := len[c := len[y]];
    KraftUpdate(alive, len, c, len[y]);
    KraftUpdate(alive, first, y, len[c]);
    CostUpdate(weight, alive, len, c, weight[c], len[y]);
    CostUpdate(weight, alive, first, y, weight[y], len[c]);
    assert weight[c := weight[c]] == weight && weight[y := weight[y]] == weight;
    Rearrangement(weight[c], weight[y], len[c], len[y]);
  }

  lemma {:induction false} Longest(alive: seq<bool>, len: seq<nat>, n: nat) returns (y: nat)
    requires |len| == |alive| && n <= |alive| && exists k :: 0 <= k < n && alive[k]
    ensures y < n && alive[y] && forall k :: 0 <= k < n && alive[k] ==> len[k] <= len[y]
    decreases n
  {
    if k :| 0 <= k < n - 1 && alive[k] {
      y := Longest(alive, len, n - 1);
      if alive[n - 1] && len[n - 1] > len[y] {
        y := n - 1;
      }
    } else {
      y := n - 1;
    }
  }

  /** Lengths that are no more than n: their Kraft sum is a whole number of units 2^-n. */
  function Units(alive: seq<bool>, len: seq<nat>, n: nat): nat
    requires |len| == |alive|
  {
    if alive == [] then 0
    else
      var k := |alive| - 1;
      Units(alive[..k], len[..k], n) + (if alive[k] && len[k] <= n then Pow2(n - len[k]) else 0)
  }

  /** k units of size h. */
  function Scaled(k: nat, h: real): real {
    k as real * h
  }

  lemma ScaledSum(j: nat, k: nat, h: real)
    ensures Scaled(j + k, h) == Scaled(j, h) + Scaled(k, h)
    ensures Scaled(0, h) == 0.0 && Scaled(1, h) == h
  {
  }

  lemma ScaledMonotonic(j: nat, k: nat, h: real)
    requires h > 0.0
    ensures Scaled(j, h) < Scaled(k, h) <==> j < k
  {
    if j < k {
      PositiveProduct((k - j) as real, h);
      ScaledSum(j, k - j, h);
    } else {
      if k < j {
        PositiveProduct((j - k) as real, h);
      }
      ScaledSum(k, j - k, h);
    }
  }

  lemma PositiveProduct(x: real, h: real)
    requires x > 0.0 && h > 0.0
    ensures x * h > 0.0
  {
  }

  lemma {:induction false} HalfOfUnit(m: nat, n: nat)
    requires m <= n
    ensures Half(m) == Scaled(Pow2(n - m), Half(n))
    decreases n - m
  {
    hide Scaled;
    if m == n {
      ScaledSum(0, 1, Half(n));
    } else {
      HalfOfUnit(m + 1, n);
      var p := Pow2(n - m - 1);
      ScaledSum(p, p, Half(n));
    }
  }

  lemma {:induction false} KraftInUnits(alive: seq<bool>, len: seq<nat>, n: nat)
    requires |len| == |alive| && forall i :: 0 <= i < |alive| && alive[i] ==> len[i] <= n
    ensures Kraft(alive, len) == Scaled(Units(alive, len, n), Half(n))
  {
    hide Scaled, Half, Pow2;
    if alive == [] {
      ScaledSum(0, 0, Half(n));
    } else {
      var k := |alive| - 1;
      KraftInUnits(alive[..k], len[..k], n);
      assert KraftTerms(alive, len)[..k] == KraftTerms(alive[..k], len[..k]);
      if alive[k] {
        HalfOfUnit(len[k], n);
        ScaledSum(Units(alive[..k], len[..k], n), Pow2(n - len[k]), Half(n));
      }
    }
  }

  /** If one length is longer than all the others it can be cut down to the next: the code
      space never runs out. */
  lemma Shorten(alive: seq<bool>, len: seq<nat>, c: nat, n: nat)
    requires |len| == |alive| && c < |alive| && alive[c] && n <= len[c]
    requires forall i :: 0 <= i < |alive| && alive[i] && i != c ==> len[i] <= n
    requires Kraft(alive, len) <= 1.0
    ensures Kraft(alive, len[c := n]) <= 1.0
  {
    hide Scaled, Units, Kraft, Pow2;
    if n == len[c] {
      assert len[c := n] == len;
    } else {
      var rest := alive[c := false];
      KraftWithout(alive, len, c);
      KraftInUnits(rest, len, n);
      HalfOfUnit(0, n);
      KraftUpdate(alive, len, c, n);
      var k := Units(rest, len, n);
      ScaledMonotonic(k, Pow2(n), Half(n));
      ScaledSum(k, 1, Half(n));
      ScaledMonotonic(Pow2(n), k + 1, Half(n));
    }
  }

  ghost predicate Lightest(weight: seq<nat>, alive: seq<bool>, c1: nat, c2: nat)
    requires |weight| == |alive|
  {
    && c1 < |alive| && c2 < |alive| && c1 != c2 && alive[c1] && alive[c2]
    && weight[c1] <= weight[c2]
    && forall k :: 0 <= k < |alive| && alive[k] && k != c1 ==> weight[c2] <= weight[k]
  }

  /** Huffman's step: any assignment of lengths can be turned into one where the two lightest
      share a parent, without getting dearer. */
  lemma MergeLightest(weight: seq<nat>, alive: seq<bool>, len: seq<nat>, c1: nat, c2: nat) returns (merged: seq<nat>)
    requires |weight| == |len| == |alive| && Lightest(weight, alive, c1, c2)
    requires Kraft(alive, len) <= 1.0
    ensures |merged| == |alive| && Kraft(alive[c2 := false], merged) <= 1.0
    ensures Cost(weight[c1 := weight[c1] + weight[c2]], alive[c2 := false], merged)
         <= Cost(weight, alive, len) - (weight[c1] + weight[c2]) as real
  {
    var deepest := DeepestPair(weight, alive, len, c1, c2);
    var n := deepest[c2];
    Shorten(alive, deepest, c1, n);
    var level := deepest[c1 := n];
    CostUpdate(weight, alive, deepest, c1, weight[c1], n);
    assert weight[c1 := weight[c1]] == weight;
    assert Weighted(weight[c1], n) <= Weighted(weight[c1], deepest[c1]) by {
      MulCommutes(weight[c1], n);
      MulCommutes(weight[c1], deepest[c1]);
      MulMonotonic(n, deepest[c1], weight[c1]);
    }
    merged := ShareParent(weight, alive, level, c1, c2);
  }

  lemma DeepestPair(weight: seq<nat>, alive: seq<bool>, len: seq<nat>, c1: nat, c2: nat) returns (deepest: seq<nat>)
    requires |weight| == |len| == |alive| && Lightest(weight, alive, c1, c2)
    ensures |deepest| == |alive| && Kraft(alive, deepest) == Kraft(alive, len)
    ensures Cost(weight, alive, deepest) <= Cost(weight, alive, len)
    ensures deepest[c2] <= deepest[c1]
    ensures forall i :: 0 <= i < |alive| && alive[i] && i != c1 ==> deepest[i] <= deepest[c2]
  {
    var x := Longest(alive, len, |alive|);
    SwapLengths(weight, alive, len, c1, x);
    var first := len[c1 := len[x]][x := len[c1]];
    var others := alive[c1 := false];
    assert others[c2];
    var y := Longest(others, first, |alive|);
    SwapLengths(weight, alive, first, c2, y);
    deepest := first[c2 := first[y]][y := first[c2]];
  }

  lemma ShareParent(weight: seq<nat>, alive: seq<bool>, len: seq<nat>, c1: nat, c2: nat) returns (merged: seq<nat>)
    requires |weight| == |len| == |alive|
    requires c1 < |alive| && c2 < |alive| && c1 != c2 && alive[c1] && alive[c2]
    requires len[c1] == len[c2] && Kraft(alive, len) <= 1.0
    ensures |merged| == |alive| && Kraft(alive[c2 := false], merged) <= 1.0
    ensures Cost(weight[c1 := weight[c1] + weight[c2]], alive[c2 := false], merged)
         == Cost(weight, alive, len) - (weight[c1] + weight[c2]) as real
  {
    hide Cost, Weighted;
    var n, w := len[c1], weight[c1] + weight[c2];
    TwoTerms(KraftTerms(alive, len), c1, c2);
    assert n > 0;
    merged := len[c1 := n - 1];
    KraftWithout(alive, len, c2);
    KraftUpdate(alive[c2 := false], len, c1, n - 1);
    CostWithout(weight, alive, len, c2);
    CostUpdate(weight, alive[c2 := false], len, c1, w, n - 1);
    OneLevelUp(weight[c1], weight[c2], n);
  }

  lemma OneLevelUp(v: nat, w: nat, n: nat)
    requires n > 0
    ensures Weighted(v + w, n - 1) == Weighted(v, n) + Weighted(w, n) - (v + w) as real
  {
    MulDistributes(v, w, n);
    MulCommutes(v + w, n - 1);
    MulCommutes(v + w, n);
    MulDistributes(n, -1, v + w);
  }
}
