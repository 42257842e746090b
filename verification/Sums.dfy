/** Finite sums of reals: over a whole sequence, and over chosen places of it. */
module Sums {

  function Sum(t: seq<real>): real {
    if t == [] then 0.0 else Sum(t[..|t| - 1]) + t[|t| - 1]
  }

  /** The terms at the listed places. */
  function Over(t: seq<real>, places: seq<nat>): real
    requires InRange(places, |t|)
  {
    if places == [] then 0.0
    else Over(t, places[..|places| - 1]) + t[places[|places| - 1]]
  }

  ghost predicate InRange(places: seq<nat>, n: nat) {
    forall i :: 0 <= i < |places| ==> places[i] < n
  }

  ghost predicate NoRepeats(s: seq<nat>) {
    forall i, j :: 0 <= i < j < |s| ==> s[i] != s[j]
  }

  lemma {:induction false} SumUpdate(t: seq<real>, i: nat, x: real)
    requires i < |t|
    ensures Sum(t[i := x]) == Sum(t) - t[i] + x
  {
    var n := |t| - 1;
    if i == n {
      assert t[i := x][..n] == t[..n];
    } else {
      assert t[i := x][..n] == t[..n][i := x];
      SumUpdate(t[..n], i, x);
    }
  }

  lemma {:induction false} SumNonnegative(t: seq<real>)
    requires forall i :: 0 <= i < |t| ==> t[i] >= 0.0
    ensures Sum(t) >= 0.0
  {
    if t != [] {
      SumNonnegative(t[..|t| - 1]);
    }
  }

  lemma TwoTerms(t: seq<real>, i: nat, j: nat)
    requires i < |t| && j < |t| && i != j
    requires forall k :: 0 <= k < |t| ==> t[k] >= 0.0
    ensures t[i] + t[j] <= Sum(t)
  {
    SumUpdate(t, i, 0.0);
    SumUpdate(t[i := 0.0], j, 0.0);
    SumNonnegative(t[i := 0.0][j := 0.0]);
  }

  lemma {:induction false} OnlyTerm(t: seq<real>, i: nat)
    requires i < |t| && forall k :: 0 <= k < |t| && k != i ==> t[k] == 0.0
    ensures Sum(t) == t[i]
  {
    SumUpdate(t, i, 0.0);
    AllZero(t[i := 0.0]);
  }

  lemma {:induction false} AllZero(t: seq<real>)
    requires forall k :: 0 <= k < |t| ==> t[k] == 0.0
    ensures Sum(t) == 0.0
  {
    if t != [] {
      AllZero(t[..|t| - 1]);
    }
  }

  lemma {:induction false} OverAppend(t: seq<real>, a: seq<nat>, b: seq<nat>)
    requires InRange(a, |t|) && InRange(b, |t|)
    ensures Over(t, a + b) == Over(t, a) + Over(t, b)
  {
    if b == [] {
      assert a + b == a;
    } else {
      assert a + b == (a + b[..|b| - 1]) + [b[|b| - 1]];
      OverAppend(t, a, b[..|b| - 1]);
    }
  }

  lemma {:induction false} OverSame(t: seq<real>, u: seq<real>, places: seq<nat>)
    requires |t| == |u| && InRange(places, |t|)
    requires forall i :: 0 <= i < |places| ==> t[places[i]] == u[places[i]]
    ensures Over(t, places) == Over(u, places)
  {
    if places != [] {
      OverSame(t, u, places[..|places| - 1]);
    }
  }

  lemma {:induction false} OverHalved(t: seq<real>, u: seq<real>, places: seq<nat>)
    requires |t| == |u| && InRange(places, |t|)
    requires forall i :: 0 <= i < |places| ==> 2.0 * u[places[i]] == t[places[i]]
    ensures 2.0 * Over(u, places) == Over(t, places)
  {
    if places != [] {
      OverHalved(t, u, places[..|places| - 1]);
    }
  }
}
