/**
 * How long a code length can get: a tree as deep as d weighs at least the Fibonacci number
 * d + 2, and there are weights for which that is all.
 */
module TreeDepth {
  import opened Sums
  import opened MergeSteps
  import opened HuffTree

  function Fib(n: nat): nat {
    if n < 2 then n else Fib(n - 1) + Fib(n - 2)
  }

  lemma {:induction false} FibGrows(m: nat, n: nat)
    requires m <= n
    ensures Fib(m) <= Fib(n)
    ensures 2 <= m < n ==> Fib(m) < Fib(n)
    decreases n
  {
    if m < n {
      FibGrows(m, n - 1);
      if n > 2 {
        FibPositive(n - 2);
      }
    }
  }

  lemma {:induction false} FibPositive(n: nat)
    requires n > 0
    ensures Fib(n) > 0
  {
    if n > 2 {
      FibPositive(n - 1);
    }
  }

  // ---------- the weight of a deep tree ----------

  /** Every tree weighs enough for its deepest symbol, and every other tree nearly as much. */
  ghost predicate Heavy(m: Merging) {
    && m.Valid(|m.freq|)
    && forall s :: 0 <= s < |m.owner| ==>
         && m.owner[s] < |m.freq|
         && m.freq[m.owner[s]] <= LIMIT
         && Fib(m.codesize[s] + 2) <= m.freq[m.owner[s]]
         && forall i :: 0 <= i < |m.freq| && i != m.owner[s] && m.freq[i] <= LIMIT ==>
             Fib(m.codesize[s] + 1) <= m.freq[i]
  }

  lemma HeavyAtFirst(w: seq<nat>)
    requires forall i :: 0 <= i < |w| ==> 1 <= w[i] <= LIMIT
    ensures Heavy(AfterMerges(w, 0))
  {
    assert Fib(1) == 1 && Fib(2) == 1;
  }

  lemma MergeIsHeavy(m: Merging, c1: nat, c2: nat)
    requires Heavy(m) && Picked(m.freq, c1, c2) && m.freq[c1] + m.freq[c2] <= LIMIT
    ensures Heavy(Merging(Merged(m.freq, c1, c2), MergedOwner(m.owner, c1, c2),
                          Lengthened(m.codesize, m.owner, c1, c2)))
  {
    hide Fib;
    var freq, owner := Merged(m.freq, c1, c2), MergedOwner(m.owner, c1, c2);
    var codesize := Lengthened(m.codesize, m.owner, c1, c2);
    forall s | 0 <= s < |owner|
      ensures owner[s] < |freq| && freq[owner[s]] <= LIMIT && Fib(codesize[s] + 2) <= freq[owner[s]]
      ensures forall i :: 0 <= i < |freq| && i != owner[s] && freq[i] <= LIMIT ==> Fib(codesize[s] + 1) <= freq[i]
    {
      NextFib(m.codesize[s] + 1);
    }
  }

  lemma NextFib(n: nat)
    ensures Fib(n + 2) == Fib(n + 1) + Fib(n)
  {
  }

  /** The trees' total weight stays that of the symbols. */
  lemma {:induction false} HeavyAfter(w: seq<nat>, j: nat)
    requires (forall i :: 0 <= i < |w| ==> 1 <= w[i]) && Sum(Reals(w)) <= LIMIT as real
    ensures var m := AfterMerges(w, j);
            Heavy(m) && Sum(AliveTerms(m.freq)) == Sum(Reals(w))
  {
    hide Heavy, AliveTerms, Reals;
    if j == 0 {
      NoneTooHeavy(w);
      HeavyAtFirst(w);
    } else {
      var m := AfterMerges(w, j - 1);
      HeavyAfter(w, j - 1);
      var c1, c2 := StepMerges(m);
      if c1 >= 0 && c2 >= 0 {
        MergeKeepsTotal(m.freq, c1, c2);
        MergeIsHeavy(m, c1, c2);
      }
    }
  }

  lemma NoneTooHeavy(w: seq<nat>)
    requires Sum(Reals(w)) <= LIMIT as real
    ensures forall i :: 0 <= i < |w| ==> w[i] <= LIMIT
    ensures AliveTerms(w) == Reals(w)
  {
    forall i | 0 <= i < |w|
      ensures w[i] <= LIMIT
    {
      OneTerm(Reals(w), i);
    }
  }

  lemma OneTerm(t: seq<real>, i: nat)
    requires i < |t| && forall k :: 0 <= k < |t| ==> t[k] >= 0.0
    ensures t[i] <= Sum(t)
  {
    SumUpdate(t, i, 0.0);
    SumNonnegative(t[i := 0.0]);
  }

  /** A symbol of length d needs a total weight of at least Fib(d + 2). */
  lemma DeepTreeIsHeavy(w: seq<nat>, s: nat)
    requires (forall i :: 0 <= i < |w| ==> 1 <= w[i]) && Sum(Reals(w)) <= LIMIT as real
    requires s < |w|
    ensures Fib(TreeLengths(w)[s] + 2) as real <= Sum(Reals(w))
  {
    hide Fib, Sum, AfterMerges, Heavy, AliveTerms;
    var m := AfterMerges(w, |w| - 1);
    HeavyAfter(w, |w| - 1);
    OwnerIsHeavy(m, s);
  }

  lemma OwnerIsHeavy(m: Merging, s: nat)
    requires Heavy(m) && s < |m.freq|
    ensures Fib(m.codesize[s] + 2) as real <= Sum(AliveTerms(m.freq))
  {
    hide Fib, Sum;
    OneTerm(AliveTerms(m.freq), m.owner[s]);
  }

  /** The longest length is not longer than the total weight allows. */
  const SAFE_TOTAL := 9_227_464

  lemma SafeTotalIsFib()
    ensures Fib(35) == SAFE_TOTAL + 1
  {
    assert Fib(7) == 13 && Fib(8) == 21;
    assert Fib(9) == 34 && Fib(10) == 55;
    assert Fib(11) == 89 && Fib(12) == 144;
    assert Fib(13) == 233 && Fib(14) == 377;
    assert Fib(15) == 610 && Fib(16) == 987;
    assert Fib(17) == 1597 && Fib(18) == 2584;
    assert Fib(19) == 4181 && Fib(20) == 6765;
    assert Fib(21) == 10946 && Fib(22) == 17711;
    assert Fib(23) == 28657 && Fib(24) == 46368;
    assert Fib(25) == 75025 && Fib(26) == 121393;
    assert Fib(27) == 196418 && Fib(28) == 317811;
    assert Fib(29) == 514229 && Fib(30) == 832040;
    assert Fib(31) == 1346269 && Fib(32) == 2178309;
    assert Fib(33) == 3524578 && Fib(34) == 5702887;
  }

  /** With a total weight of at most SAFE_TOTAL no length exceeds 32. */
  lemma SafeTotalIsSafe(w: seq<nat>, s: nat)
    requires (forall i :: 0 <= i < |w| ==> 1 <= w[i]) && Sum(Reals(w)) <= SAFE_TOTAL as real
    requires s < |w|
    ensures TreeLengths(w)[s] <= 32
  {
    hide Fib, Sum, TreeLengths;
    DeepTreeIsHeavy(w, s);
    SafeTotalIsFib();
    var d := TreeLengths(w)[s];
    if d > 32 {
      FibGrows(35, d + 2);
    }
  }

  /** Each merge adds at most one bit, so few symbols cannot have long lengths. */
  lemma {:induction false} OneBitPerMerge(w: seq<nat>, j: nat, s: nat)
    requires s < |w|
    ensures AfterMerges(w, j).codesize[s] <= j
  {
    hide Merging.Step;
    if j > 0 {
      OneBitPerMerge(w, j - 1, s);
      var c1, c2 := StepMerges(AfterMerges(w, j - 1));
    }
  }

  // ---------- weights for which the bound is met ----------

  /** Fibonacci numbers downwards, and one more 1 at the end. */
  function FibWeights(n: nat): (w: seq<nat>)
    ensures |w| == n
  {
    seq(n, i requires 0 <= i < n => if i == n - 1 then 1 else Fib(n - 1 - i))
  }

  /** After j merges the last j + 1 symbols are one tree, with the last symbol j deep. */
  ghost predicate IsComb(m: Merging, n: nat, j: nat)
    requires 2 <= j < n
  {
    && m.Valid(n)
    && m.freq[n - 1 - j] == Fib(j + 2)
    && (forall i :: 0 <= i < n - 1 - j ==> m.freq[i] == Fib(n - 1 - i))
    && (forall i :: n - 1 - j < i < n ==> m.freq[i] == MERGED)
    && m.owner[n - 1] == n - 1 - j && m.codesize[n - 1] == j
  }

  lemma CombGrows(m: Merging, n: nat, j: nat)
    requires 2 <= j < n - 1 && IsComb(m, n, j) && Fib(n + 1) <= LIMIT
    ensures IsComb(m.Step(), n, j + 1)
  {
    hide Fib;
    var c1, c2 := n - 2 - j, n - 1 - j;
    FibGrows(j + 1, j + 2);
    FibGrows(j + 2, n + 1);
    NextFib(j + 1);
    forall i | 0 <= i < c1
      ensures Fib(j + 2) <= m.freq[i]
    {
      FibGrows(j + 2, n - 1 - i);
    }
    assert Picked(m.freq, c1, c2);
    PickedIsFirst(m.freq, c1, c2);
  }

  lemma FirstFibs()
    ensures Fib(1) == 1 && Fib(2) == 1 && Fib(3) == 2 && Fib(4) == 3
  {
  }

  lemma TwoMerges(n: nat)
    requires n >= 3 && Fib(n + 1) <= LIMIT
    ensures IsComb(AfterMerges(FibWeights(n), 2), n, 2)
  {
    hide Fib, AfterMerges;
    FirstFibs();
    FibGrows(4, n + 1);
    var w := FibWeights(n);
    var m := Merging(w, seq(n, i => i), seq(n, _ => 0));
    NoMergesYet(w);
    forall i | 0 <= i < n - 3
      ensures 2 <= w[i]
    {
      FibGrows(3, n - 1 - i);
    }
    assert Picked(w, n - 1, n - 2);
    NextMerge(w, 0, n - 1, n - 2);
    var m1 := AfterMerges(w, 1);
    assert m1.freq[n - 1] == 2 && m1.owner[n - 1] == n - 1 && m1.codesize[n - 1] == 1;
    assert Picked(m1.freq, n - 3, n - 1);
    NextMerge(w, 1, n - 3, n - 1);
  }

  lemma NoMergesYet(w: seq<nat>)
    ensures AfterMerges(w, 0) == Merging(w, seq(|w|, i => i), seq(|w|, _ => 0))
  {
  }

  lemma {:induction false} CombAfter(n: nat, j: nat)
    requires 2 <= j < n && Fib(n + 1) <= LIMIT
    ensures IsComb(AfterMerges(FibWeights(n), j), n, j)
  {
    hide IsComb;
    if j == 2 {
      TwoMerges(n);
    } else {
      CombAfter(n, j - 1);
      CombGrows(AfterMerges(FibWeights(n), j - 1), n, j - 1);
    }
  }

  /** The bound is met: these n weights, which add up to Fib(n + 1), have a symbol n - 1 deep. */
  lemma FibWeightsAreDeep(n: nat)
    requires n >= 3 && Fib(n + 1) <= LIMIT
    ensures TreeLengths(FibWeights(n))[n - 1] == n - 1
  {
    CombAfter(n, n - 1);
  }

  lemma {:induction false} FibWeightsSum(n: nat, m: nat)
    requires m < n
    ensures Sum(Reals(FibWeights(n))[..m]) == (Fib(n + 1) - Fib(n + 1 - m)) as real
    decreases m
  {
    hide Fib;
    var t := Reals(FibWeights(n));
    if m == 0 {
      assert t[..0] == [];
    } else {
      FibWeightsSum(n, m - 1);
      NextFib(n - m);
      assert t[..m][..m - 1] == t[..m - 1] && t[m - 1] == Fib(n - m) as real;
    }
  }

  lemma FibWeightsTotal(n: nat)
    requires n > 0
    ensures Sum(Reals(FibWeights(n))) == Fib(n + 1) as real
  {
    hide Fib;
    FirstFibs();
    FibWeightsSum(n, n - 1);
    var t := Reals(FibWeights(n));
    assert t[..n] == t && t[..n][..n - 1] == t[..n - 1];
  }
}
