/**
 * The tree-building loop of jpeg_gen_optimal_table (section K.2): code lengths kept in arrays,
 * every tree a chain of its symbols linked through `others`.
 */
module HuffTree {
  import opened Powers
  import opened Sums
  import opened CodeLengths
  import opened MergeSteps

  function All(n: nat): (s: seq<bool>)
    ensures |s| == n && forall i :: 0 <= i < n ==> s[i]
  {
    seq(n, _ => true)
  }

  function Alive(freq: seq<nat>): (s: seq<bool>)
    ensures |s| == |freq| && forall i :: 0 <= i < |s| ==> s[i] == (freq[i] <= LIMIT)
  {
    seq(|freq|, i requires 0 <= i < |freq| => freq[i] <= LIMIT)
  }

  function Reals(w: seq<nat>): (t: seq<real>)
    ensures |t| == |w| && forall i :: 0 <= i < |t| ==> t[i] == w[i] as real
  {
    seq(|w|, i requires 0 <= i < |w| => w[i] as real)
  }

  // ---------- the forest: which symbols belong to which tree ----------

  /** Tree i is the chain of its symbols, itself first; owner says in whose chain a symbol is. */
  ghost predicate Partition(chains: seq<seq<nat>>, owner: seq<nat>) {
    && |chains| == |owner|
    && (forall s :: 0 <= s < |owner| ==> owner[s] < |owner|)
    && (forall i :: 0 <= i < |chains| ==> IsChain(chains[i], i, owner))
    && (forall s :: 0 <= s < |owner| ==> s in chains[owner[s]])
  }

  ghost predicate IsChain(chain: seq<nat>, i: nat, owner: seq<nat>) {
    && InRange(chain, |owner|) && NoRepeats(chain)
    && (forall k :: 0 <= k < |chain| ==> owner[chain[k]] == i)
    && (chain != [] ==> chain[0] == i)
  }

  ghost predicate Linked(others: seq<int>, chain: seq<nat>) {
    && InRange(chain, |others|)
    && (forall k :: 0 <= k < |chain| - 1 ==> others[chain[k]] == chain[k + 1])
    && (chain != [] ==> others[chain[|chain| - 1]] == -1)
  }

  /** A tree that is left weighs what its symbols weigh, and its code is complete. */
  ghost predicate IsTree(w: seq<nat>, codesize: seq<nat>, freq: nat, chain: seq<nat>)
    requires |w| == |codesize| && InRange(chain, |w|)
  {
    if chain == [] then freq == MERGED
    else
      && 1 <= freq <= LIMIT
      && freq as real == Over(Reals(w), chain)
      && Over(KraftTerms(All(|w|), codesize), chain) == 1.0
  }

  ghost predicate Forest(w: seq<nat>, freq: seq<nat>, codesize: seq<nat>, others: seq<int>,
                         chains: seq<seq<nat>>, owner: seq<nat>)
  {
    && |w| == |freq| == |codesize| == |others| == |chains| == |owner|
    && Partition(chains, owner)
    && (forall i :: 0 <= i < |chains| ==> Linked(others, chains[i]))
    && (forall i :: 0 <= i < |chains| ==> IsTree(w, codesize, freq[i], chains[i]))
  }

  /** The frequencies of the trees that are left add up to no more than LIMIT. */
  function AliveTerms(freq: seq<nat>): (t: seq<real>)
    ensures |t| == |freq|
    ensures forall i :: 0 <= i < |t| ==> t[i] == if freq[i] <= LIMIT then freq[i] as real else 0.0
  {
    seq(|freq|, i requires 0 <= i < |freq| => if freq[i] <= LIMIT then freq[i] as real else 0.0)
  }

  /** Every symbol in the list one level deeper. */
  function Deeper(codesize: seq<nat>, chain: seq<nat>): (d: seq<nat>)
    ensures |d| == |codesize|
    ensures forall s :: 0 <= s < |d| ==> d[s] == codesize[s] + if s in chain then 1 else 0
  {
    seq(|codesize|, s requires 0 <= s < |codesize| => codesize[s] + if s in chain then 1 else 0)
  }

  lemma MergePartition(chains: seq<seq<nat>>, owner: seq<nat>, c1: nat, c2: nat)
    requires Partition(chains, owner) && c1 < |chains| && c2 < |chains| && c1 != c2 && chains[c1] != []
    ensures Partition(chains[c1 := chains[c1] + chains[c2]][c2 := []], MergedOwner(owner, c1, c2))
  {
    var a, b := chains[c1], chains[c2];
    var new', owner' := chains[c1 := a + b][c2 := []], MergedOwner(owner, c1, c2);
    forall i | 0 <= i < |chains|
      ensures IsChain(new'[i], i, owner')
    {
      if i == c1 {
        assert IsChain(a, c1, owner) && IsChain(b, c2, owner);
      } else if i != c2 {
        assert IsChain(chains[i], i, owner);
      }
    }
    forall s | 0 <= s < |owner|
      ensures s in new'[owner'[s]]
    {
      assert s in chains[owner[s]];
    }
  }

  lemma LinkChains(others: seq<int>, a: seq<nat>, b: seq<nat>, owner: seq<nat>, c1: nat, c2: nat)
    requires |others| == |owner| && IsChain(a, c1, owner) && IsChain(b, c2, owner) && c1 != c2
    requires a != [] && b != [] && Linked(others, a) && Linked(others, b)
    ensures Linked(others[a[|a| - 1] := c2], a + b)
  {
    var c, last := a + b, a[|a| - 1];
    var new' := others[last := c2];
    forall k | 0 <= k < |c| - 1
      ensures new'[c[k]] == c[k + 1]
    {
      if k < |a| - 1 {
        assert c[k] == a[k] && a[k] != last;
      } else if k >= |a| {
        assert c[k] == b[k - |a|] && owner[c[k]] == c2 && owner[last] == c1;
      }
    }
    assert owner[b[|b| - 1]] == c2 && owner[last] == c1;
  }

  lemma OtherChainsStay(others: seq<int>, chain: seq<nat>, owner: seq<nat>, i: nat, s: nat, x: int)
    requires |others| == |owner| && IsChain(chain, i, owner) && Linked(others, chain)
    requires s < |owner| && owner[s] != i
    ensures Linked(others[s := x], chain)
  {
  }

  lemma DeeperChain(codesize: seq<nat>, chain: seq<nat>, places: seq<nat>)
    requires InRange(chain, |codesize|) && InRange(places, |codesize|)
    requires || (forall k :: 0 <= k < |chain| ==> chain[k] in places)
             || (forall k :: 0 <= k < |chain| ==> chain[k] !in places)
    ensures var before := Over(KraftTerms(All(|codesize|), codesize), chain);
            var after := Over(KraftTerms(All(|codesize|), Deeper(codesize, places)), chain);
            && ((forall k :: 0 <= k < |chain| ==> chain[k] in places) ==> 2.0 * after == before)
            && ((forall k :: 0 <= k < |chain| ==> chain[k] !in places) ==> after == before)
  {
    var t, u := KraftTerms(All(|codesize|), codesize), KraftTerms(All(|codesize|), Deeper(codesize, places));
    if forall k :: 0 <= k < |chain| ==> chain[k] in places {
      OverHalved(t, u, chain);
    }
    if forall k :: 0 <= k < |chain| ==> chain[k] !in places {
      OverSame(t, u, chain);
    }
  }

  lemma MergeForest(w: seq<nat>, freq: seq<nat>, codesize: seq<nat>, others: seq<int>,
                    chains: seq<seq<nat>>, owner: seq<nat>, c1: nat, c2: nat)
    requires Forest(w, freq, codesize, others, chains, owner) && Picked(freq, c1, c2)
    requires freq[c1] + freq[c2] <= LIMIT
    ensures chains[c1] != [] && chains[c2] != []
    ensures var a, b := chains[c1], chains[c2];
            Forest(w, Merged(freq, c1, c2), Deeper(codesize, a + b), others[a[|a| - 1] := c2],
                   chains[c1 := a + b][c2 := []], MergedOwner(owner, c1, c2))
  {
    hide Linked, Deeper;
    var a, b := chains[c1], chains[c2];
    assert IsTree(w, codesize, freq[c1], a) && IsTree(w, codesize, freq[c2], b);
    assert IsChain(a, c1, owner) && IsChain(b, c2, owner);
    MergePartition(chains, owner, c1, c2);
    forall i | 0 <= i < |chains|
      ensures var chain := chains[c1 := a + b][c2 := []][i];
              && Linked(others[a[|a| - 1] := c2], chain)
              && InRange(chain, |w|)
              && IsTree(w, Deeper(codesize, a + b), Merged(freq, c1, c2)[i], chain)
    {
      if i == c2 {
        NoLinks(others[a[|a| - 1] := c2]);
      } else {
        MergeChain(w, freq, codesize, others, chains, owner, c1, c2, i);
      }
    }
  }

  lemma NoLinks(others: seq<int>)
    ensures Linked(others, [])
  {
  }

  lemma MergeChain(w: seq<nat>, freq: seq<nat>, codesize: seq<nat>, others: seq<int>,
                   chains: seq<seq<nat>>, owner: seq<nat>, c1: nat, c2: nat, i: nat)
    requires Forest(w, freq, codesize, others, chains, owner)
    requires c1 < |freq| && c2 < |freq| && c1 != c2 && chains[c1] != [] && chains[c2] != []
    requires freq[c1] + freq[c2] <= LIMIT && i < |chains| && i != c2
    ensures var a, b := chains[c1], chains[c2];
            var chain := if i == c1 then a + b else chains[i];
            && InRange(a, |w|) && InRange(chain, |w|)
            && Linked(others[a[|a| - 1] := c2], chain)
            && IsTree(w, Deeper(codesize, a + b), Merged(freq, c1, c2)[i], chain)
  {
    hide Over, Linked, Deeper;
    var a, b := chains[c1], chains[c2];
    assert IsTree(w, codesize, freq[c1], a) && IsTree(w, codesize, freq[c2], b);
    assert IsChain(a, c1, owner) && IsChain(b, c2, owner) && IsChain(chains[i], i, owner);
    if i == c1 {
      LinkChains(others, a, b, owner, c1, c2);
      MergeTrees(w, codesize, freq[c1], freq[c2], a, b);
    } else {
      OtherChainsStay(others, chains[i], owner, i, a[|a| - 1], c2);
      NotDeeper(codesize, chains[i], i, a + b, owner);
      assert IsTree(w, codesize, freq[i], chains[i]);
    }
  }

  lemma MergeKeepsTotal(freq: seq<nat>, c1: nat, c2: nat)
    requires c1 < |freq| && c2 < |freq| && c1 != c2 && freq[c1] <= LIMIT && freq[c2] <= LIMIT
    requires Sum(AliveTerms(freq)) <= LIMIT as real
    ensures freq[c1] + freq[c2] <= LIMIT
    ensures Sum(AliveTerms(Merged(freq, c1, c2))) == Sum(AliveTerms(freq))
  {
    var t := AliveTerms(freq);
    TwoTerms(t, c1, c2);
    var x := (freq[c1] + freq[c2]) as real;
    SumUpdate(t, c1, x);
    SumUpdate(t[c1 := x], c2, 0.0);
    assert AliveTerms(Merged(freq, c1, c2)) == t[c1 := x][c2 := 0.0];
  }

  lemma NotDeeper(codesize: seq<nat>, chain: seq<nat>, i: nat, places: seq<nat>, owner: seq<nat>)
    requires |codesize| == |owner| && IsChain(chain, i, owner) && InRange(places, |owner|)
    requires forall k :: 0 <= k < |places| ==> owner[places[k]] != i
    ensures Over(KraftTerms(All(|codesize|), Deeper(codesize, places)), chain)
         == Over(KraftTerms(All(|codesize|), codesize), chain)
  {
    assert forall k :: 0 <= k < |chain| ==> owner[chain[k]] == i;
    DeeperChain(codesize, chain, places);
  }

  lemma MergeTrees(w: seq<nat>, codesize: seq<nat>, f1: nat, f2: nat, a: seq<nat>, b: seq<nat>)
    requires |w| == |codesize| && InRange(a, |w|) && InRange(b, |w|) && a != [] && b != []
    requires IsTree(w, codesize, f1, a) && IsTree(w, codesize, f2, b) && f1 + f2 <= LIMIT
    ensures IsTree(w, Deeper(codesize, a + b), f1 + f2, a + b)
  {
    OverAppend(Reals(w), a, b);
    OverAppend(KraftTerms(All(|w|), codesize), a, b);
    DeeperChain(codesize, a + b, a + b);
  }

  // ---------- the pseudo-symbol stays deepest ----------

  /** No symbol is deeper than the last one, and those of trees that are picked before its tree
      are less deep. */
  ghost predicate LastIsDeepest(freq: seq<nat>, codesize: seq<nat>, owner: seq<nat>)
    requires |freq| == |codesize| == |owner| > 0
    requires InRange(owner, |freq|)
  {
    var n := |freq| - 1;
    forall s :: 0 <= s <= n ==>
      && codesize[s] <= codesize[n]
      && (Before(freq, owner[s], owner[n]) ==> codesize[s] < codesize[n])
  }

  /** No two other trees, merged, would be picked before tree r. */
  ghost predicate PairsComeLater(freq: seq<nat>, r: nat)
    requires r < |freq|
  {
    forall i, j ::
      0 <= i < |freq| && 0 <= j < |freq| && i != j && i != r && j != r && freq[i] <= LIMIT && freq[j] <= LIMIT ==>
      freq[i] + freq[j] > freq[r] || (freq[i] + freq[j] == freq[r] && i < r && j < r)
  }

  lemma MergeKeepsPairsLater(freq: seq<nat>, r: nat, c1: nat, c2: nat)
    requires forall i :: 0 <= i < |freq| ==> freq[i] >= 1
    requires Picked(freq, c1, c2) && freq[c1] + freq[c2] <= LIMIT
    requires r < |freq| && freq[r] <= LIMIT && PairsComeLater(freq, r)
    ensures PairsComeLater(Merged(freq, c1, c2), if r == c2 then c1 else r)
  {
  }

  lemma MergeKeepsLastDeepest(freq: seq<nat>, codesize: seq<nat>, owner: seq<nat>, codesize': seq<nat>, c1: nat,
                              c2: nat)
    requires |freq| == |codesize| == |owner| == |codesize'| > 0
    requires InRange(owner, |freq|) && forall s :: 0 <= s < |owner| ==> freq[owner[s]] <= LIMIT
    requires Picked(freq, c1, c2) && freq[c1] + freq[c2] <= LIMIT
    requires forall s :: 0 <= s < |codesize| ==>
               codesize'[s] == codesize[s] + if owner[s] == c1 || owner[s] == c2 then 1 else 0
    requires LastIsDeepest(freq, codesize, owner) && PairsComeLater(freq, owner[|freq| - 1])
    ensures LastIsDeepest(Merged(freq, c1, c2), codesize', MergedOwner(owner, c1, c2))
  {
    var r := owner[|freq| - 1];
    assert r != c1 && r != c2 ==> freq[c1] + freq[c2] > freq[r] || (freq[c1] + freq[c2] == freq[r] && c1 < r && c2 < r);
    hide PairsComeLater;
  }

  // ---------- no assignment of lengths is better ----------

  ghost predicate Reaches(w: seq<nat>, freq: seq<nat>, codesize: seq<nat>, len: seq<nat>, left: seq<nat>)
    requires |w| == |freq| == |codesize| == |len|
  {
    && |left| == |w| && Kraft(Alive(freq), left) <= 1.0
    && Cost(freq, Alive(freq), left) + Cost(w, All(|w|), codesize) <= Cost(w, All(|w|), len)
  }

  /** Whatever lengths the symbols might be given, the merges made so far can be completed for
      no greater cost. */
  ghost predicate NothingLost(w: seq<nat>, freq: seq<nat>, codesize: seq<nat>)
    requires |w| == |freq| == |codesize|
  {
    forall len: seq<nat> :: |len| == |w| && Kraft(All(|w|), len) <= 1.0 ==>
      exists left :: Reaches(w, freq, codesize, len, left)
  }

  lemma NothingLostAtFirst(w: seq<nat>, codesize: seq<nat>)
    requires |codesize| == |w| && forall i :: 0 <= i < |w| ==> codesize[i] == 0 && w[i] <= LIMIT
    ensures NothingLost(w, w, codesize)
  {
    assert Alive(w) == All(|w|);
    AllZero(CostTerms(w, All(|w|), codesize));
    forall len: seq<nat> | |len| == |w| && Kraft(All(|w|), len) <= 1.0
      ensures exists left :: Reaches(w, w, codesize, len, left)
    {
      assert Reaches(w, w, codesize, len, len);
    }
  }

  lemma MergeLosesNothing(w: seq<nat>, freq: seq<nat>, codesize: seq<nat>, codesize': seq<nat>, c1: nat, c2: nat)
    requires |w| == |freq| == |codesize| == |codesize'|
    requires NothingLost(w, freq, codesize) && Picked(freq, c1, c2) && freq[c1] + freq[c2] <= LIMIT
    requires Cost(w, All(|w|), codesize') == Cost(w, All(|w|), codesize) + (freq[c1] + freq[c2]) as real
    ensures NothingLost(w, Merged(freq, c1, c2), codesize')
  {
    hide Reaches, Kraft, Cost;
    forall len: seq<nat> | |len| == |w| && Kraft(All(|w|), len) <= 1.0
      ensures exists left :: Reaches(w, Merged(freq, c1, c2), codesize', len, left)
    {
      var left :| Reaches(w, freq, codesize, len, left);
      var left' := MergeReaches(w, freq, codesize, codesize', c1, c2, len, left);
    }
  }

  lemma MergeReaches(w: seq<nat>, freq: seq<nat>, codesize: seq<nat>, codesize': seq<nat>, c1: nat, c2: nat,
                     len: seq<nat>, left: seq<nat>) returns (left': seq<nat>)
    requires |w| == |freq| == |codesize| == |codesize'| == |len|
    requires Reaches(w, freq, codesize, len, left) && Picked(freq, c1, c2) && freq[c1] + freq[c2] <= LIMIT
    requires Cost(w, All(|w|), codesize') == Cost(w, All(|w|), codesize) + (freq[c1] + freq[c2]) as real
    ensures Reaches(w, Merged(freq, c1, c2), codesize', len, left')
  {
    hide Kraft;
    var f := freq[c1] + freq[c2];
    MergedAlive(freq, c1, c2);
    assert Lightest(freq, Alive(freq), c1, c2);
    left' := MergeLightest(freq, Alive(freq), left, c1, c2);
    var alive' := Alive(freq)[c2 := false];
    assert CostTerms(Merged(freq, c1, c2), alive', left') == CostTerms(freq[c1 := f], alive', left');
  }

  lemma MergedAlive(freq: seq<nat>, c1: nat, c2: nat)
    requires c1 < |freq| && c2 < |freq| && c1 != c2 && freq[c1] <= LIMIT && freq[c2] <= LIMIT
    requires freq[c1] + freq[c2] <= LIMIT
    ensures Alive(Merged(freq, c1, c2)) == Alive(freq)[c2 := false]
  {
  }

  /** Going deeper by one costs the weight of the symbols that go. */
  lemma {:induction false} DeeperCosts(w: seq<nat>, codesize: seq<nat>, chain: seq<nat>)
    requires |w| == |codesize| && InRange(chain, |w|) && NoRepeats(chain)
    ensures Cost(w, All(|w|), Deeper(codesize, chain)) == Cost(w, All(|w|), codesize) + Over(Reals(w), chain)
  {
    hide Weighted, Cost;
    if chain == [] {
      assert Deeper(codesize, chain) == codesize;
    } else {
      var front, s := chain[..|chain| - 1], chain[|chain| - 1];
      DeeperCosts(w, codesize, front);
      assert s !in front;
      assert Deeper(codesize, chain) == Deeper(codesize, front)[s := codesize[s] + 1];
      CostUpdate(w, All(|w|), Deeper(codesize, front), s, w[s], codesize[s] + 1);
      assert w[s := w[s]] == w;
      OneDeeper(w[s], codesize[s]);
    }
  }

  lemma OneDeeper(w: nat, n: nat)
    ensures Weighted(w, n + 1) == Weighted(w, n) + w as real
  {
    MulCommutes(w, n + 1);
    MulCommutes(w, n);
    MulDistributes(n, 1, w);
  }

  /** Every merge leaves one tree less, and the codes of those left are complete. */
  lemma {:induction false} DeeperHalves(codesize: seq<nat>, chain: seq<nat>)
    requires InRange(chain, |codesize|) && NoRepeats(chain)
    ensures var n := |codesize|;
            Kraft(All(n), Deeper(codesize, chain))
                == Kraft(All(n), codesize) - Over(KraftTerms(All(n), codesize), chain) / 2.0
  {
    hide Kraft;
    var n := |codesize|;
    if chain == [] {
      assert Deeper(codesize, chain) == codesize;
    } else {
      var front, s := chain[..|chain| - 1], chain[|chain| - 1];
      DeeperHalves(codesize, front);
      assert s !in front;
      assert Deeper(codesize, chain) == Deeper(codesize, front)[s := codesize[s] + 1];
      KraftUpdate(All(n), Deeper(codesize, front), s, codesize[s] + 1);
    }
  }

  function TreeTerms(freq: seq<nat>): (t: seq<real>)
    ensures |t| == |freq| && forall i :: 0 <= i < |t| ==> t[i] == if freq[i] <= LIMIT then 1.0 else 0.0
  {
    seq(|freq|, i requires 0 <= i < |freq| => if freq[i] <= LIMIT then 1.0 else 0.0)
  }

  /** How many trees are left. */
  function Trees(freq: seq<nat>): (r: real)
    ensures r >= 0.0
  {
    SumNonnegative(TreeTerms(freq));
    Sum(TreeTerms(freq))
  }

  lemma MergeTakesOneTree(freq: seq<nat>, c1: nat, c2: nat)
    requires c1 < |freq| && c2 < |freq| && c1 != c2 && freq[c1] <= LIMIT && freq[c2] <= LIMIT
    requires freq[c1] + freq[c2] <= LIMIT
    ensures Trees(Merged(freq, c1, c2)) == Trees(freq) - 1.0
  {
    assert TreeTerms(Merged(freq, c1, c2)) == TreeTerms(freq)[c2 := 0.0];
    SumUpdate(TreeTerms(freq), c2, 0.0);
  }

  // ---------- the loop ----------

  /** What every merge keeps. */
  ghost predicate Progress(w: seq<nat>, freq: seq<nat>, codesize: seq<nat>, others: seq<int>,
                           chains: seq<seq<nat>>, owner: seq<nat>)
  {
    && |w| > 0
    && Forest(w, freq, codesize, others, chains, owner)
    && Sum(AliveTerms(freq)) <= LIMIT as real
    && LastIsDeepest(freq, codesize, owner) && PairsComeLater(freq, owner[|w| - 1])
    && NothingLost(w, freq, codesize)
    && Kraft(All(|w|), codesize) == Trees(freq)
  }

  lemma AliveOwners(w: seq<nat>, freq: seq<nat>, codesize: seq<nat>, others: seq<int>,
                    chains: seq<seq<nat>>, owner: seq<nat>)
    requires Forest(w, freq, codesize, others, chains, owner)
    ensures forall i :: 0 <= i < |freq| ==> freq[i] >= 1 && (freq[i] <= LIMIT <==> chains[i] != [])
    ensures InRange(owner, |freq|) && forall s :: 0 <= s < |owner| ==> freq[owner[s]] <= LIMIT
  {
    forall i | 0 <= i < |freq|
      ensures freq[i] >= 1 && (freq[i] <= LIMIT <==> chains[i] != [])
    {
      assert IsTree(w, codesize, freq[i], chains[i]);
    }
    forall s | 0 <= s < |owner|
      ensures freq[owner[s]] <= LIMIT
    {
      assert s in chains[owner[s]];
    }
  }

  lemma DeeperByOwner(codesize: seq<nat>, chains: seq<seq<nat>>, owner: seq<nat>, c1: nat, c2: nat, s: nat)
    requires Partition(chains, owner) && |codesize| == |owner| && c1 < |owner| && c2 < |owner| && s < |owner|
    ensures Deeper(codesize, chains[c1] + chains[c2])[s]
         == codesize[s] + if owner[s] == c1 || owner[s] == c2 then 1 else 0
  {
    assert IsChain(chains[c1], c1, owner) && IsChain(chains[c2], c2, owner);
    assert s in chains[owner[s]];
  }

  lemma DeeperIsLengthened(codesize: seq<nat>, chains: seq<seq<nat>>, owner: seq<nat>, c1: nat, c2: nat)
    requires Partition(chains, owner) && |codesize| == |owner| && c1 < |owner| && c2 < |owner|
    ensures Deeper(codesize, chains[c1] + chains[c2]) == Lengthened(codesize, owner, c1, c2)
  {
    hide Deeper, Lengthened;
    forall s | 0 <= s < |owner|
      ensures Deeper(codesize, chains[c1] + chains[c2])[s] == Lengthened(codesize, owner, c1, c2)[s]
    {
      DeeperByOwner(codesize, chains, owner, c1, c2, s);
    }
  }

  lemma ChainOfBoth(chains: seq<seq<nat>>, owner: seq<nat>, c1: nat, c2: nat)
    requires Partition(chains, owner) && c1 < |owner| && c2 < |owner| && c1 != c2
    ensures InRange(chains[c1] + chains[c2], |owner|) && NoRepeats(chains[c1] + chains[c2])
  {
    assert IsChain(chains[c1], c1, owner) && IsChain(chains[c2], c2, owner);
  }

  lemma MergeMakesProgress(w: seq<nat>, freq: seq<nat>, codesize: seq<nat>, others: seq<int>,
                           chains: seq<seq<nat>>, owner: seq<nat>, c1: nat, c2: nat)
    requires Progress(w, freq, codesize, others, chains, owner) && Picked(freq, c1, c2)
    ensures chains[c1] != [] && chains[c2] != [] && InRange(chains[c1], |w|)
    ensures freq[c1] + freq[c2] <= LIMIT && Trees(Merged(freq, c1, c2)) == Trees(freq) - 1.0
    ensures var a, b := chains[c1], chains[c2];
            Progress(w, Merged(freq, c1, c2), Deeper(codesize, a + b), others[a[|a| - 1] := c2],
                     chains[c1 := a + b][c2 := []], MergedOwner(owner, c1, c2))
  {
    hide Kraft, Cost, Trees, NothingLost, PairsComeLater, LastIsDeepest, Merged;
    hide Deeper, MergedOwner, Forest, AliveTerms;
    Broken(w, freq, codesize, others, chains, owner);
    MergeKeepsTotal(freq, c1, c2);
    MergeForest(w, freq, codesize, others, chains, owner, c1, c2);
    AliveOwners(w, freq, codesize, others, chains, owner);
    MergeKeepsOrder(freq, codesize, chains, owner, c1, c2);
    TreesOfBoth(w, freq, codesize, others, chains, owner, c1, c2);
    MergeKeepsCost(w, freq, codesize, chains[c1], chains[c2], c1, c2);
    MergeTakesOneTree(freq, c1, c2);
  }

  lemma Broken(w: seq<nat>, freq: seq<nat>, codesize: seq<nat>, others: seq<int>,
               chains: seq<seq<nat>>, owner: seq<nat>)
    requires Forest(w, freq, codesize, others, chains, owner)
    ensures |w| == |freq| == |codesize| == |others| == |chains| == |owner|
    ensures InRange(owner, |w|) && Partition(chains, owner)
    ensures forall i :: 0 <= i < |w| ==> IsChain(chains[i], i, owner)
  {
  }

  lemma MergeKeepsOrder(freq: seq<nat>, codesize: seq<nat>, chains: seq<seq<nat>>, owner: seq<nat>, c1: nat, c2: nat)
    requires |freq| == |codesize| == |owner| > 0 && Partition(chains, owner)
    requires forall i :: 0 <= i < |freq| ==> freq[i] >= 1
    requires forall s :: 0 <= s < |owner| ==> freq[owner[s]] <= LIMIT
    requires Picked(freq, c1, c2) && freq[c1] + freq[c2] <= LIMIT
    requires LastIsDeepest(freq, codesize, owner) && PairsComeLater(freq, owner[|owner| - 1])
    ensures LastIsDeepest(Merged(freq, c1, c2), Deeper(codesize, chains[c1] + chains[c2]), MergedOwner(owner, c1, c2))
    ensures PairsComeLater(Merged(freq, c1, c2), MergedOwner(owner, c1, c2)[|owner| - 1])
  {
    hide PairsComeLater, LastIsDeepest, Merged, Deeper;
    forall s | 0 <= s < |owner|
      ensures Deeper(codesize, chains[c1] + chains[c2])[s]
           == codesize[s] + if owner[s] == c1 || owner[s] == c2 then 1 else 0
    {
      DeeperByOwner(codesize, chains, owner, c1, c2, s);
    }
    MergeKeepsPairsLater(freq, owner[|owner| - 1], c1, c2);
    MergeKeepsLastDeepest(freq, codesize, owner, Deeper(codesize, chains[c1] + chains[c2]), c1, c2);
  }

  lemma TreesOfBoth(w: seq<nat>, freq: seq<nat>, codesize: seq<nat>, others: seq<int>,
                    chains: seq<seq<nat>>, owner: seq<nat>, c1: nat, c2: nat)
    requires Forest(w, freq, codesize, others, chains, owner) && c1 < |owner| && c2 < |owner| && c1 != c2
    ensures InRange(chains[c1], |w|) && IsTree(w, codesize, freq[c1], chains[c1])
    ensures InRange(chains[c2], |w|) && IsTree(w, codesize, freq[c2], chains[c2])
    ensures InRange(chains[c1] + chains[c2], |w|) && NoRepeats(chains[c1] + chains[c2])
  {
    assert IsChain(chains[c1], c1, owner) && IsChain(chains[c2], c2, owner);
    ChainOfBoth(chains, owner, c1, c2);
  }

  lemma MergeKeepsCost(w: seq<nat>, freq: seq<nat>, codesize: seq<nat>, a: seq<nat>, b: seq<nat>,
                       c1: nat, c2: nat)
    requires |w| == |freq| == |codesize| && Picked(freq, c1, c2)
    requires freq[c1] + freq[c2] <= LIMIT && NothingLost(w, freq, codesize)
    requires InRange(a, |w|) && IsTree(w, codesize, freq[c1], a)
    requires InRange(b, |w|) && IsTree(w, codesize, freq[c2], b)
    requires InRange(a + b, |w|) && NoRepeats(a + b)
    ensures var codesize' := Deeper(codesize, a + b);
            && NothingLost(w, Merged(freq, c1, c2), codesize')
            && Kraft(All(|w|), codesize') == Kraft(All(|w|), codesize) - 1.0
  {
    hide Kraft, Cost, NothingLost, Over;
    DeeperCosts(w, codesize, a + b);
    OverAppend(Reals(w), a, b);
    MergeLosesNothing(w, freq, codesize, Deeper(codesize, a + b), c1, c2);
    DeeperHalves(codesize, a + b);
    OverAppend(KraftTerms(All(|w|), codesize), a, b);
  }

  /** The search for the two trees to merge. A negative c2 says that only one is left. */
  method FindTwo(freq: array<nat>, n: nat) returns (c1: int, c2: int)
    requires n <= freq.Length && exists i :: 0 <= i < n && freq[i] <= LIMIT
    ensures 0 <= c1 < n && freq[c1] <= LIMIT && c2 < n && c2 != c1
    ensures c2 < 0 ==> forall k :: 0 <= k < n && k != c1 ==> freq[k] > LIMIT
    ensures c2 >= 0 ==> Picked(freq[..n], c1, c2)
  {
    c1, c2 := -1, -1;
    var v, v2 := LIMIT, LIMIT;
    var i := 0;
    while i < n
      invariant 0 <= i <= n
      invariant -1 <= c1 < i && -1 <= c2 < i && (c1 < 0 ==> c2 < 0)
      invariant if c1 < 0 then v == LIMIT else v == freq[c1] <= LIMIT
      invariant if c2 < 0 then v2 == LIMIT else v2 == freq[c2] <= LIMIT
      invariant c2 >= 0 ==> c1 != c2 && Before(freq[..n], c1, c2)
      invariant forall k :: 0 <= k < i && k != c1 && k != c2 && freq[k] <= LIMIT ==>
                  c2 >= 0 && Before(freq[..n], c2, k)
    {
      if freq[i] <= v2 {
        if freq[i] <= v {
          c2 := c1;
          v2 := v;
          v := freq[i];
          c1 := i;
        } else {
          v2 := freq[i];
          c2 := i;
        }
      }
      i := i + 1;
    }
  }

  lemma NextInChain(others: seq<int>, chain: seq<nat>, k: nat)
    requires Linked(others, chain) && NoRepeats(chain) && k < |chain|
    ensures others[chain[k]] == if k == |chain| - 1 then -1 else chain[k + 1]
    ensures k + 1 < |chain| ==> chain[k + 1] !in chain[..k + 1]
  {
  }

  /** Chains of different trees are disjoint, so deepening both is deepening each. */
  lemma DeeperTwice(codesize: seq<nat>, a: seq<nat>, b: seq<nat>, owner: seq<nat>, c1: nat, c2: nat)
    requires |codesize| == |owner| && c1 != c2 && IsChain(a, c1, owner) && IsChain(b, c2, owner)
    ensures Deeper(Deeper(codesize, a), b) == Deeper(codesize, a + b)
  {
    forall s | 0 <= s < |codesize|
      ensures s in a ==> s !in b
    {
    }
  }

  /** One more bit for every symbol of the tree; returns the last of its chain. */
  method Deepen(codesize: array<nat>, others: array<int>, n: nat, root: nat, ghost chain: seq<nat>) returns (c: nat)
    requires n <= codesize.Length && n <= others.Length
    requires chain != [] && chain[0] == root && NoRepeats(chain) && Linked(others[..n], chain)
    modifies codesize
    ensures codesize[..n] == Deeper(old(codesize[..n]), chain)
    ensures c == chain[|chain| - 1] < n
  {
    ghost var links, before := others[..n], codesize[..n];
    c := root;
    codesize[c] := codesize[c] + 1;
    ghost var k := 0;
    assert codesize[..n] == Deeper(before, chain[..1]);
    while others[c] >= 0
      invariant 0 <= k < |chain| && c == chain[k]
      invariant codesize[..n] == Deeper(before, chain[..k + 1]) && others[..n] == links
      decreases |chain| - k
    {
      NextInChain(links, chain, k);
      c := others[c];
      assert chain[..k + 2] == chain[..k + 1] + [c];
      codesize[c] := codesize[c] + 1;
      k := k + 1;
      assert codesize[..n] == Deeper(before, chain[..k + 1]);
    }
    NextInChain(links, chain, k);
    assert chain[..k + 1] == chain;
  }

  /** The lengths of an optimal code in which the last symbol has a greatest length. */
  ghost predicate IsOptimal(w: seq<nat>, sizes: seq<nat>) {
    && |sizes| == |w| > 0
    && Kraft(All(|w|), sizes) == 1.0
    && (forall s :: 0 <= s < |w| ==> sizes[s] <= sizes[|w| - 1])
    && (forall len: seq<nat> :: |len| == |w| && Kraft(All(|w|), len) <= 1.0 ==>
          Cost(w, All(|w|), sizes) <= Cost(w, All(|w|), len))
  }

  /**
   * Code lengths for the weights in freq, of which the last belongs to the pseudo-symbol: those
   * of Huffman's procedure. They fill the code space, cost no more than any other prefix code,
   * and are nowhere greater than that of the pseudo-symbol.
   */
  method BuildLengths(freq: array<nat>, n: nat) returns (codesize: array<nat>)
    requires 0 < n <= freq.Length
    requires forall i :: 0 <= i < n ==> 1 <= freq[i] <= LIMIT
    requires freq[n - 1] == 1 && Sum(Reals(freq[..n])) <= LIMIT as real
    modifies freq
    ensures fresh(codesize) && codesize.Length == freq.Length
    ensures codesize[..n] == TreeLengths(old(freq[..n]))
    ensures IsOptimal(old(freq[..n]), codesize[..n])
  {
    hide Progress, IsOptimal, Trees, Picked, AfterMerges;
    codesize := new nat[freq.Length](_ => 0);
    var others := new int[freq.Length](_ => -1);
    ghost var w := freq[..n];
    ghost var chains: seq<seq<nat>> := seq(n, i => [i]);
    ghost var owner: seq<nat> := seq(n, i => i);
    ghost var j := 0;
    ProgressAtFirst(w, codesize[..n], others[..n], chains, owner);
    NoMerges(w, owner, codesize[..n]);
    while true
      invariant n <= freq.Length == codesize.Length == others.Length
      invariant fresh(codesize) && fresh(others)
      invariant |w| == n && Progress(w, freq[..n], codesize[..n], others[..n], chains, owner)
      invariant AfterMerges(w, j) == Merging(freq[..n], owner, codesize[..n])
      invariant Trees(freq[..n]) == (n - j) as real
      decreases n - j
    {
      SomeTreeIsLeft(w, freq[..n], codesize[..n], others[..n], chains, owner);
      var c1, c2 := FindTwo(freq, n);
      if c2 < 0 {
        OneTreeLeft(w, freq[..n], codesize[..n], others[..n], chains, owner, c1);
        break;
      }
      NextMerge(w, j, c1, c2);
      chains, owner := MergePair(freq, codesize, others, n, c1, c2, w, chains, owner);
      j := j + 1;
    }
  }

  lemma NoMerges(w: seq<nat>, owner: seq<nat>, codesize: seq<nat>)
    requires |owner| == |codesize| == |w|
    requires forall i :: 0 <= i < |w| ==> owner[i] == i && codesize[i] == 0 && w[i] <= LIMIT
    ensures AfterMerges(w, 0) == Merging(w, owner, codesize) && Trees(w) == |w| as real
  {
    AllOnes(TreeTerms(w));
  }

  lemma {:induction false} AllOnes(t: seq<real>)
    requires forall k :: 0 <= k < |t| ==> t[k] == 1.0
    ensures Sum(t) == |t| as real
  {
    if t != [] {
      AllOnes(t[..|t| - 1]);
    }
  }

  method MergeWeights(freq: array<nat>, n: nat, c1: nat, c2: nat)
    requires c1 < n <= freq.Length && c2 < n && c1 != c2
    modifies freq
    ensures freq[..n] == Merged(old(freq[..n]), c1, c2)
  {
    freq[c1] := freq[c1] + freq[c2];
    freq[c2] := MERGED;
  }

  method MergePair(freq: array<nat>, codesize: array<nat>, others: array<int>, n: nat, c1: nat, c2: nat,
                   ghost w: seq<nat>, ghost chains: seq<seq<nat>>, ghost owner: seq<nat>)
    returns (ghost chains': seq<seq<nat>>, ghost owner': seq<nat>)
    requires n <= freq.Length == codesize.Length == others.Length && freq != codesize
    requires |w| == n && Progress(w, freq[..n], codesize[..n], others[..n], chains, owner)
    requires Picked(freq[..n], c1, c2)
    modifies freq, codesize, others
    ensures Progress(w, freq[..n], codesize[..n], others[..n], chains', owner')
    ensures Trees(freq[..n]) == old(Trees(freq[..n])) - 1.0
    ensures |owner| == n && owner' == MergedOwner(owner, c1, c2) && freq[..n] == Merged(old(freq[..n]), c1, c2)
    ensures codesize[..n] == Lengthened(old(codesize[..n]), owner, c1, c2)
  {
    hide Kraft, Cost, Trees, NothingLost, PairsComeLater, LastIsDeepest, IsTree, Alive, AliveTerms;
    hide Deeper, Lengthened, Merged, MergedOwner, Over, Sum;
    DeeperIsLengthened(codesize[..n], chains, owner, c1, c2);
    MergeMakesProgress(w, freq[..n], codesize[..n], others[..n], chains, owner, c1, c2);
    ghost var a, b := chains[c1], chains[c2];
    assert Linked(others[..n], a) && Linked(others[..n], b) && IsChain(a, c1, owner) && IsChain(b, c2, owner);
    chains', owner' := chains[c1 := a + b][c2 := []], MergedOwner(owner, c1, c2);
    MergeWeights(freq, n, c1, c2);
    ChainTogether(codesize, others, n, c1, c2, a, b, owner);
  }

  /** Deepens both trees and hangs the chain of c2 on that of c1. */
  method ChainTogether(codesize: array<nat>, others: array<int>, n: nat, c1: nat, c2: nat,
                       ghost a: seq<nat>, ghost b: seq<nat>, ghost owner: seq<nat>)
    requires n <= codesize.Length && n <= others.Length && |owner| == n && c1 < n && c2 < n && c1 != c2
    requires IsChain(a, c1, owner) && IsChain(b, c2, owner) && a != [] && b != []
    requires Linked(others[..n], a) && Linked(others[..n], b)
    modifies codesize, others
    ensures codesize[..n] == Deeper(old(codesize[..n]), a + b)
    ensures others[..n] == old(others[..n])[a[|a| - 1] := c2]
  {
    hide Deeper;
    DeeperTwice(codesize[..n], a, b, owner, c1, c2);
    var last := Deepen(codesize, others, n, c1, a);
    OtherChainsStay(others[..n], b, owner, c2, last, c2);
    others[last] := c2;
    assert others[..n] == old(others[..n])[last := c2];
    var end := Deepen(codesize, others, n, c2, b);
  }

  lemma SomeTreeIsLeft(w: seq<nat>, freq: seq<nat>, codesize: seq<nat>, others: seq<int>,
                       chains: seq<seq<nat>>, owner: seq<nat>)
    requires Progress(w, freq, codesize, others, chains, owner)
    ensures exists i :: 0 <= i < |freq| && freq[i] <= LIMIT
    ensures Trees(freq) >= 0.0
  {
    AliveOwners(w, freq, codesize, others, chains, owner);
    assert freq[owner[0]] <= LIMIT;
  }

  lemma ProgressAtFirst(w: seq<nat>, codesize: seq<nat>, others: seq<int>, chains: seq<seq<nat>>, owner: seq<nat>)
    requires |w| == |codesize| == |others| == |chains| == |owner| > 0
    requires forall i :: 0 <= i < |w| ==> 1 <= w[i] <= LIMIT && codesize[i] == 0 && others[i] == -1
    requires forall i :: 0 <= i < |w| ==> chains[i] == [i] && owner[i] == i
    requires w[|w| - 1] == 1 && Sum(Reals(w)) <= LIMIT as real
    ensures Progress(w, w, codesize, others, chains, owner)
  {
    hide Kraft, Cost;
    forall i | 0 <= i < |w|
      ensures IsTree(w, codesize, w[i], chains[i])
    {
      OneSymbol(w, codesize, i);
    }
    NothingLostAtFirst(w, codesize);
    assert AliveTerms(w) == Reals(w);
    assert KraftTerms(All(|w|), codesize) == TreeTerms(w);
    KraftIsSum(All(|w|), codesize);
  }

  lemma KraftIsSum(alive: seq<bool>, len: seq<nat>)
    requires |len| == |alive|
    ensures Kraft(alive, len) == Sum(KraftTerms(alive, len))
  {
  }

  lemma OneSymbol(w: seq<nat>, codesize: seq<nat>, i: nat)
    requires |w| == |codesize| && i < |w| && 1 <= w[i] <= LIMIT && codesize[i] == 0
    ensures IsTree(w, codesize, w[i], [i])
  {
    assert [i][..0] == [];
    assert Over(Reals(w), [i]) == w[i] as real;
  }

  lemma OneTreeLeft(w: seq<nat>, freq: seq<nat>, codesize: seq<nat>, others: seq<int>,
                    chains: seq<seq<nat>>, owner: seq<nat>, c: nat)
    requires Progress(w, freq, codesize, others, chains, owner)
    requires c < |freq| && freq[c] <= LIMIT && forall k :: 0 <= k < |freq| && k != c ==> freq[k] > LIMIT
    ensures Trees(freq) == 1.0 && IsOptimal(w, codesize)
  {
    hide Kraft, Cost, NothingLost, Forest;
    Broken(w, freq, codesize, others, chains, owner);
    OnlyTerm(TreeTerms(freq), c);
    BestWhenOneLeft(w, freq, codesize);
  }

  lemma BestWhenOneLeft(w: seq<nat>, freq: seq<nat>, codesize: seq<nat>)
    requires |w| == |freq| == |codesize| && NothingLost(w, freq, codesize)
    ensures forall len: seq<nat> :: |len| == |w| && Kraft(All(|w|), len) <= 1.0 ==>
              Cost(w, All(|w|), codesize) <= Cost(w, All(|w|), len)
  {
    hide Kraft;
    forall len: seq<nat> | |len| == |w| && Kraft(All(|w|), len) <= 1.0
      ensures Cost(w, All(|w|), codesize) <= Cost(w, All(|w|), len)
    {
      var left :| Reaches(w, freq, codesize, len, left);
      SumNonnegative(CostTerms(freq, Alive(freq), left));
    }
  }

  // ---------- the same about the procedure itself ----------

  lemma {:induction false} MergingProgress(w: seq<nat>, j: nat) returns (others: seq<int>, chains: seq<seq<nat>>)
    requires j < |w| && forall i :: 0 <= i < |w| ==> 1 <= w[i] <= LIMIT
    requires w[|w| - 1] == 1 && Sum(Reals(w)) <= LIMIT as real
    ensures var m := AfterMerges(w, j);
            Progress(w, m.freq, m.codesize, others, chains, m.owner) && Trees(m.freq) == (|w| - j) as real
  {
    hide Progress, Trees, Picked, Merging.Step, Reals, Sum;
    if j == 0 {
      others, chains := seq(|w|, _ => -1), seq(|w|, i => [i]);
      var m := AfterMerges(w, 0);
      ProgressAtFirst(w, m.codesize, others, chains, m.owner);
      NoMerges(w, m.owner, m.codesize);
    } else {
      var m := AfterMerges(w, j - 1);
      assert AfterMerges(w, j) == m.Step();
      hide AfterMerges;
      others, chains := MergingProgress(w, j - 1);
      var c1, c2 := StepMerges(m);
      if c1 < 0 || c2 < 0 {
        AtMostOneTree(m.freq);
        assert false;
      } else {
        others, chains := MergeOnce(w, m, others, chains, c1, c2);
      }
    }
  }

  lemma MergeOnce(w: seq<nat>, m: Merging, others: seq<int>, chains: seq<seq<nat>>, c1: nat, c2: nat)
    returns (others': seq<int>, chains': seq<seq<nat>>)
    requires Progress(w, m.freq, m.codesize, others, chains, m.owner) && Picked(m.freq, c1, c2)
    ensures |m.owner| == |m.codesize|
    ensures Progress(w, Merged(m.freq, c1, c2), Lengthened(m.codesize, m.owner, c1, c2), others', chains',
                     MergedOwner(m.owner, c1, c2))
    ensures Trees(Merged(m.freq, c1, c2)) == Trees(m.freq) - 1.0
  {
    hide Trees, Deeper, Merged, MergedOwner, Lengthened, Sum, AliveTerms, LastIsDeepest, PairsComeLater;
    hide NothingLost, Kraft, IsTree, IsChain, Linked;
    Broken(w, m.freq, m.codesize, others, chains, m.owner);
    MergeMakesProgress(w, m.freq, m.codesize, others, chains, m.owner, c1, c2);
    DeeperIsLengthened(m.codesize, chains, m.owner, c1, c2);
    var a, b := chains[c1], chains[c2];
    others', chains' := others[a[|a| - 1] := c2], chains[c1 := a + b][c2 := []];
  }

  lemma AtMostOneTree(freq: seq<nat>)
    requires forall i, j :: 0 <= i < j < |freq| ==> freq[i] > LIMIT || freq[j] > LIMIT
    ensures Trees(freq) <= 1.0
  {
    var t := TreeTerms(freq);
    if c :| 0 <= c < |freq| && freq[c] <= LIMIT {
      OnlyTerm(t, c);
    } else {
      AllZero(t);
    }
  }

  /** Huffman's procedure is optimal, and its last symbol, of weight 1, gets a greatest length. */
  lemma TreeLengthsAreOptimal(w: seq<nat>)
    requires |w| > 0 && forall i :: 0 <= i < |w| ==> 1 <= w[i] <= LIMIT
    requires w[|w| - 1] == 1 && Sum(Reals(w)) <= LIMIT as real
    ensures IsOptimal(w, TreeLengths(w))
  {
    hide Progress, Trees, IsOptimal;
    var others, chains := MergingProgress(w, |w| - 1);
    var m := AfterMerges(w, |w| - 1);
    SomeTreeIsLeft(w, m.freq, m.codesize, others, chains, m.owner);
    var c :| 0 <= c < |m.freq| && m.freq[c] <= LIMIT;
    forall k | 0 <= k < |m.freq| && k != c
      ensures m.freq[k] > LIMIT
    {
      if m.freq[k] <= LIMIT {
        TwoTrees(m.freq, c, k);
      }
    }
    OneTreeLeft(w, m.freq, m.codesize, others, chains, m.owner, c);
  }

  lemma TwoTrees(freq: seq<nat>, i: nat, j: nat)
    requires i < |freq| && j < |freq| && i != j && freq[i] <= LIMIT && freq[j] <= LIMIT
    ensures Trees(freq) >= 2.0
  {
    TwoTerms(TreeTerms(freq), i, j);
  }
}
