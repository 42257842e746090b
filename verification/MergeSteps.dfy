/**
 * Huffman's procedure as a function of the weights: which two trees are merged in each round,
 * and the code lengths that are left. The tree-building loop is proved to compute it.
 */
module MergeSteps {

  const LIMIT := 1_000_000_000   // no frequency is larger
  const MERGED := 1_000_000_001  // marks a tree that has been merged into another

  /** The order in which trees are picked: lightest first, on a tie the larger index. */
  predicate Before(freq: seq<nat>, i: nat, j: nat)
    requires i < |freq| && j < |freq|
  {
    freq[i] < freq[j] || (freq[i] == freq[j] && i > j)
  }

  /** The two trees picked for a merge. */
  ghost predicate Picked(freq: seq<nat>, c1: nat, c2: nat) {
    && c1 < |freq| && c2 < |freq| && c1 != c2 && freq[c1] <= LIMIT && freq[c2] <= LIMIT
    && Before(freq, c1, c2)
    && forall k :: 0 <= k < |freq| && k != c1 && k != c2 && freq[k] <= LIMIT ==> Before(freq, c2, k)
  }

  /** The first of the trees below m in that order, leaving out one; -1 if there is none. */
  function FirstTree(freq: seq<nat>, m: nat, skip: int): (c: int)
    requires m <= |freq|
    ensures -1 <= c < m && (c >= 0 ==> c != skip && freq[c] <= LIMIT)
    ensures forall k :: 0 <= k < m && k != skip && k != c && freq[k] <= LIMIT ==> c >= 0 && Before(freq, c, k)
  {
    if m == 0 then -1
    else
      var c := FirstTree(freq, m - 1, skip);
      if m - 1 != skip && freq[m - 1] <= LIMIT && (c < 0 || Before(freq, m - 1, c)) then m - 1 else c
  }

  /** What is picked is determined by the weights. */
  lemma PickedIsFirst(freq: seq<nat>, c1: nat, c2: nat)
    requires Picked(freq, c1, c2)
    ensures FirstTree(freq, |freq|, -1) == c1 && FirstTree(freq, |freq|, c1) == c2
  {
    var d1, d2 := FirstTree(freq, |freq|, -1), FirstTree(freq, |freq|, c1);
    assert d1 >= 0 && d2 >= 0;
  }

  /** No tree is lighter than the first, nor any other than the second; among equals they have the
      largest indices. */
  lemma PickedAreLightest(freq: seq<nat>, c1: nat, c2: nat, k: nat)
    requires Picked(freq, c1, c2) && k < |freq| && k != c1 && freq[k] <= LIMIT
    ensures freq[c1] <= freq[k] && (freq[c1] == freq[k] ==> k < c1)
    ensures k != c2 ==> freq[c2] <= freq[k] && (freq[c2] == freq[k] ==> k < c2)
  {
  }

  function Merged(freq: seq<nat>, c1: nat, c2: nat): seq<nat>
    requires c1 < |freq| && c2 < |freq| && c1 != c2
  {
    freq[c1 := freq[c1] + freq[c2]][c2 := MERGED]
  }

  function MergedOwner(owner: seq<nat>, c1: nat, c2: nat): (o: seq<nat>)
    ensures |o| == |owner| && forall s :: 0 <= s < |o| ==> o[s] == if owner[s] == c2 then c1 else owner[s]
  {
    seq(|owner|, s requires 0 <= s < |owner| => if owner[s] == c2 then c1 else owner[s])
  }

  /** One more bit for every symbol of the two trees. */
  function Lengthened(codesize: seq<nat>, owner: seq<nat>, c1: nat, c2: nat): (d: seq<nat>)
    requires |codesize| == |owner|
    ensures |d| == |codesize|
    ensures forall s :: 0 <= s < |d| ==> d[s] == codesize[s] + if owner[s] == c1 || owner[s] == c2 then 1 else 0
  {
    seq(|codesize|, s requires 0 <= s < |codesize| =>
      codesize[s] + if owner[s] == c1 || owner[s] == c2 then 1 else 0)
  }

  /** The trees' weights, the tree that each symbol is in, and the symbols' lengths so far. */
  datatype Merging = Merging(freq: seq<nat>, owner: seq<nat>, codesize: seq<nat>) {

    ghost predicate Valid(n: nat) {
      |freq| == |owner| == |codesize| == n
    }

    /** One round; nothing changes when only one tree is left. */
    function Step(): (m: Merging)
      requires |codesize| == |owner|
      ensures |m.freq| == |freq| && |m.owner| == |owner| && |m.codesize| == |codesize|
    {
      var c1 := FirstTree(freq, |freq|, -1);
      var c2 := FirstTree(freq, |freq|, c1);
      if c1 < 0 || c2 < 0 then this
      else Merging(Merged(freq, c1, c2), MergedOwner(owner, c1, c2), Lengthened(codesize, owner, c1, c2))
    }
  }

  function AfterMerges(w: seq<nat>, j: nat): (m: Merging)
    ensures m.Valid(|w|)
  {
    if j == 0 then Merging(w, seq(|w|, i => i), seq(|w|, _ => 0)) else AfterMerges(w, j - 1).Step()
  }

  /** The code lengths that Huffman's procedure gives to these weights. */
  function TreeLengths(w: seq<nat>): (sizes: seq<nat>)
    ensures |sizes| == |w|
  {
    if w == [] then [] else AfterMerges(w, |w| - 1).codesize
  }

  lemma StepMerges(m: Merging) returns (c1: int, c2: int)
    requires |m.codesize| == |m.owner|
    ensures c1 < 0 || c2 < 0 ==>
              && m.Step() == m
              && forall i, j :: 0 <= i < j < |m.freq| ==> m.freq[i] > LIMIT || m.freq[j] > LIMIT
    ensures c1 >= 0 && c2 >= 0 ==>
              && Picked(m.freq, c1, c2)
              && m.Step() == Merging(Merged(m.freq, c1, c2), MergedOwner(m.owner, c1, c2),
                                     Lengthened(m.codesize, m.owner, c1, c2))
  {
    c1 := FirstTree(m.freq, |m.freq|, -1);
    c2 := FirstTree(m.freq, |m.freq|, c1);
  }

  lemma NextMerge(w: seq<nat>, j: nat, c1: nat, c2: nat)
    requires Picked(AfterMerges(w, j).freq, c1, c2)
    ensures var m := AfterMerges(w, j);
            && c1 < |w| && c2 < |w|
            && AfterMerges(w, j + 1)
               == Merging(Merged(m.freq, c1, c2), MergedOwner(m.owner, c1, c2), Lengthened(m.codesize, m.owner, c1, c2))
  {
    PickedIsFirst(AfterMerges(w, j).freq, c1, c2);
  }
}
