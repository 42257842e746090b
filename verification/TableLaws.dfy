/**
 * What a generated table means for the symbols: who gets a short code, who keeps the length that
 * Huffman's procedure gave, and what the limit of 16 bits costs.
 */
module TableLaws {
  import opened Powers
  import opened CodeLengths
  import opened MergeSteps
  import opened HuffTree
  import opened HuffTable
  import opened LengthLimit
  import opened LimitLaws
  import opened OptimalTable

  // ---------- the counts of a complete code ----------

  lemma {:induction false} CountsOfPart(sizes: seq<nat>, i: nat) returns (bits: seq<nat>)
    requires i <= |sizes| && forall s :: 0 <= s < |sizes| ==> sizes[s] <= 32
    ensures CountsOf(bits, sizes, i) && Codes(bits, 33) == i
    ensures Fill(bits, 33) == Units(All(|sizes|)[..i], sizes[..i], 32)
  {
    hide Fill, Codes, Pow2;
    if i == 0 {
      bits := seq(33, _ => 0);
      NothingCounted(bits);
    } else {
      var before := CountsOfPart(sizes, i - 1);
      CountOne(before, sizes, i - 1);
      OneMoreTerm(All(|sizes|), sizes, i - 1);
      bits := before[sizes[i - 1] := before[sizes[i - 1]] + 1];
    }
  }

  lemma CountsAreComplete(sizes: seq<nat>)
    requires |sizes| < 256 && Kraft(All(|sizes|), sizes) == 1.0
    requires forall s :: 0 <= s < |sizes| ==> sizes[s] <= 32
    ensures IsComplete(LengthCounts(sizes), 32, |sizes|)
  {
    hide Kraft, Units, Fill, Codes, Seen, Pow2;
    var bits := CountsOfPart(sizes, |sizes|);
    assert bits == LengthCounts(sizes);
    assert All(|sizes|)[..|sizes|] == All(|sizes|) && sizes[..|sizes|] == sizes;
    CompleteCodeFills(|sizes|, sizes);
  }

  // ---------- tree lengths and final lengths ----------

  /** No symbol gets a longer code than one with a greater tree length. */
  lemma OrderIsKept(t: Table, symbols: seq<nat>, sizes: seq<nat>, s: nat, r: nat, l: nat, k: nat)
    requires IsTable(t) && |symbols| == |sizes| > 0 && IsTableFor(t, symbols, sizes)
    requires s < |symbols| - 1 && r < |symbols| - 1 && sizes[s] < sizes[r]
    requires HasLength(t, symbols[s], l) && HasLength(t, symbols[r], k)
    ensures l <= k
  {
    hide HasRoom, Limited, LengthCounts, TableCounts;
    var codes := Sizes(t.bits, 16);
    var p :| 0 <= p < |codes| && t.huffval[p] == symbols[s] && codes[p] == l;
    var q :| 0 <= q < |codes| && t.huffval[q] == symbols[r] && codes[q] == k;
    SizesAscend(t.bits, 16);
    assert Ascending(codes);
    hide Precedes;
    if q < p {
      LaterIsLonger(symbols, sizes, r, s);
    }
  }

  lemma LaterIsLonger(symbols: seq<nat>, sizes: seq<nat>, s: nat, r: nat)
    requires |symbols| == |sizes| && s < |symbols| && r < |symbols|
    requires Precedes(symbols, sizes, symbols[s], symbols[r])
    ensures sizes[s] <= sizes[r]
  {
  }

  /** If the tree has no length above 16 every symbol keeps its own. */
  lemma AllKept(t: Table, symbols: seq<nat>, sizes: seq<nat>)
    requires IsTable(t) && |symbols| == |sizes| > 0 && |sizes| < 256 && IsTableFor(t, symbols, sizes)
    requires Kraft(All(|sizes|), sizes) == 1.0 && forall s :: 0 <= s < |sizes| ==> sizes[s] <= 16
    ensures forall s :: 0 <= s < |symbols| - 1 ==> HasLength(t, symbols[s], sizes[s])
  {
    hide Kraft, HasRoom, Limited, LengthCounts, TableCounts, IsComplete, Precedes;
    CountsAreComplete(sizes);
    forall l | 17 <= l < 33
      ensures LengthCounts(sizes)[l] == 0
    {
      NoneSeen(sizes, |sizes|, l);
    }
    forall s | 0 <= s < |sizes|
      ensures HasRoom(LengthCounts(sizes), sizes[s], |sizes|)
    {
      ShortCodesHaveRoom(LengthCounts(sizes), sizes[s], |sizes|);
    }
  }

  /** A symbol keeps its tree length while some code of as many symbols, none longer than 16, has
      the same number of codes of each length up to it. */
  lemma KeptWhilePossible(t: Table, symbols: seq<nat>, sizes: seq<nat>, s: nat, other: seq<nat>)
    requires IsTable(t) && |symbols| == |sizes| > 0 && |sizes| < 256 && IsTableFor(t, symbols, sizes)
    requires s < |symbols| - 1 && sizes[s] <= 16
    requires IsPrefixCode(other, |sizes|) && SameUpTo(LengthCounts(sizes), other, sizes[s])
    ensures HasLength(t, symbols[s], sizes[s])
  {
    hide HasRoom, Limited, LengthCounts, TableCounts, Precedes, IsPrefixCode;
    CodeHasRoom(sizes, sizes[s], other);
  }

  lemma CodeHasRoom(sizes: seq<nat>, m: nat, other: seq<nat>)
    requires m <= 16 && IsPrefixCode(other, |sizes|) && SameUpTo(LengthCounts(sizes), other, m)
    ensures HasRoom(LengthCounts(sizes), m, |sizes|)
  {
    RoomIsNeeded(LengthCounts(sizes), other, m, |sizes|);
  }

  // ---------- counts and final lengths ----------

  /** In optimal lengths a heavier symbol is never longer. */
  lemma HeavierIsShorter(w: seq<nat>, sizes: seq<nat>, s: nat, r: nat)
    requires IsOptimal(w, sizes) && s < |w| && r < |w| && w[s] > w[r]
    ensures sizes[s] <= sizes[r]
  {
    hide Kraft, Cost;
    var swapped := sizes[r := sizes[s]][s := sizes[r]];
    assert |swapped| == |w|;
    if sizes[s] > sizes[r] {
      StrictSwap(w, All(|w|), sizes, r, s);
    }
  }

  lemma StrictSwap(weight: seq<nat>, alive: seq<bool>, len: seq<nat>, c: nat, y: nat)
    requires |weight| == |len| == |alive| && c < |alive| && y < |alive| && alive[c] && alive[y]
    requires weight[c] < weight[y] && len[c] < len[y]
    ensures var swapped := len[c := len[y]][y := len[c]];
            Kraft(alive, swapped) == Kraft(alive, len) && Cost(weight, alive, swapped) < Cost(weight, alive, len)
  {
    hide Kraft, Cost, Weighted;
    var first := len[c := len[y]];
    KraftUpdate(alive, len, c, len[y]);
    KraftUpdate(alive, first, y, len[c]);
    CostUpdate(weight, alive, len, c, weight[c], len[y]);
    CostUpdate(weight, alive, first, y, weight[y], len[c]);
    assert weight[c := weight[c]] == weight && weight[y := weight[y]] == weight;
    StrictRearrangement(weight[c], weight[y], len[c], len[y]);
  }

  lemma StrictRearrangement(f: nat, g: nat, x: nat, y: nat)
    requires f < g && x < y
    ensures Weighted(f, y) + Weighted(g, x) < Weighted(f, x) + Weighted(g, y)
  {
    var d, e := g - f, y - x;
    MulDistributes(f, d, x);
    MulDistributes(f, d, y);
    MulDistributes(x, e, d);
    MulCommutes(d, y);
    MulCommutes(d, x);
    MulCommutes(d, e);
    MulStrict(0, d, e);
  }

  /** In a table that needed no limiting, a symbol that occurs more often never has a longer code.
      (In one that did, that holds of symbols whose tree lengths differ.) */
  lemma FrequentIsShort(freq: seq<nat>, maxSymbol: nat, t: Table, d: Derived, v: nat, u: nat)
    requires IsCounts(freq, maxSymbol) && IsTableOf(t, freq) && IsDerived(d, t)
    requires v < 256 && u < 256 && freq[v] > freq[u] > 0
    requires forall s :: 0 <= s < |Weights(freq)| ==> TreeLengths(Weights(freq))[s] <= 16
    ensures d.ehufsi[v] <= d.ehufsi[u]
  {
    hide TreeLengths, Weights, Symbols, IsOptimal, HasLength, IsTableFor, IsCounts, IsDerived, Kraft;
    FullCounts(freq, maxSymbol);
    var symbols, sizes := Symbols(freq), TreeLengths(Weights(freq));
    ReadyToMerge(freq, maxSymbol);
    TreeLengthsAreOptimal(Weights(freq));
    OptimalIsComplete(Weights(freq), sizes);
    AllKept(t, symbols, sizes);
    SymbolWithCount(freq, v);
    SymbolWithCount(freq, u);
    var s :| 0 <= s < |symbols| - 1 && symbols[s] == v && Weights(freq)[s] == freq[v];
    var r :| 0 <= r < |symbols| - 1 && symbols[r] == u && Weights(freq)[r] == freq[u];
    HeavierIsShorter(Weights(freq), sizes, s, r);
    CodesInBounds(t, symbols, sizes);
    SizeIsLength(t, d, v, sizes[s]);
    SizeIsLength(t, d, u, sizes[r]);
  }

  lemma FullCounts(freq: seq<nat>, maxSymbol: nat)
    requires IsCounts(freq, maxSymbol)
    ensures |freq| == 257
  {
  }

  lemma CodesInBounds(t: Table, symbols: seq<nat>, sizes: seq<nat>)
    requires IsTable(t) && |symbols| == |sizes| > 0 && IsTableFor(t, symbols, sizes)
    ensures |Sizes(t.bits, 16)| <= 256
  {
  }

  lemma SizeIsLength(t: Table, d: Derived, v: nat, l: nat)
    requires IsTable(t) && IsDerived(d, t) && |Sizes(t.bits, 16)| <= 256 && HasLength(t, v, l) && v < 256
    ensures |d.ehufsi| == 256 && d.ehufsi[v] == l
  {
    hide Sizes;
  }

  // ---------- a table that has to be limited ----------

  /** The lengths of 17 symbols with the counts 1, 2, 4 and so on, and the pseudo-symbol. */
  function Chain(): (counts: seq<nat>)
    ensures |counts| == 33
  {
    seq(33, l => if l == 0 || l > 17 then 0 else if l < 17 then 1 else 2)
  }

  /** Length 15 gives up its code; the 14 shorter ones stay. */
  lemma ChainIsLimited()
    ensures TableCounts(Chain()) == seq(33, l => if l == 0 || l == 15 || l > 16 then 0 else if l == 16 then 3 else 1)
  {
    hide Limited;
    UnusedAbove(Chain(), 17, 32);
    var moved := Moved(Chain(), 17, 15);
    assert Donor(Chain(), 17) == 15;
    LimitedStep(Chain());
    UnusedAbove(moved, 16, 17);
    NothingToLimit(moved);
    assert Limited(Chain(), 32) == moved;
    assert LongestBelow(moved, 17) == 16;
  }

  lemma {:induction false} UnusedAbove(bits: seq<nat>, k: nat, i: nat)
    requires 16 <= k <= i < |bits| && forall l :: k < l <= i ==> bits[l] == 0
    ensures Limited(bits, i) == Limited(bits, k)
    decreases i
  {
    if k < i {
      UnusedAbove(bits, k, i - 1);
    }
  }

  lemma LimitedStep(bits: seq<nat>)
    requires |bits| == 33 && bits[17] >= 2 && Donor(bits, 17) > 0
    ensures Limited(bits, 17) == Limited(Moved(bits, 17, Donor(bits, 17)), 17)
  {
  }

  lemma NothingToLimit(bits: seq<nat>)
    requires |bits| > 16
    ensures Limited(bits, 16) == bits
  {
  }

  lemma SymbolWithCount(freq: seq<nat>, v: nat)
    requires |freq| == 257 && v < 256 && freq[v] > 0
    ensures |Weights(freq)| == |Symbols(freq)|
    ensures exists s :: 0 <= s < |Symbols(freq)| - 1 && Symbols(freq)[s] == v && Weights(freq)[s] == freq[v]
  {
    hide Used, UsedWeights;
    var f := freq[256 := 1];
    WeightsOfUsed(f, 257);
    UsedIsAll(f, 256, v);
    NextUsed(f, 256);
    var used := Used(f, 256);
    var s :| 0 <= s < |used| && used[s] == v;
    assert Symbols(freq) == used + [256];
    assert Symbols(freq)[s] == v;
  }
}
