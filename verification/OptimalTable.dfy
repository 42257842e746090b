/**
 * jpeg_gen_optimal_table: from symbol counts to a Huffman table (section K.2). The tree gives
 * lengths, the lengths are counted and limited, and the symbols are listed by length with the
 * pseudo-symbol 256 left out.
 */
module OptimalTable {
  import opened Powers
  import opened Sums
  import opened CodeLengths
  import opened MergeSteps
  import opened HuffTree
  import opened TreeDepth
  import opened HuffTable
  import opened LengthLimit
  import opened LimitLaws

  /** The symbols below m that occur. */
  function Used(freq: seq<nat>, m: nat): (s: seq<nat>)
    requires m <= |freq|
  {
    if m == 0 then [] else Used(freq, m - 1) + (if freq[m - 1] != 0 then [m - 1] else [])
  }

  lemma {:induction false} UsedAscends(freq: seq<nat>, m: nat)
    requires m <= |freq|
    ensures var s := Used(freq, m);
            && |s| <= m
            && (forall i :: 0 <= i < |s| ==> s[i] < m && freq[s[i]] != 0)
            && (forall i, j :: 0 <= i < j < |s| ==> s[i] < s[j])
  {
    if m > 0 {
      UsedAscends(freq, m - 1);
    }
  }

  lemma {:induction false} UsedIsAll(freq: seq<nat>, m: nat, v: nat)
    requires v < m <= |freq| && freq[v] != 0
    ensures v in Used(freq, m)
  {
    if v < m - 1 {
      UsedIsAll(freq, m - 1, v);
    }
  }

  /** Groups the counts that are not zero at the front of the array. */
  method GroupNonzero(freq: array<nat>) returns (nzIndex: array<nat>, n: nat)
    requires freq.Length == 257
    modifies freq
    ensures fresh(nzIndex) && nzIndex.Length == 257 && n <= 257
    ensures nzIndex[..n] == Used(old(freq[..]), 257) && freq[..n] == UsedWeights(old(freq[..]), 257)
  {
    hide Used, UsedWeights;
    ghost var before := freq[..];
    NextUsed(before, 0);
    nzIndex := new nat[257];
    n := 0;
    var i := 0;
    while i < 257
      invariant 0 <= i <= 257 && n <= i && |before| == 257
      invariant nzIndex[..n] == Used(before, i) && freq[..n] == UsedWeights(before, i)
      invariant freq[i..] == before[i..]
    {
      NextUsed(before, i);
      assert freq[i] == freq[i..][0] == before[i];
      ghost var used, weights, rest := nzIndex[..n], freq[..n], freq[i + 1..];
      if freq[i] != 0 {
        nzIndex[n] := i;
        freq[n] := freq[i];
        n := n + 1;
        assert nzIndex[..n] == used + [i] && freq[..n] == weights + [before[i]];
      }
      assert freq[i + 1..] == rest == before[i..][1..];
      i := i + 1;
    }
  }

  lemma NextUsed(freq: seq<nat>, m: nat)
    requires m < |freq|
    ensures Used(freq, 0) == [] && Used(freq, m + 1) == Used(freq, m) + (if freq[m] != 0 then [m] else [])
    ensures UsedWeights(freq, 0) == []
    ensures UsedWeights(freq, m + 1) == UsedWeights(freq, m) + (if freq[m] != 0 then [freq[m]] else [])
  {
  }

  // ---------- counting the lengths ----------

  /** How many of the first i symbols have length l. */
  function Seen(sizes: seq<nat>, i: nat, l: nat): nat
    requires i <= |sizes|
  {
    if i == 0 then 0 else Seen(sizes, i - 1, l) + if sizes[i - 1] == l then 1 else 0
  }

  lemma {:induction false} SeenMonotonic(sizes: seq<nat>, i: nat, j: nat, l: nat)
    requires i <= j <= |sizes|
    ensures Seen(sizes, i, l) <= Seen(sizes, j, l)
    ensures i < j && sizes[i] == l ==> Seen(sizes, i, l) < Seen(sizes, j, l)
    decreases j
  {
    if i < j {
      SeenMonotonic(sizes, i, j - 1, l);
    }
  }

  /** bits counts the lengths. */
  ghost predicate CountsOf(bits: seq<nat>, sizes: seq<nat>, i: nat)
    requires i <= |sizes|
  {
    |bits| == 33 && forall l :: 0 <= l < 33 ==> bits[l] == Seen(sizes, i, l)
  }

  lemma CountOne(bits: seq<nat>, sizes: seq<nat>, i: nat)
    requires i < |sizes| && sizes[i] <= 32 && CountsOf(bits, sizes, i)
    ensures var bits' := bits[sizes[i] := bits[sizes[i]] + 1];
            && CountsOf(bits', sizes, i + 1)
            && Codes(bits', 33) == Codes(bits, 33) + 1
            && Fill(bits', 33) == Fill(bits, 33) + Pow2(32 - sizes[i])
  {
    hide Fill, Codes;
    FillUpdate(bits, sizes[i], bits[sizes[i]] + 1, 33);
    CodesUpdate(bits, sizes[i], bits[sizes[i]] + 1, 33);
  }

  /** Counts the lengths; fails on one above 32. */
  method CountLengths(codesize: array<nat>, n: nat) returns (ok: bool, bits: array<nat>)
    requires n <= codesize.Length && n < 256
    ensures fresh(bits) && bits.Length == 33
    ensures ok <==> forall s :: 0 <= s < n ==> codesize[s] <= 32
    ensures ok ==> CountsOf(bits[..], codesize[..n], n)
    ensures ok ==> Codes(bits[..], 33) == n && Fill(bits[..], 33) == Units(All(n), codesize[..n], 32)
  {
    hide Fill, Codes, Pow2;
    bits := new nat[33](_ => 0);
    ghost var sizes := codesize[..n];
    NothingCounted(bits[..]);
    var i := 0;
    while i < n
      invariant 0 <= i <= n && codesize[..n] == sizes
      invariant forall s :: 0 <= s < i ==> codesize[s] <= 32
      invariant CountsOf(bits[..], sizes, i)
      invariant Codes(bits[..], 33) == i && Fill(bits[..], 33) == Units(All(n)[..i], sizes[..i], 32)
    {
      if codesize[i] > 32 {
        return false, bits;
      }
      ghost var before := bits[..];
      CountOne(before, sizes, i);
      BytesFit(before[sizes[i] := before[sizes[i]] + 1], 32);
      bits[codesize[i]] := Byte(bits[codesize[i]] + 1);
      assert bits[..] == before[sizes[i] := before[sizes[i]] + 1];
      OneMoreTerm(All(n), sizes, i);
      i := i + 1;
    }
    assert All(n)[..n] == All(n) && sizes[..n] == sizes;
    ok := true;
  }

  lemma NothingCounted(bits: seq<nat>)
    requires |bits| == 33 && forall l :: 0 <= l < 33 ==> bits[l] == 0
    ensures Fill(bits, 33) == 0 && Codes(bits, 33) == 0
  {
    NothingFilled(bits, 33);
    NoCodes(bits, 33);
  }

  lemma {:induction false} NoCodes(bits: seq<nat>, m: nat)
    requires m <= |bits| && forall l :: 0 <= l < m ==> bits[l] == 0
    ensures Codes(bits, m) == 0
  {
    if m > 0 {
      NoCodes(bits, m - 1);
    }
  }

  lemma OneMoreTerm(alive: seq<bool>, sizes: seq<nat>, i: nat)
    requires |alive| == |sizes| && i < |sizes| && alive[i] && sizes[i] <= 32
    ensures Units(alive[..i + 1], sizes[..i + 1], 32) == Units(alive[..i], sizes[..i], 32) + Pow2(32 - sizes[i])
  {
    assert alive[..i + 1][..i] == alive[..i] && sizes[..i + 1][..i] == sizes[..i];
  }

  /** A complete code fills the code space, counted in units of 2^-32. */
  lemma CompleteCodeFills(n: nat, sizes: seq<nat>)
    requires |sizes| == n && Kraft(All(n), sizes) == 1.0 && forall s :: 0 <= s < n ==> sizes[s] <= 32
    ensures Units(All(n), sizes, 32) == Pow2(32)
  {
    hide Kraft, Units, Scaled;
    KraftInUnits(All(n), sizes, 32);
    HalfOfUnit(0, 32);
    ScaledMonotonic(Units(All(n), sizes, 32), Pow2(32), Half(32));
    ScaledMonotonic(Pow2(32), Units(All(n), sizes, 32), Half(32));
  }

  // ---------- listing the symbols ----------

  /** Where symbol number i goes: behind the shorter codes and the earlier ones of its length. */
  function Slot(bits: seq<nat>, sizes: seq<nat>, i: nat): nat
    requires i < |sizes| && sizes[i] < |bits|
  {
    Codes(bits, sizes[i]) + Seen(sizes, i, sizes[i])
  }

  lemma {:induction false} CodesMonotonic(bits: seq<nat>, l: nat, m: nat)
    requires l <= m <= |bits|
    ensures Codes(bits, l) <= Codes(bits, m)
    decreases m
  {
    if l < m {
      CodesMonotonic(bits, l, m - 1);
    }
  }

  lemma SlotInClass(bits: seq<nat>, sizes: seq<nat>, i: nat)
    requires CountsOf(bits, sizes, |sizes|) && i < |sizes| && sizes[i] < 33
    ensures Codes(bits, sizes[i]) <= Slot(bits, sizes, i) < Codes(bits, sizes[i] + 1) <= Codes(bits, 33)
  {
    SeenMonotonic(sizes, i, |sizes|, sizes[i]);
    CodesMonotonic(bits, sizes[i] + 1, 33);
  }

  lemma SlotsDiffer(bits: seq<nat>, sizes: seq<nat>, i: nat, j: nat)
    requires CountsOf(bits, sizes, |sizes|) && i < j < |sizes| && sizes[i] < 33 && sizes[j] < 33
    ensures Slot(bits, sizes, i) != Slot(bits, sizes, j)
  {
    SlotInClass(bits, sizes, i);
    SlotInClass(bits, sizes, j);
    if sizes[i] == sizes[j] {
      SeenMonotonic(sizes, i, j, sizes[i]);
    } else if sizes[i] < sizes[j] {
      CodesMonotonic(bits, sizes[i] + 1, sizes[j]);
    } else {
      CodesMonotonic(bits, sizes[j] + 1, sizes[i]);
    }
  }

  /** The last symbol, if its length is the greatest, gets the last slot. */
  lemma LastSlot(bits: seq<nat>, sizes: seq<nat>)
    requires |sizes| > 0 && CountsOf(bits, sizes, |sizes|) && Codes(bits, 33) == |sizes|
    requires forall i :: 0 <= i < |sizes| ==> sizes[i] <= sizes[|sizes| - 1] < 33
    ensures Slot(bits, sizes, |sizes| - 1) == |sizes| - 1
  {
    var l := sizes[|sizes| - 1];
    NothingLonger(bits, sizes, l, 33);
  }

  lemma {:induction false} NothingLonger(bits: seq<nat>, sizes: seq<nat>, l: nat, m: nat)
    requires CountsOf(bits, sizes, |sizes|) && l < m <= 33
    requires forall i :: 0 <= i < |sizes| ==> sizes[i] <= l
    ensures Codes(bits, m) == Codes(bits, l + 1)
    decreases m
  {
    if l + 1 < m {
      NothingLonger(bits, sizes, l, m - 1);
      NoneSeen(sizes, |sizes|, m - 1);
    }
  }

  lemma {:induction false} NoneSeen(sizes: seq<nat>, i: nat, l: nat)
    requires i <= |sizes| && forall k :: 0 <= k < i ==> sizes[k] != l
    ensures Seen(sizes, i, l) == 0
  {
    if i > 0 {
      NoneSeen(sizes, i - 1, l);
    }
  }

  lemma {:induction false} FindSeen(sizes: seq<nat>, i: nat, l: nat, k: nat) returns (s: nat)
    requires i <= |sizes| && k < Seen(sizes, i, l)
    ensures s < i && sizes[s] == l && Seen(sizes, s, l) == k
    decreases i
  {
    if k < Seen(sizes, i - 1, l) {
      s := FindSeen(sizes, i - 1, l, k);
    } else {
      s := i - 1;
    }
  }

  /** Every slot is taken by some symbol: the list has no hole. */
  lemma {:induction false} SlotIsTaken(bits: seq<nat>, sizes: seq<nat>, p: nat, m: nat) returns (s: nat)
    requires CountsOf(bits, sizes, |sizes|) && m <= 33 && p < Codes(bits, m)
    ensures s < |sizes| && sizes[s] < m && Slot(bits, sizes, s) == p
    decreases m
  {
    if p < Codes(bits, m - 1) {
      s := SlotIsTaken(bits, sizes, p, m - 1);
    } else {
      s := FindSeen(sizes, |sizes|, m - 1, p - Codes(bits, m - 1));
    }
  }

  /** bit_pos: the number of codes shorter than each length. */
  method Positions(bits: array<nat>) returns (bitPos: array<nat>)
    requires bits.Length == 33
    ensures fresh(bitPos) && bitPos.Length == 33
    ensures forall l :: 1 <= l < 33 ==> bitPos[l] + bits[0] == Codes(bits[..], l)
  {
    bitPos := new nat[33];
    var p := 0;
    var i := 1;
    assert Codes(bits[..], 1) == bits[0];
    while i <= 32
      invariant 1 <= i <= 33 && p + bits[0] == Codes(bits[..], i)
      invariant forall l :: 1 <= l < i ==> bitPos[l] + bits[0] == Codes(bits[..], l)
    {
      bitPos[i] := p;
      p := p + bits[i];
      i := i + 1;
    }
  }

  /** Every symbol but the last goes to its slot. */
  method ListSymbols(nzIndex: array<nat>, codesize: array<nat>, n: nat, bitPos: array<nat>, huffval: array<nat>,
                     ghost bits: seq<nat>)
    requires 0 < n < 256 && n <= nzIndex.Length && n <= codesize.Length && bitPos.Length == 33 && huffval.Length == 256
    requires bitPos != nzIndex && bitPos != codesize && huffval != nzIndex && huffval != codesize && huffval != bitPos
    requires CountsOf(bits, codesize[..n], n) && Codes(bits, 33) == n
    requires forall s :: 0 <= s < n - 1 ==> 1 <= codesize[s] <= 32
    requires n > 1 ==> forall l :: 1 <= l < 33 ==> bitPos[l] == Codes(bits, l)
    modifies bitPos, huffval
    ensures forall s :: 0 <= s < n - 1 ==>
              Slot(bits, codesize[..n], s) < 256 && huffval[Slot(bits, codesize[..n], s)] == Byte(nzIndex[s])
  {
    hide Codes;
    ghost var sizes := codesize[..n];
    var i := 0;
    while i < n - 1
      invariant 0 <= i <= n - 1
      invariant codesize[..n] == sizes && nzIndex[..n] == old(nzIndex[..n])
      invariant n > 1 ==> forall l :: 1 <= l < 33 ==> bitPos[l] == Codes(bits, l) + Seen(sizes, i, l)
      invariant forall s :: 0 <= s < i ==>
                  Slot(bits, sizes, s) < 256 && huffval[Slot(bits, sizes, s)] == Byte(nzIndex[s])
    {
      SlotInClass(bits, sizes, i);
      forall s | 0 <= s < i
        ensures Slot(bits, sizes, s) != Slot(bits, sizes, i)
      {
        SlotsDiffer(bits, sizes, s, i);
      }
      var l := codesize[i];
      assert l == sizes[i];
      huffval[bitPos[l]] := Byte(nzIndex[i]);
      bitPos[l] := bitPos[l] + 1;
      i := i + 1;
    }
  }

  // ---------- the table ----------

  /** Symbol counts that jpeg_gen_optimal_table can take: together with the pseudo-symbol they
      stay below its two sentinel values, and fit the byte counters. */
  ghost predicate IsCounts(freq: seq<nat>, maxSymbol: nat) {
    && |freq| == 257 && maxSymbol < 256
    && (forall v :: maxSymbol < v < 256 ==> freq[v] == 0)
    && |Used(freq[256 := 1], 257)| < 256
    && Sum(Reals(freq[256 := 1])) <= LIMIT as real
  }

  /** Used symbols, the pseudo-symbol last. */
  function Symbols(freq: seq<nat>): seq<nat>
    requires |freq| == 257
  {
    Used(freq[256 := 1], 257)
  }

  function UsedWeights(freq: seq<nat>, m: nat): (w: seq<nat>)
    requires m <= |freq|
  {
    if m == 0 then [] else UsedWeights(freq, m - 1) + (if freq[m - 1] != 0 then [freq[m - 1]] else [])
  }

  /** Their counts. */
  function Weights(freq: seq<nat>): (w: seq<nat>)
    requires |freq| == 257
  {
    UsedWeights(freq[256 := 1], 257)
  }

  lemma {:induction false} WeightsOfUsed(freq: seq<nat>, m: nat)
    requires m <= |freq|
    ensures |UsedWeights(freq, m)| == |Used(freq, m)|
    ensures forall i :: 0 <= i < |Used(freq, m)| ==>
              Used(freq, m)[i] < |freq| && UsedWeights(freq, m)[i] == freq[Used(freq, m)[i]] > 0
  {
    if m > 0 {
      WeightsOfUsed(freq, m - 1);
    }
  }

  lemma {:induction false} UsedSum(freq: seq<nat>, m: nat)
    requires m <= |freq|
    ensures Sum(Reals(UsedWeights(freq, m))) == Sum(Reals(freq[..m]))
  {
    if m > 0 {
      UsedSum(freq, m - 1);
      assert Reals(freq[..m])[..m - 1] == Reals(freq[..m - 1]);
      var w, v := UsedWeights(freq, m), UsedWeights(freq, m - 1);
      assert Sum(Reals(freq[..m])) == Sum(Reals(freq[..m - 1])) + freq[m - 1] as real;
      if freq[m - 1] != 0 {
        assert Reals(w)[..|v|] == Reals(v) && |w| == |v| + 1;
      } else {
        assert w == v;
      }
    } else {
      assert Reals(UsedWeights(freq, m)) == [] && Reals(freq[..m]) == [];
    }
  }

  lemma SymbolsOfCounts(freq: seq<nat>, maxSymbol: nat)
    requires IsCounts(freq, maxSymbol)
    ensures var s, w := Symbols(freq), Weights(freq);
            && |w| == |s|
            && 0 < |s| < 256 && s[|s| - 1] == 256 && w[|s| - 1] == 1
            && (forall i :: 0 <= i < |s| - 1 ==> s[i] <= maxSymbol && freq[s[i]] != 0)
            && (forall i, j :: 0 <= i < j < |s| ==> s[i] < s[j])
            && (forall i :: 0 <= i < |s| ==> 1 <= w[i])
            && (forall v :: 0 <= v < 256 && freq[v] != 0 ==> v in s[..|s| - 1])
  {
    var f := freq[256 := 1];
    UsedAscends(f, 257);
    var s := Symbols(freq);
    assert s == Used(f, 256) + [256];
    UsedAscends(f, 256);
    assert s[..|s| - 1] == Used(f, 256);
    WeightsOfUsed(f, 257);
    forall v | 0 <= v < 256 && freq[v] != 0
      ensures v in s[..|s| - 1]
    {
      UsedIsAll(f, 256, v);
    }
  }

  lemma WeightsFit(freq: seq<nat>, maxSymbol: nat)
    requires IsCounts(freq, maxSymbol)
    ensures Sum(Reals(Weights(freq))) <= LIMIT as real
    ensures forall i :: 0 <= i < |Weights(freq)| ==> Weights(freq)[i] <= LIMIT
  {
    var f, w := freq[256 := 1], Weights(freq);
    assert f[..257] == f;
    UsedSum(f, 257);
    forall i | 0 <= i < |w|
      ensures w[i] <= LIMIT
    {
      SumUpdate(Reals(w), i, 0.0);
      SumNonnegative(Reals(w)[i := 0.0]);
    }
  }

  /** Two or more symbols: none has the empty code. */
  lemma NoEmptyCode(sizes: seq<nat>, s: nat)
    requires s < |sizes| && |sizes| > 1 && Kraft(All(|sizes|), sizes) == 1.0
    ensures sizes[s] >= 1
  {
    var t := if s == 0 then 1 else 0;
    TwoTerms(KraftTerms(All(|sizes|), sizes), s, t);
  }

  /** How many symbols have each length. */
  function LengthCounts(sizes: seq<nat>): (counts: seq<nat>)
    ensures CountsOf(counts, sizes, |sizes|)
  {
    seq(33, l requires 0 <= l < 33 => Seen(sizes, |sizes|, l))
  }

  /** The counts that go into the table: limited to 16, and one less of the greatest length in use,
      which was the pseudo-symbol's. */
  function TableCounts(counts: seq<nat>): (bits: seq<nat>)
    requires |counts| == 33
    ensures |bits| == 33
  {
    var limited := Limited(counts, 32);
    var last := LongestBelow(limited, 17);
    if limited[last] == 0 then limited else limited[last := limited[last] - 1]
  }

  /** Of two symbols the one with the smaller tree length comes first, of two with the same length
      the smaller symbol. */
  ghost predicate Precedes(symbols: seq<nat>, sizes: seq<nat>, v: nat, w: nat)
    requires |symbols| == |sizes|
  {
    forall s, r :: 0 <= s < |symbols| && 0 <= r < |symbols| && symbols[s] == v && symbols[r] == w ==>
      sizes[s] < sizes[r] || (sizes[s] == sizes[r] && s < r)
  }

  /** The lengths limited and the pseudo-symbol dropped: one code for each real symbol, given out in
      the order of the tree lengths and then of the symbols. */
  ghost predicate IsTableFor(t: Table, symbols: seq<nat>, sizes: seq<nat>)
    requires IsTable(t) && |symbols| == |sizes| > 0
  {
    var codes, n := Sizes(t.bits, 16), |symbols| - 1;
    && |codes| == n <= 256 && IsCode(codes)
    && t.bits == TableCounts(LengthCounts(sizes))[..17]
    && (forall v :: v in t.huffval[..n] <==> v in symbols[..n])
    && Distinct(t.huffval, n)
    && (forall p, q :: 0 <= p < q < n ==> Precedes(symbols, sizes, t.huffval[p], t.huffval[q]))
    && (forall s :: 0 <= s < n && sizes[s] <= 16 && HasRoom(LengthCounts(sizes), sizes[s], |sizes|) ==>
          HasLength(t, symbols[s], sizes[s]))
  }

  ghost predicate HasLength(t: Table, v: nat, l: nat)
    requires IsTable(t) && |Sizes(t.bits, 16)| <= 256
  {
    exists p :: 0 <= p < |Sizes(t.bits, 16)| && t.huffval[p] == v && Sizes(t.bits, 16)[p] == l
  }

  /** Counting, limiting and listing: what the optimal lengths become. */
  method MakeTable(codesize: array<nat>, nzIndex: array<nat>, n: nat, htbl: Table, ghost symbols: seq<nat>)
    returns (r: Option<Table>)
    requires 0 < n < 256 && codesize.Length == 257 && nzIndex.Length == 257 && IsTable(htbl)
    requires Kraft(All(n), codesize[..n]) == 1.0
    requires forall s :: 0 <= s < n ==> codesize[s] <= codesize[n - 1]
    requires |symbols| == n && nzIndex[..n] == symbols
    requires forall i, j :: 0 <= i < j < n ==> symbols[i] < symbols[j]
    requires forall i :: 0 <= i < n - 1 ==> symbols[i] < 256
    ensures r.Some? <==> forall s :: 0 <= s < n ==> codesize[s] <= 32
    ensures r.Some? ==> IsTable(r.value) && IsTableFor(r.value, symbols, codesize[..n])
  {
    hide Kraft, Fill, Codes, IsTableFor, Seen, Slot, WasLimited;
    ghost var sizes := codesize[..n];
    var ok, bits, bitPos, counts, limited, last := MakeCounts(codesize, n);
    if !ok {
      return None;
    }
    var huffval := new nat[256](k requires 0 <= k < 256 => htbl.huffval[k]);
    ListSymbols(nzIndex, codesize, n, bitPos, huffval, counts);
    var t := Table(bits[..17], huffval[..]);
    forall s | 0 <= s < n - 1
      ensures Slot(counts, sizes, s) < 256 && t.huffval[Slot(counts, sizes, s)] == symbols[s]
    {
      assert symbols[s] == nzIndex[..n][s] < 256;
      assert Slot(counts, codesize[..n], s) < 256 && huffval[Slot(counts, codesize[..n], s)] == Byte(nzIndex[s]);
    }
    TableIsMade(t, symbols, sizes, counts, limited, bits[..], last);
    r := Some(t);
  }

  /** How the counts become those of the table. */
  ghost predicate WasLimited(counts: seq<nat>, limited: seq<nat>, last: nat, bits: seq<nat>, n: nat) {
    && |counts| == |limited| == 33
    && Codes(counts, 33) == n && Codes(limited, 17) == n && limited[0] == counts[0]
    && limited == Limited(counts, 32) && IsComplete(counts, 32, n)
    && last <= 16 && limited[last] > 0 && (forall l :: last < l <= 16 ==> limited[l] == 0)
    && bits == limited[last := limited[last] - 1]
    && Fill(bits, 17) < Pow2(16) && Codes(bits, 17) == n - 1
  }

  method MakeCounts(codesize: array<nat>, n: nat)
    returns (ok: bool, bits: array<nat>, bitPos: array<nat>, ghost counts: seq<nat>, ghost limited: seq<nat>,
             ghost last: nat)
    requires 0 < n < 256 && codesize.Length == 257
    requires Kraft(All(n), codesize[..n]) == 1.0
    ensures ok <==> forall s :: 0 <= s < n ==> codesize[s] <= 32
    ensures ok ==> fresh(bits) && fresh(bitPos) && bits.Length == bitPos.Length == 33 && bits != bitPos
    ensures ok ==>
              && CountsOf(counts, codesize[..n], n) && Codes(counts, 33) == n
              && WasLimited(counts, limited, last, bits[..], n)
    ensures ok && n > 1 ==> counts[0] == 0 && forall s :: 0 <= s < n ==> codesize[s] >= 1
    ensures ok && n > 1 ==> forall l :: 1 <= l < 33 ==> bitPos[l] == Codes(counts, l)
  {
    hide Kraft, Units, Fill, Codes, Seen, Pow2, Limited;
    counts, limited, last := [], [], 0;
    ok, bits := CountLengths(codesize, n);
    bitPos := bits;
    if ok {
      counts := bits[..];
      CompleteCodeFills(n, codesize[..n]);
      ShortestLength(counts, codesize[..n]);
      bitPos := Positions(bits);
      LimitLengths(bits);
      limited := bits[..];
      last := DropLongest(bits);
    }
  }

  lemma TableIsMade(t: Table, symbols: seq<nat>, sizes: seq<nat>, counts: seq<nat>, limited: seq<nat>, bits: seq<nat>,
                    last: nat)
    requires IsTable(t) && |symbols| == |sizes| > 0 && |symbols| < 256
    requires forall i, j :: 0 <= i < j < |symbols| ==> symbols[i] < symbols[j]
    requires CountsOf(counts, sizes, |sizes|) && WasLimited(counts, limited, last, bits, |sizes|)
    requires forall s :: 0 <= s < |sizes| ==> sizes[s] <= sizes[|sizes| - 1] <= 32
    requires |sizes| > 1 ==> counts[0] == 0
    requires t.bits == bits[..17]
    requires forall s :: 0 <= s < |sizes| - 1 ==>
               Slot(counts, sizes, s) < 256 && t.huffval[Slot(counts, sizes, s)] == symbols[s]
    ensures IsTableFor(t, symbols, sizes)
  {
    hide Seen, Slot, Left, Sizes, Limited, Precedes, HasRoom;
    var n := |symbols| - 1;
    assert bits[0] == 0 by { EachIsCounted(bits, 0, 17); }
    FillSame(bits, t.bits, 17);
    hide Fill, Codes;
    TableCodes(t.bits, n);
    SymbolsListed(t.huffval, symbols, sizes, counts);
    assert LengthCounts(sizes) == counts;
    LastInUse(limited, last);
    forall s | 0 <= s < n && sizes[s] <= 16 && HasRoom(counts, sizes[s], |sizes|)
      ensures HasLength(t, symbols[s], sizes[s])
    {
      LengthKept(bits, sizes, counts, limited, last, s);
      assert t.huffval[Slot(counts, sizes, s)] == symbols[s];
    }
    forall p, q | 0 <= p < q < n
      ensures Precedes(symbols, sizes, t.huffval[p], t.huffval[q])
    {
      ListedInOrder(t.huffval, symbols, sizes, counts, p, q);
    }
    assert |Sizes(t.bits, 16)| == n <= 256 && IsCode(Sizes(t.bits, 16));
    assert forall v :: v in t.huffval[..n] <==> v in symbols[..n];
    assert Distinct(t.huffval, n);
  }

  lemma LastInUse(bits: seq<nat>, last: nat)
    requires |bits| >= 17 && last <= 16 && bits[last] > 0 && forall l :: last < l <= 16 ==> bits[l] == 0
    ensures LongestBelow(bits, 17) == last
  {
    hide LongestBelow;
  }

  /** Slots are in the order of the lengths and then of the symbols. */
  lemma SlotOrder(bits: seq<nat>, sizes: seq<nat>, s: nat, r: nat)
    requires CountsOf(bits, sizes, |sizes|) && s < |sizes| && r < |sizes| && sizes[s] < 33 && sizes[r] < 33
    requires Slot(bits, sizes, s) < Slot(bits, sizes, r)
    ensures sizes[s] < sizes[r] || (sizes[s] == sizes[r] && s < r)
  {
    hide Codes, Seen;
    SlotInClass(bits, sizes, s);
    SlotInClass(bits, sizes, r);
    if sizes[r] < sizes[s] {
      CodesMonotonic(bits, sizes[r] + 1, sizes[s]);
    } else if sizes[r] == sizes[s] && r <= s {
      SeenMonotonic(sizes, r, s, sizes[s]);
    }
  }

  lemma ListedInOrder(huffval: seq<nat>, symbols: seq<nat>, sizes: seq<nat>, counts: seq<nat>, p: nat, q: nat)
    requires |symbols| == |sizes| > 0 && |symbols| <= |huffval| && p < q < |symbols| - 1
    requires forall i, j :: 0 <= i < j < |symbols| ==> symbols[i] < symbols[j]
    requires CountsOf(counts, sizes, |sizes|) && Codes(counts, 33) == |sizes|
    requires forall s :: 0 <= s < |sizes| ==> sizes[s] <= sizes[|sizes| - 1] <= 32
    requires forall s :: 0 <= s < |sizes| - 1 ==>
               Slot(counts, sizes, s) < |huffval| && huffval[Slot(counts, sizes, s)] == symbols[s]
    ensures Precedes(symbols, sizes, huffval[p], huffval[q])
  {
    hide Seen, Slot, Codes;
    var s := SlotOfPlace(sizes, counts, p);
    var r := SlotOfPlace(sizes, counts, q);
    SlotOrder(counts, sizes, s, r);
    assert huffval[p] == symbols[s] && huffval[q] == symbols[r];
    forall a, b | 0 <= a < |symbols| && 0 <= b < |symbols| && symbols[a] == huffval[p] && symbols[b] == huffval[q]
      ensures a == s && b == r
    {
    }
  }

  lemma NotShifted(x: nat)
    ensures ShiftLeft(x, 0) == x
  {
  }

  lemma TableCodes(bits: seq<nat>, n: nat)
    requires |bits| == 17 && bits[0] == 0 && Codes(bits, 17) == n && Fill(bits, 17) < Pow2(16)
    ensures |Sizes(bits, 16)| == n && IsCode(Sizes(bits, 16))
  {
    hide Fill, Codes, Sizes, Left;
    SizesAscend(bits, 16);
    SizesFill(bits, 16);
    NotShifted(Fill(bits, 17));
  }

  /** All real symbols, each once, without a hole. */
  lemma SymbolsListed(huffval: seq<nat>, symbols: seq<nat>, sizes: seq<nat>, counts: seq<nat>)
    requires |symbols| == |sizes| > 0 && |symbols| <= |huffval|
    requires forall i, j :: 0 <= i < j < |symbols| ==> symbols[i] < symbols[j]
    requires CountsOf(counts, sizes, |sizes|) && Codes(counts, 33) == |sizes|
    requires forall s :: 0 <= s < |sizes| ==> sizes[s] <= sizes[|sizes| - 1] <= 32
    requires forall s :: 0 <= s < |sizes| - 1 ==>
               Slot(counts, sizes, s) < |huffval| && huffval[Slot(counts, sizes, s)] == symbols[s]
    ensures var n := |symbols| - 1;
            Distinct(huffval, n) && forall v :: v in huffval[..n] <==> v in symbols[..n]
  {
    hide Seen, Slot, Codes;
    var n := |symbols| - 1;
    forall p | 0 <= p < n
      ensures huffval[p] in symbols[..n]
    {
      var s := SlotOfPlace(sizes, counts, p);
      assert huffval[p] == symbols[..n][s];
    }
    forall p, q | 0 <= p < q < n
      ensures huffval[p] != huffval[q]
    {
      var s := SlotOfPlace(sizes, counts, p);
      var r := SlotOfPlace(sizes, counts, q);
      assert s < r || r < s;
    }
    forall s | 0 <= s < n
      ensures symbols[s] in huffval[..n]
    {
      LastSlot(counts, sizes);
      SlotInClass(counts, sizes, s);
      SlotsDiffer(counts, sizes, s, n);
      assert symbols[s] == huffval[..n][Slot(counts, sizes, s)];
    }
  }

  lemma SlotOfPlace(sizes: seq<nat>, counts: seq<nat>, p: nat) returns (s: nat)
    requires CountsOf(counts, sizes, |sizes|) && Codes(counts, 33) == |sizes| && p < |sizes| - 1
    requires forall s :: 0 <= s < |sizes| ==> sizes[s] <= sizes[|sizes| - 1] <= 32
    ensures s < |sizes| - 1 && Slot(counts, sizes, s) == p
  {
    hide Seen, Slot, Codes;
    s := SlotIsTaken(counts, sizes, p, 33);
    LastSlot(counts, sizes);
  }

  /** While there is room behind its length, a symbol keeps the length the tree gave it. */
  lemma LengthKept(bits: seq<nat>, sizes: seq<nat>, counts: seq<nat>, limited: seq<nat>, last: nat, s: nat)
    requires s < |sizes| - 1 && CountsOf(counts, sizes, |sizes|)
    requires sizes[s] <= 16 && forall s :: 0 <= s < |sizes| ==> sizes[s] <= sizes[|sizes| - 1] <= 32
    requires HasRoom(counts, sizes[s], |sizes|)
    requires WasLimited(counts, limited, last, bits, |sizes|) && bits[0] == 0 && counts[0] == 0
    ensures var p := Slot(counts, sizes, s);
            p < |sizes| - 1 == |Sizes(bits[..17], 16)| && Sizes(bits[..17], 16)[p] == sizes[s]
  {
    hide Fill, Seen, Left, Sizes, Limited, HasRoom;
    var n, p, l := |sizes| - 1, Slot(counts, sizes, s), sizes[s];
    LastSlot(counts, sizes);
    SlotInClass(counts, sizes, s);
    SlotsDiffer(counts, sizes, s, n);
    KeptIfPossible(counts, l, |sizes|);
    CodesSame(counts, limited, l);
    LengthInUse(counts, sizes, s);
    hide Slot, Codes;
    OneLessInLast(limited, last, l);
    TableSizes(bits, l - 1);
    TableSizes(bits, l);
    TableSizes(bits, 16);
    PlacesOfLength(bits[..17], l, p);
  }

  lemma TableSizes(bits: seq<nat>, l: nat)
    requires |bits| >= 17 && l <= 16 && bits[0] == 0
    ensures |Sizes(bits[..17], l)| == Codes(bits, l + 1)
  {
    SizesFill(bits[..17], l);
    FillSame(bits, bits[..17], l + 1);
  }

  lemma OneLessInLast(counts: seq<nat>, last: nat, l: nat)
    requires |counts| == 33 && l <= 16 && counts[l] > 0 && last <= 16 && counts[last] > 0
    requires forall m :: last < m <= 16 ==> counts[m] == 0
    ensures var bits := counts[last := counts[last] - 1];
            && Codes(bits, l) == Codes(counts, l)
            && Codes(bits, l + 1) == if l < last then Codes(counts, l + 1) else Codes(counts, 17) - 1
  {
    CodesUpdate(counts, last, counts[last] - 1, l);
    CodesUpdate(counts, last, counts[last] - 1, l + 1);
    NoCodesBeyond(counts, last, 17);
  }

  lemma CodesSame(counts: seq<nat>, limited: seq<nat>, l: nat)
    requires SameUpTo(limited, counts, l)
    ensures Codes(limited, l) == Codes(counts, l) && Codes(limited, l + 1) == Codes(counts, l + 1)
    ensures limited[l] == counts[l]
  {
    FillSame(limited, counts, l);
    FillSame(limited, counts, l + 1);
  }

  lemma LengthInUse(counts: seq<nat>, sizes: seq<nat>, s: nat)
    requires s < |sizes| && CountsOf(counts, sizes, |sizes|) && sizes[s] < 33
    ensures counts[sizes[s]] > 0
  {
    SeenMonotonic(sizes, s, |sizes|, sizes[s]);
  }

  lemma {:induction false} NoCodesBeyond(counts: seq<nat>, last: nat, m: nat)
    requires last < m <= |counts| && forall k :: last < k < m ==> counts[k] == 0
    ensures Codes(counts, m) == Codes(counts, last + 1)
  {
    if last + 1 < m {
      NoCodesBeyond(counts, last, m - 1);
    }
  }

  lemma ShortestLength(bits: seq<nat>, sizes: seq<nat>)
    requires |sizes| > 0 && CountsOf(bits, sizes, |sizes|) && Kraft(All(|sizes|), sizes) == 1.0
    ensures |sizes| > 1 ==> bits[0] == 0 && forall s :: 0 <= s < |sizes| ==> sizes[s] >= 1
  {
    if |sizes| > 1 {
      forall s | 0 <= s < |sizes|
        ensures sizes[s] >= 1
      {
        NoEmptyCode(sizes, s);
      }
      NoneSeen(sizes, |sizes|, 0);
    }
  }

  /** The counts have a table: Huffman's procedure gives none of them a length above 32. */
  predicate HasTable(freq: seq<nat>)
    requires |freq| == 257
  {
    forall s :: 0 <= s < |Weights(freq)| ==> TreeLengths(Weights(freq))[s] <= 32
  }

  /** What the table of these counts is. */
  ghost predicate IsTableOf(t: Table, freq: seq<nat>)
    requires |freq| == 257
  {
    var symbols, sizes := Symbols(freq), TreeLengths(Weights(freq));
    IsTable(t) && |symbols| == |sizes| > 0 && IsTableFor(t, symbols, sizes)
  }

  /**
   * The table for the counts, exactly if they have one. The lengths it starts from are those of
   * Huffman's procedure, hence optimal, and what it ends with is accepted by
   * jpeg_make_c_derived_tbl.
   */
  method GenOptimalTable(freq: array<nat>, htbl: Table, ghost maxSymbol: nat) returns (r: Option<Table>)
    requires freq.Length == 257 && IsCounts(freq[..], maxSymbol) && IsTable(htbl)
    modifies freq
    ensures IsOptimal(Weights(old(freq[..])), TreeLengths(Weights(old(freq[..]))))
    ensures r.Some? <==> HasTable(old(freq[..]))
    ensures r.Some? ==> IsTableOf(r.value, old(freq[..])) && Acceptable(r.value, maxSymbol)
  {
    hide IsOptimal, Sum, IsTableFor, Acceptable, Symbols, Weights, IsCounts, TreeLengths;
    ghost var counts := freq[..];
    ReadyToMerge(counts, maxSymbol);
    var nzIndex, n := ReserveAndGroup(freq);
    var codesize := BuildLengths(freq, n);
    OptimalIsComplete(Weights(counts), codesize[..n]);
    r := MakeTable(codesize, nzIndex, n, htbl, Symbols(counts));
    if r.Some? {
      TableIsAcceptable(r.value, counts, maxSymbol);
    }
  }

  lemma OptimalIsComplete(w: seq<nat>, sizes: seq<nat>)
    requires IsOptimal(w, sizes)
    ensures |sizes| == |w| > 0 && Kraft(All(|w|), sizes) == 1.0
    ensures forall s :: 0 <= s < |sizes| ==> sizes[s] <= sizes[|sizes| - 1]
  {
  }

  /** Counts with a total of at most SAFE_TOTAL, the pseudo-symbol's 1 included, have a table. */
  lemma SafeCountsHaveTable(freq: seq<nat>)
    requires |freq| == 257 && Sum(Reals(freq[256 := 1])) <= SAFE_TOTAL as real
    ensures HasTable(freq)
  {
    hide TreeLengths, Sum;
    var f, w := freq[256 := 1], Weights(freq);
    assert f[..257] == f;
    UsedSum(f, 257);
    WeightsOfUsed(f, 257);
    forall s | 0 <= s < |w|
      ensures TreeLengths(w)[s] <= 32
    {
      SafeTotalIsSafe(w, s);
    }
  }

  /** Whatever the counts, up to 32 symbols have a table. */
  lemma FewSymbolsHaveTable(freq: seq<nat>)
    requires |freq| == 257 && |Symbols(freq)| <= 33
    ensures HasTable(freq)
  {
    hide AfterMerges;
    var w := Weights(freq);
    WeightsOfUsed(freq[256 := 1], 257);
    forall s | 0 <= s < |w|
      ensures TreeLengths(w)[s] <= 32
    {
      OneBitPerMerge(w, |w| - 1, s);
    }
  }

  /** The counts of 33 symbols, Fibonacci numbers downwards. */
  function DeepCounts(): (freq: seq<nat>)
    ensures |freq| == 257
  {
    seq(257, v => if v < 33 then Fib(33 - v) else 0)
  }

  /** The bound is sharp: with a total of SAFE_TOTAL + 1 there are counts without a table. */
  lemma DeepCountsHaveNoTable()
    ensures IsCounts(DeepCounts(), 255)
    ensures Sum(Reals(DeepCounts()[256 := 1])) == (SAFE_TOTAL + 1) as real
    ensures !HasTable(DeepCounts())
  {
    hide Fib, Sum, TreeLengths, FibWeights;
    var f := DeepCounts()[256 := 1];
    DeepWeights();
    FibWeightsTotal(34);
    SafeTotalIsFib();
    FibWeightsAreDeep(34);
    assert f[..257] == f;
    UsedSum(f, 257);
    WeightsOfUsed(f, 257);
  }

  lemma {:induction false} UsedWeightsOf(f: seq<nat>, m: nat)
    requires |f| == 257 && 33 <= m <= 256
    requires (forall v :: 0 <= v < 33 ==> f[v] > 0) && forall v :: 33 <= v < 256 ==> f[v] == 0
    ensures UsedWeights(f, m) == f[..33]
  {
    if m == 33 {
      AllUsed(f, 33);
    } else {
      UsedWeightsOf(f, m - 1);
    }
  }

  lemma {:induction false} AllUsed(f: seq<nat>, m: nat)
    requires m <= |f| && forall v :: 0 <= v < m ==> f[v] > 0
    ensures UsedWeights(f, m) == f[..m]
  {
    if m > 0 {
      AllUsed(f, m - 1);
    }
  }

  lemma DeepWeights()
    ensures Weights(DeepCounts()) == FibWeights(34)
  {
    hide Fib;
    var f := DeepCounts()[256 := 1];
    forall v | 0 <= v < 33
      ensures f[v] > 0
    {
      FibPositive(33 - v);
    }
    UsedWeightsOf(f, 256);
    assert UsedWeights(f, 257) == f[..33] + [1];
  }

  /** The pseudo-symbol gets count 1, and the counts that are not zero move to the front. */
  method ReserveAndGroup(freq: array<nat>) returns (nzIndex: array<nat>, n: nat)
    requires freq.Length == 257
    modifies freq
    ensures fresh(nzIndex) && nzIndex.Length == 257 && n <= 257
    ensures nzIndex[..n] == Symbols(old(freq[..])) && freq[..n] == Weights(old(freq[..]))
  {
    hide Used, UsedWeights;
    ghost var counts := freq[..];
    freq[256] := 1;
    assert freq[..] == counts[256 := 1];
    nzIndex, n := GroupNonzero(freq);
  }

  lemma ReadyToMerge(freq: seq<nat>, maxSymbol: nat)
    requires IsCounts(freq, maxSymbol)
    ensures var s, w := Symbols(freq), Weights(freq);
            && 0 < |s| == |w| < 256 && w[|w| - 1] == 1
            && (forall i :: 0 <= i < |w| ==> 1 <= w[i] <= LIMIT)
            && Sum(Reals(w)) <= LIMIT as real
            && (forall i :: 0 <= i < |s| - 1 ==> s[i] < 256)
            && (forall i, j :: 0 <= i < j < |s| ==> s[i] < s[j])
  {
    SymbolsOfCounts(freq, maxSymbol);
    WeightsFit(freq, maxSymbol);
  }

  lemma TableIsAcceptable(t: Table, freq: seq<nat>, maxSymbol: nat)
    requires IsCounts(freq, maxSymbol) && IsTableOf(t, freq)
    ensures Acceptable(t, maxSymbol)
  {
    hide TreeLengths;
    SymbolsOfCounts(freq, maxSymbol);
    var s, n := Symbols(freq), |Symbols(freq)| - 1;
    forall i | 0 <= i < n
      ensures t.huffval[i] <= maxSymbol
    {
      assert t.huffval[i] in t.huffval[..n];
      assert t.huffval[i] in s[..n];
    }
  }

  /** In the table derived from it every symbol that was counted has a code of 1 to 16 bits, and
      no other symbol has one. */
  lemma CountedSymbolsHaveCodes(freq: seq<nat>, maxSymbol: nat, t: Table, d: Derived, v: nat)
    requires IsCounts(freq, maxSymbol) && v < 256 && IsTableOf(t, freq) && IsDerived(d, t)
    ensures freq[v] != 0 <==> 1 <= d.ehufsi[v] <= 16
    ensures freq[v] == 0 <==> d.ehufsi[v] == 0
  {
    hide TreeLengths;
    SymbolsOfCounts(freq, maxSymbol);
    var s, n := Symbols(freq), |Symbols(freq)| - 1;
    if freq[v] != 0 {
      assert v in s[..n];
      assert v in t.huffval[..n];
      var p :| 0 <= p < n && t.huffval[p] == v;
    } else {
      assert v !in s[..n];
    }
  }
}
