/**
 * Two-pass coding of sample differences (encode_mcus_gather and finish_pass_gather of jclhuff.c).
 * The statistics pass must count just the symbols that encode_mcus_huff sends.
 */
module LosslessGather {
  import opened Powers
  import opened HuffTable
  import opened OptimalTable
  import opened BlockSymbols
  import opened HuffScan
  import opened HuffGather
  import opened HuffTwoPass
  import opened LosslessCoder
  import MergeSteps
  import Sums
  import HuffTree

  /** The table number of each component, and the component of each sample of an MCU. */
  datatype SampleLayout = SampleLayout(tblNos: seq<nat>, membership: seq<nat>) {

    ghost predicate Valid() {
      && (forall ci :: 0 <= ci < |tblNos| ==> tblNos[ci] < NUM_HUFF_TBLS)
      && (forall i :: 0 <= i < |membership| ==> membership[i] < |tblNos|)
    }

    function TblNo(i: nat): nat
      requires Valid() && i < |membership|
      ensures TblNo(i) < NUM_HUFF_TBLS
    {
      tblNos[membership[i]]
    }
  }

  /** The differences of one MCU. */
  type Differences = seq<int>

  ghost predicate Fit(lay: SampleLayout, mcus: seq<Differences>) {
    lay.Valid() && forall j :: 0 <= j < |mcus| ==> |mcus[j]| == |lay.membership|
  }

  // ---------- what is sent ----------

  /** Sample i of an MCU is sent as symbol v of table t. */
  predicate SentAs(lay: SampleLayout, ds: Differences, i: nat, t: nat, v: nat)
    requires lay.Valid() && i < |ds| == |lay.membership|
  {
    lay.TblNo(i) == t && DiffItem(ds[i]).symbol == v
  }

  /** How many of the first n samples of an MCU are. */
  function Uses(lay: SampleLayout, ds: Differences, n: nat, t: nat, v: nat): nat
    requires lay.Valid() && n <= |ds| == |lay.membership|
  {
    if n == 0 then 0 else Uses(lay, ds, n - 1, t, v) + if SentAs(lay, ds, n - 1, t, v) then 1 else 0
  }

  /** And of the samples of all MCUs. */
  function ScanUses(lay: SampleLayout, mcus: seq<Differences>, t: nat, v: nat): nat
    requires Fit(lay, mcus)
  {
    if mcus == [] then 0
    else
      var n := |mcus| - 1;
      ScanUses(lay, mcus[..n], t, v) + Uses(lay, mcus[n], |mcus[n]|, t, v)
  }

  lemma {:induction false} UsedIfSent(lay: SampleLayout, ds: Differences, n: nat, t: nat, v: nat)
    requires lay.Valid() && n <= |ds| == |lay.membership|
    ensures Uses(lay, ds, n, t, v) > 0 <==> exists i :: 0 <= i < n && SentAs(lay, ds, i, t, v)
  {
    if n > 0 {
      UsedIfSent(lay, ds, n - 1, t, v);
      assert SentAs(lay, ds, n - 1, t, v) || !SentAs(lay, ds, n - 1, t, v);
    }
  }

  ghost predicate IsSent(lay: SampleLayout, mcus: seq<Differences>, t: nat, v: nat)
    requires Fit(lay, mcus)
  {
    exists j, i :: 0 <= j < |mcus| && 0 <= i < |mcus[j]| && SentAs(lay, mcus[j], i, t, v)
  }

  /** A symbol is counted if and only if some sample is sent with it. */
  lemma {:induction false} CountedIfSent(lay: SampleLayout, mcus: seq<Differences>, t: nat, v: nat)
    requires Fit(lay, mcus)
    ensures ScanUses(lay, mcus, t, v) > 0 <==> IsSent(lay, mcus, t, v)
  {
    hide Uses, SentAs;
    if mcus != [] {
      var n := |mcus| - 1;
      var before := mcus[..n];
      CountedIfSent(lay, before, t, v);
      UsedIfSent(lay, mcus[n], |mcus[n]|, t, v);
      if IsSent(lay, before, t, v) {
        var j, i :| 0 <= j < |before| && 0 <= i < |before[j]| && SentAs(lay, before[j], i, t, v);
        assert SentAs(lay, mcus[j], i, t, v);
      }
      if IsSent(lay, mcus, t, v) {
        var j, i :| 0 <= j < |mcus| && 0 <= i < |mcus[j]| && SentAs(lay, mcus[j], i, t, v);
        assert j < n ==> SentAs(lay, before[j], i, t, v);
      }
    }
  }

  /** The counts of one table, for all symbols. */
  ghost function UsesOf(lay: SampleLayout, mcus: seq<Differences>, t: nat): (c: seq<nat>)
    requires Fit(lay, mcus)
    ensures |c| == 257 && forall v :: 0 <= v < 257 ==> c[v] == ScanUses(lay, mcus, t, v)
  {
    seq(257, v requires 0 <= v < 257 => ScanUses(lay, mcus, t, v))
  }

  // ---------- counting ----------

  ghost predicate AreDistinct(counters: seq<array<nat>>) {
    && |counters| == NUM_HUFF_TBLS
    && (forall t :: 0 <= t < NUM_HUFF_TBLS ==> counters[t].Length == 257)
    && forall i, j :: 0 <= i < j < NUM_HUFF_TBLS ==> counters[i] != counters[j]
  }

  /** The inner loop of encode_mcus_gather. */
  method CountSamples(lay: SampleLayout, ds: Differences, counters: seq<array<nat>>)
    requires lay.Valid() && |ds| == |lay.membership| && AreDistinct(counters)
    modifies counters
    ensures forall t, v :: 0 <= t < NUM_HUFF_TBLS && 0 <= v < 257 ==>
              counters[t][v] == old(counters[t][v]) + Uses(lay, ds, |ds|, t, v)
  {
    hide DiffItem;
    var sampn := 0;
    while sampn < |ds|
      invariant 0 <= sampn <= |ds|
      invariant forall t, v :: 0 <= t < NUM_HUFF_TBLS && 0 <= v < 257 ==>
                  counters[t][v] == old(counters[t][v]) + Uses(lay, ds, sampn, t, v)
    {
      var nbits := CountDifferenceBits(ds[sampn]);
      var counts := counters[lay.TblNo(sampn)];
      counts[nbits] := counts[nbits] + 1;
      sampn := sampn + 1;
    }
  }

  /** The entropy encoder while it gathers statistics. Restarts are counted per call here, and
      per MCU in the output pass; the counts depend on neither. */
  class DifferenceGatherer {
    const lay: SampleLayout
    const interval: nat
    const counters: seq<array<nat>>
    var restartsToGo: nat

    ghost var mcus: seq<Differences>   // the MCUs seen

    /** The counts are those of the symbols that the MCUs seen are sent with. */
    ghost predicate Valid()
      reads this, counters
    {
      && Fit(lay, mcus) && AreDistinct(counters) && restartsToGo <= interval
      && forall t, v :: 0 <= t < NUM_HUFF_TBLS && 0 <= v < 257 ==> counters[t][v] == ScanUses(lay, mcus, t, v)
    }

    /** start_pass_lhuff: all counts are zero. */
    constructor (lay: SampleLayout, interval: nat)
      requires lay.Valid()
      ensures Valid() && mcus == [] && this.lay == lay && this.interval == interval && fresh(counters)
    {
      this.lay, this.interval := lay, interval;
      var c := NewCounters();
      counters, restartsToGo, mcus := c, interval, [];
      new;
      assert forall t :: 0 <= t < NUM_HUFF_TBLS ==> Contents(counters)[t] == Zeros()[t];
    }

    /** encode_mcus_gather: never suspends, and takes all MCUs. */
    method EncodeMcus(diffs: seq<Differences>) returns (count: nat)
      requires Valid() && Fit(lay, diffs)
      modifies this, counters
      ensures Valid() && mcus == old(mcus) + diffs && count == |diffs|
    {
      hide Uses;
      if interval > 0 {
        if restartsToGo == 0 {
          restartsToGo := interval;
        }
        restartsToGo := restartsToGo - 1;
      }
      var mcuNum := 0;
      while mcuNum < |diffs|
        invariant 0 <= mcuNum <= |diffs| && Valid() && mcus == old(mcus) + diffs[..mcuNum]
      {
        CountSamples(lay, diffs[mcuNum], counters);
        mcus := mcus + [diffs[mcuNum]];
        assert mcus[..|mcus| - 1] == old(mcus) + diffs[..mcuNum];
        mcuNum := mcuNum + 1;
      }
      assert diffs[..mcuNum] == diffs;
      count := mcuNum;
    }
  }

  // ---------- the tables ----------

  /** There are 17 symbols at most, so a table can always be made. */
  lemma FewDifferences(lay: SampleLayout, mcus: seq<Differences>, t: nat)
    requires Fit(lay, mcus) && t < NUM_HUFF_TBLS
    ensures HasTable(UsesOf(lay, mcus, t)) && |Symbols(UsesOf(lay, mcus, t))| <= 18
    ensures forall v :: 17 <= v < 257 ==> UsesOf(lay, mcus, t)[v] == 0
  {
    hide ScanUses;
    var c := UsesOf(lay, mcus, t);
    forall v | 17 <= v < 257
      ensures c[v] == 0
    {
      CountedIfSent(lay, mcus, t, v);
      if IsSent(lay, mcus, t, v) {
        var j, i :| 0 <= j < |mcus| && 0 <= i < |mcus[j]| && SentAs(lay, mcus[j], i, t, v);
        MagnitudeBits(mcus[j][i]);
      }
    }
    OnlyFirst(c[256 := 1], 17, 256);
    FewSymbolsHaveTable(c);
  }

  lemma {:induction false} OnlyFirst(freq: seq<nat>, k: nat, m: nat)
    requires m <= |freq| && forall v :: k <= v < m ==> freq[v] == 0
    ensures |Used(freq, m)| <= k
  {
    if m > 0 {
      OnlyFirst(freq, k, m - 1);
      if m <= k {
        AtMostAll(freq, m);
      }
    }
  }

  lemma {:induction false} AtMostAll(freq: seq<nat>, m: nat)
    requires m <= |freq|
    ensures |Used(freq, m)| <= m
  {
    if m > 0 {
      AtMostAll(freq, m - 1);
    }
  }

  /** The number of samples of that many MCUs. */
  function Samples(lay: SampleLayout, count: nat): nat {
    count * |lay.membership|
  }

  ghost function Added(lay: SampleLayout, c: seq<nat>, ds: Differences, n: nat, t: nat): (r: seq<nat>)
    requires lay.Valid() && n <= |ds| == |lay.membership| && |c| == 257
    ensures |r| == 257 && forall v :: 0 <= v < 257 ==> r[v] == c[v] + Uses(lay, ds, n, t, v)
  {
    seq(257, v requires 0 <= v < 257 => c[v] + Uses(lay, ds, n, t, v))
  }

  lemma {:induction false} AddedTotal(lay: SampleLayout, c: seq<nat>, ds: Differences, n: nat, t: nat)
    requires lay.Valid() && n <= |ds| == |lay.membership| && |c| == 257
    ensures Total(Added(lay, c, ds, n, t)) <= Total(c) + n as real
  {
    hide Total, DiffItem;
    if n == 0 {
      assert Added(lay, c, ds, 0, t) == c;
    } else {
      AddedTotal(lay, c, ds, n - 1, t);
      var before, v := Added(lay, c, ds, n - 1, t), DiffItem(ds[n - 1]).symbol;
      if lay.TblNo(n - 1) == t {
        assert Added(lay, c, ds, n, t) == before[v := before[v] + 1];
        TotalUpdate(before, v, before[v] + 1);
      } else {
        assert Added(lay, c, ds, n, t) == before;
      }
    }
  }

  lemma {:induction false} UsesTotal(lay: SampleLayout, mcus: seq<Differences>, t: nat)
    requires Fit(lay, mcus)
    ensures Total(UsesOf(lay, mcus, t)) <= Samples(lay, |mcus|) as real
    decreases |mcus|
  {
    hide Uses, Total;
    if mcus == [] {
      NoTotal(UsesOf(lay, mcus, t));
    } else {
      var n := |mcus| - 1;
      UsesTotal(lay, mcus[..n], t);
      assert UsesOf(lay, mcus, t) == Added(lay, UsesOf(lay, mcus[..n], t), mcus[n], |mcus[n]|, t);
      AddedTotal(lay, UsesOf(lay, mcus[..n], t), mcus[n], |mcus[n]|, t);
      MulDistributes(n, 1, |lay.membership|);
    }
  }

  lemma NoTotal(c: seq<nat>)
    requires forall v :: 0 <= v < |c| ==> c[v] == 0
    ensures Total(c) == 0.0
  {
    Sums.AllZero(HuffTree.Reals(c));
  }

  /** The table generator can take the counts. */
  lemma DifferencesAreUsable(lay: SampleLayout, mcus: seq<Differences>, t: nat)
    requires Fit(lay, mcus) && Samples(lay, |mcus|) < MergeSteps.LIMIT && t < NUM_HUFF_TBLS
    ensures IsCounts(UsesOf(lay, mcus, t), 16)
  {
    hide ScanUses, Samples, HasTable;
    UsesTotal(lay, mcus, t);
    TotalUpdate(UsesOf(lay, mcus, t), 256, 1);
    FewDifferences(lay, mcus, t);
  }

  /** Tables are made from the counts of the MCUs. */
  ghost predicate AreMade(lay: SampleLayout, mcus: seq<Differences>, tbls: seq<Table>)
    requires Fit(lay, mcus)
  {
    && AreTables(tbls)
    && forall ci :: 0 <= ci < |lay.tblNos| ==>
         lay.tblNos[ci] < NUM_HUFF_TBLS && IsTableOf(tbls[lay.tblNos[ci]], UsesOf(lay, mcus, lay.tblNos[ci]))
  }

  /** finish_pass_gather: every table in use is made once, and none can fail. */
  method FinishPassGather(g: DifferenceGatherer, tbls0: seq<Table>) returns (tbls: seq<Table>)
    requires g.Valid() && AreTables(tbls0) && Samples(g.lay, |g.mcus|) < MergeSteps.LIMIT
    modifies g.counters
    ensures Fit(g.lay, g.mcus) && AreMade(g.lay, g.mcus, tbls)
  {
    hide HasTable, IsTableOf, IsCounts, IsTable, Making, Contents, ScanUses, Symbols;
    ghost var lay, mcus, before := g.lay, g.mcus, Contents(g.counters);
    forall t | 0 <= t < NUM_HUFF_TBLS
      ensures before[t] == UsesOf(lay, mcus, t) && IsCounts(before[t], 16) && HasTable(before[t])
    {
      assert before[t] == UsesOf(lay, mcus, t);
      DifferencesAreUsable(lay, mcus, t);
      FewDifferences(lay, mcus, t);
    }
    tbls := tbls0;
    var did := seq(NUM_HUFF_TBLS, _ => false);
    NothingMade(tbls, did, before);
    for ci := 0 to |g.lay.tblNos|
      invariant Making(tbls, did, before, Contents(g.counters)) && |did| == NUM_HUFF_TBLS
      invariant forall k :: 0 <= k < ci ==> did[g.lay.tblNos[k]]
    {
      var dctbl, ok := g.lay.tblNos[ci], true;
      ok, tbls, did := MakeOnce(g.counters, dctbl, tbls, did, before, 16);
    }
    MakingFacts(tbls, did, before, Contents(g.counters));
    forall ci | 0 <= ci < |lay.tblNos|
      ensures IsTableOf(tbls[lay.tblNos[ci]], UsesOf(lay, mcus, lay.tblNos[ci]))
    {
      MadeAt(tbls, did, before, Contents(g.counters), lay.tblNos[ci]);
    }
  }

  // ---------- the output pass ----------

  /** start_pass_lhuff for the output pass: the derived table of each sample. */
  method DeriveTables(lay: SampleLayout, tbls: seq<Table>) returns (r: Option<seq<Derived>>)
    requires lay.Valid() && AreTables(tbls)
    ensures r.Some? <==> forall ci :: 0 <= ci < |lay.tblNos| ==> Acceptable(tbls[lay.tblNos[ci]], 16)
    ensures r.Some? ==> |r.value| == |lay.membership| && HaveCodes(r.value)
    ensures r.Some? ==> forall i :: 0 <= i < |r.value| ==> IsDerived(r.value[i], tbls[lay.TblNo(i)])
  {
    hide Acceptable, IsDerived, HasCodes, IsTable;
    var derived := seq(NUM_HUFF_TBLS, _ => Derived([], []));
    for ci := 0 to |lay.tblNos|
      invariant |derived| == NUM_HUFF_TBLS
      invariant forall k :: 0 <= k < ci ==>
                  && Acceptable(tbls[lay.tblNos[k]], 16)
                  && IsDerived(derived[lay.tblNos[k]], tbls[lay.tblNos[k]]) && HasCodes(derived[lay.tblNos[k]])
    {
      var d := MakeDerivedTable(tbls[lay.tblNos[ci]], true, true);
      if d.None? {
        return None;
      }
      DerivedHasCodes(tbls[lay.tblNos[ci]], d.value, 16);
      derived := derived[lay.tblNos[ci] := d.value];
    }
    r := Some(seq(|lay.membership|, i requires 0 <= i < |lay.membership| => derived[lay.TblNo(i)]));
  }

  /** No sample of the MCU lacks a code, and decoding its bits gives congruent differences. */
  ghost predicate ComesBack(ts: seq<Table>, tbls: seq<Derived>, ds: Differences)
    requires |ts| == |tbls| == |ds| && HaveCodes(tbls) && forall i :: 0 <= i < |ts| ==> IsTable(ts[i])
  {
    && (forall i :: 0 <= i < |ds| ==> tbls[i].ehufsi[DiffItem(ds[i]).symbol] > 0)
    && forall rest: seq<bool> ::
         var r := DecodeSamples(ts, SamplesBits(ds, tbls) + rest);
         && r.Some? && r.value.1 == rest && |r.value.0| == |ds|
         && forall i :: 0 <= i < |ds| ==> (r.value.0[i] - ds[i]) % 0x10000 == 0
  }

  /**
   * Both passes: whatever was counted, the tables made from it have a code for each symbol that
   * the samples are sent with and for no other, and every MCU decodes to its differences.
   */
  method OptimizeDifferences(g: DifferenceGatherer, tbls0: seq<Table>) returns (ts: seq<Table>, ds: seq<Derived>)
    requires g.Valid() && AreTables(tbls0) && Samples(g.lay, |g.mcus|) < MergeSteps.LIMIT
    modifies g.counters
    ensures |ts| == |ds| == |g.lay.membership| && HaveCodes(ds) && Fit(g.lay, g.mcus)
    ensures forall i :: 0 <= i < |ts| ==> IsTable(ts[i])
    ensures forall i, v :: 0 <= i < |ds| && 0 <= v < 256 ==>
              (ds[i].ehufsi[v] > 0 <==> IsSent(g.lay, g.mcus, g.lay.TblNo(i), v))
    ensures forall j :: 0 <= j < |g.mcus| ==> ComesBack(ts, ds, g.mcus[j])
  {
    hide IsTableOf, IsCounts, IsTable, IsDerived, Acceptable, HasCodes, Samples, ComesBack, IsSent, SentAs;
    ghost var lay, mcus := g.lay, g.mcus;
    var tbls := FinishPassGather(g, tbls0);
    forall ci | 0 <= ci < |lay.tblNos|
      ensures Acceptable(tbls[lay.tblNos[ci]], 16)
    {
      DifferencesAreUsable(lay, mcus, lay.tblNos[ci]);
      TableIsAcceptable(tbls[lay.tblNos[ci]], UsesOf(lay, mcus, lay.tblNos[ci]), 16);
    }
    var derived := DeriveTables(g.lay, tbls);
    ds := derived.value;
    ts := seq(|g.lay.membership|, i requires 0 <= i < |g.lay.membership| => tbls[g.lay.TblNo(i)]);
    MadeCodesSent(lay, mcus, tbls, ts, ds);
    forall j | 0 <= j < |mcus|
      ensures ComesBack(ts, ds, mcus[j])
    {
      McuComesBack(lay, mcus, tbls, ts, ds, j);
    }
  }

  ghost predicate AreDerived(lay: SampleLayout, tbls: seq<Table>, ts: seq<Table>, ds: seq<Derived>)
    requires lay.Valid() && AreTables(tbls)
  {
    && |ts| == |ds| == |lay.membership| && HaveCodes(ds)
    && forall i :: 0 <= i < |ds| ==> ts[i] == tbls[lay.TblNo(i)] && IsDerived(ds[i], ts[i])
  }

  /** Codes exist for just the symbols that are sent. */
  lemma MadeCodesSent(lay: SampleLayout, mcus: seq<Differences>, tbls: seq<Table>, ts: seq<Table>, ds: seq<Derived>)
    requires Fit(lay, mcus) && Samples(lay, |mcus|) < MergeSteps.LIMIT
    requires AreMade(lay, mcus, tbls) && AreDerived(lay, tbls, ts, ds)
    ensures forall i, v :: 0 <= i < |ds| && 0 <= v < 256 ==>
              HasCodes(ds[i]) && (ds[i].ehufsi[v] > 0 <==> IsSent(lay, mcus, lay.TblNo(i), v))
  {
    hide IsTableOf, IsCounts, IsTable, IsDerived, ScanUses, Samples, IsSent, SentAs;
    forall i, v | 0 <= i < |ds| && 0 <= v < 256
      ensures ds[i].ehufsi[v] > 0 <==> IsSent(lay, mcus, lay.TblNo(i), v)
    {
      var t := lay.TblNo(i);
      assert t == lay.tblNos[lay.membership[i]];
      DifferencesAreUsable(lay, mcus, t);
      CountedSymbolsHaveCodes(UsesOf(lay, mcus, t), 16, tbls[t], ds[i], v);
      CountedIfSent(lay, mcus, t, v);
    }
  }

  lemma SampleHasCode(lay: SampleLayout, mcus: seq<Differences>, tbls: seq<Table>, ts: seq<Table>, ds: seq<Derived>,
                      j: nat, i: nat)
    requires Fit(lay, mcus) && Samples(lay, |mcus|) < MergeSteps.LIMIT && j < |mcus| && i < |ts|
    requires AreMade(lay, mcus, tbls) && AreDerived(lay, tbls, ts, ds)
    ensures Matches(ts[i], ds[i]) && HasCodes(ds[i]) && ds[i].ehufsi[DiffItem(mcus[j][i]).symbol] > 0
  {
    hide IsTableOf, IsCounts, IsTable, IsDerived, Acceptable, ScanUses, Samples, DiffItem;
    var t := lay.TblNo(i);
    assert t == lay.tblNos[lay.membership[i]];
    MadeCodesSent(lay, mcus, tbls, ts, ds);
    DifferencesAreUsable(lay, mcus, t);
    TableIsAcceptable(ts[i], UsesOf(lay, mcus, t), 16);
    AcceptableForAny(ts[i], 16);
    assert SentAs(lay, mcus[j], i, t, DiffItem(mcus[j][i]).symbol);
  }

  lemma McuComesBack(lay: SampleLayout, mcus: seq<Differences>, tbls: seq<Table>, ts: seq<Table>, ds: seq<Derived>,
                     j: nat)
    requires Fit(lay, mcus) && Samples(lay, |mcus|) < MergeSteps.LIMIT && j < |mcus|
    requires AreMade(lay, mcus, tbls) && AreDerived(lay, tbls, ts, ds)
    ensures forall i :: 0 <= i < |ts| ==> IsTable(ts[i])
    ensures ComesBack(ts, ds, mcus[j])
  {
    hide IsTable, IsDerived, Acceptable, Samples, DiffItem, AreMade, SamplesBits, DecodeSamples;
    forall i | 0 <= i < |ts|
      ensures Matches(ts[i], ds[i]) && HasCodes(ds[i]) && ds[i].ehufsi[DiffItem(mcus[j][i]).symbol] > 0
    {
      SampleHasCode(lay, mcus, tbls, ts, ds, j, i);
    }
    forall rest: seq<bool>
      ensures var r := DecodeSamples(ts, SamplesBits(mcus[j], ds) + rest);
              && r.Some? && r.value.1 == rest && |r.value.0| == |mcus[j]|
              && forall i :: 0 <= i < |mcus[j]| ==> (r.value.0[i] - mcus[j][i]) % 0x10000 == 0
    {
      SamplesRoundTrip(ts, ds, mcus[j], rest);
    }
  }

  lemma AcceptableForAny(t: Table, maxSymbol: nat)
    requires IsTable(t) && Acceptable(t, maxSymbol) && maxSymbol < 256
    ensures Acceptable(t, 255)
  {
  }
}
