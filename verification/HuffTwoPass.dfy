/**
 * Coding a scan with tables of its own (finish_pass_gather, and start_pass_huff for the output
 * pass): count, generate the tables, derive the codes, and code. It works exactly if every
 * table's counts have one, and a caller can tell beforehand from the number of blocks.
 */
module HuffTwoPass {
  import opened Powers
  import Sums
  import opened MergeSteps
  import opened HuffTree
  import opened HuffTable
  import opened OptimalTable
  import opened BlockSymbols
  import opened BlockCoder
  import opened Mcus
  import opened HuffScan
  import opened HuffEncoder
  import opened HuffScanDecoder
  import opened HuffGather
  import opened ZigZag

  // ---------- finish_pass_gather ----------

  /** The counts of all tables in use meet what the table generator needs. */
  ghost predicate AreUsable(lay: Layout, dc: Counts, ac: Counts)
    requires lay.Valid()
  {
    && AreCounts(dc) && AreCounts(ac)
    && forall ci :: 0 <= ci < |lay.comps| ==>
         IsCounts(dc[lay.comps[ci].dcTbl], 15) && IsCounts(ac[lay.comps[ci].acTbl], 255)
  }

  /** All tables in use can be made. */
  ghost predicate HaveTables(lay: Layout, dc: Counts, ac: Counts)
    requires lay.Valid() && AreCounts(dc) && AreCounts(ac)
  {
    forall ci :: 0 <= ci < |lay.comps| ==> HasTable(dc[lay.comps[ci].dcTbl]) && HasTable(ac[lay.comps[ci].acTbl])
  }

  ghost predicate AreTables(tbls: seq<Table>) {
    |tbls| == NUM_HUFF_TBLS && forall t :: 0 <= t < NUM_HUFF_TBLS ==> IsTable(tbls[t])
  }

  /** Tables marked as done are those of the counts; the counts of the others are still there. */
  ghost predicate Making(tbls: seq<Table>, done: seq<bool>, before: Counts, now: Counts) {
    && AreTables(tbls) && |done| == NUM_HUFF_TBLS && AreCounts(before) && |now| == NUM_HUFF_TBLS
    && forall t :: 0 <= t < NUM_HUFF_TBLS ==>
         if done[t] then HasTable(before[t]) && IsTableOf(tbls[t], before[t]) else now[t] == before[t]
  }

  /** One table, unless it has been made before: that would have destroyed its counts. */
  method MakeOnce(counters: seq<array<nat>>, t: nat, tbls0: seq<Table>, done0: seq<bool>, ghost before: Counts,
                  ghost maxSymbol: nat)
    returns (ok: bool, tbls: seq<Table>, done: seq<bool>)
    requires |counters| == NUM_HUFF_TBLS && t < NUM_HUFF_TBLS && counters[t].Length == 257
    requires forall i, j :: 0 <= i < j < |counters| ==> counters[i] != counters[j]
    requires Making(tbls0, done0, before, Contents(counters)) && IsCounts(before[t], maxSymbol)
    modifies counters[t]
    ensures ok <==> HasTable(before[t])
    ensures ok ==> Making(tbls, done, before, Contents(counters))
    ensures ok ==> done == done0[t := true]
  {
    hide HasTable, IsTableOf, IsCounts, IsTable, Acceptable, Making, IsOptimal, TreeLengths, Weights;
    ok, tbls, done := true, tbls0, done0;
    ghost var now := Contents(counters);
    MakingFacts(tbls, done, before, now);
    if !done[t] {
      var made := GenOptimalTable(counters[t], tbls[t], maxSymbol);
      if made.None? {
        return false, tbls, done;
      }
      tbls, done := tbls[t := made.value], done[t := true];
      MadeOne(tbls0, done0, before, now, t, made.value, Contents(counters));
    } else {
      assert done == done0[t := true];
    }
  }

  lemma MakingFacts(tbls: seq<Table>, done: seq<bool>, before: Counts, now: Counts)
    requires Making(tbls, done, before, now)
    ensures AreTables(tbls) && |done| == |now| == NUM_HUFF_TBLS && AreCounts(before)
    ensures forall t :: 0 <= t < NUM_HUFF_TBLS ==> if done[t] then HasTable(before[t]) else now[t] == before[t]
  {
  }

  lemma MadeOne(tbls: seq<Table>, done: seq<bool>, before: Counts, now: Counts, t: nat, made: Table, now': Counts)
    requires Making(tbls, done, before, now) && t < NUM_HUFF_TBLS && |now'| == NUM_HUFF_TBLS
    requires AreCounts(before) && HasTable(before[t]) && IsTableOf(made, before[t])
    requires forall k :: 0 <= k < NUM_HUFF_TBLS && k != t ==> now'[k] == now[k]
    ensures Making(tbls[t := made], done[t := true], before, now')
  {
    hide HasTable, TreeLengths, Weights, Symbols, IsTableFor;
  }

  /** Every table in use is made once; fails exactly if one of them cannot be. */
  method FinishPassGather(lay: Layout, dcCounts: seq<array<nat>>, acCounts: seq<array<nat>>,
                          dcTbls: seq<Table>, acTbls: seq<Table>) returns (r: Option<Decoding>)
    requires lay.Valid() && AreCounters(dcCounts, acCounts) && AreTables(dcTbls) && AreTables(acTbls)
    requires AreUsable(lay, Contents(dcCounts), Contents(acCounts))
    modifies dcCounts, acCounts
    ensures r.Some? <==> HaveTables(lay, old(Contents(dcCounts)), old(Contents(acCounts)))
    ensures r.Some? ==> AreTables(r.value.dc) && AreTables(r.value.ac)
    ensures r.Some? ==> forall ci :: 0 <= ci < |lay.comps| ==>
              var comp := lay.comps[ci];
              && IsTableOf(r.value.dc[comp.dcTbl], old(Contents(dcCounts))[comp.dcTbl])
              && IsTableOf(r.value.ac[comp.acTbl], old(Contents(acCounts))[comp.acTbl])
  {
    hide HasTable, IsTableOf, IsCounts, IsTable, Contents, Making;
    ghost var dc0, ac0 := Contents(dcCounts), Contents(acCounts);
    var dc, ac := dcTbls, acTbls;
    var didDc, didAc := seq(NUM_HUFF_TBLS, _ => false), seq(NUM_HUFF_TBLS, _ => false);
    NothingMade(dc, didDc, dc0);
    NothingMade(ac, didAc, ac0);
    var ok;
    for ci := 0 to |lay.comps|
      invariant Making(dc, didDc, dc0, Contents(dcCounts)) && Making(ac, didAc, ac0, Contents(acCounts))
      invariant |didDc| == |didAc| == NUM_HUFF_TBLS
      invariant forall k :: 0 <= k < ci ==> didDc[lay.comps[k].dcTbl] && didAc[lay.comps[k].acTbl]
    {
      var dctbl, actbl := lay.comps[ci].dcTbl, lay.comps[ci].acTbl;
      ok, dc, didDc := MakeOnce(dcCounts, dctbl, dc, didDc, dc0, 15);
      if !ok {
        return None;
      }
      ok, ac, didAc := MakeOnce(acCounts, actbl, ac, didAc, ac0, 255);
      if !ok {
        return None;
      }
    }
    MakingFacts(dc, didDc, dc0, Contents(dcCounts));
    MakingFacts(ac, didAc, ac0, Contents(acCounts));
    forall ci | 0 <= ci < |lay.comps|
      ensures IsTableOf(dc[lay.comps[ci].dcTbl], dc0[lay.comps[ci].dcTbl])
      ensures IsTableOf(ac[lay.comps[ci].acTbl], ac0[lay.comps[ci].acTbl])
    {
      MadeAt(dc, didDc, dc0, Contents(dcCounts), lay.comps[ci].dcTbl);
      MadeAt(ac, didAc, ac0, Contents(acCounts), lay.comps[ci].acTbl);
    }
    r := Some(Decoding(dc, ac));
  }

  lemma NothingMade(tbls: seq<Table>, done: seq<bool>, counts: Counts)
    requires AreTables(tbls) && AreCounts(counts) && |done| == NUM_HUFF_TBLS
    requires forall t :: 0 <= t < NUM_HUFF_TBLS ==> !done[t]
    ensures Making(tbls, done, counts, counts)
  {
  }

  lemma MadeAt(tbls: seq<Table>, done: seq<bool>, before: Counts, now: Counts, t: nat)
    requires Making(tbls, done, before, now) && t < NUM_HUFF_TBLS && |done| == NUM_HUFF_TBLS && done[t]
    ensures |tbls| == |before| == NUM_HUFF_TBLS && |before[t]| == 257 && IsTableOf(tbls[t], before[t])
  {
  }

  // ---------- start_pass_huff for the output pass ----------

  /** The derived tables of all components; a table may be derived more than once. */
  method DeriveTables(lay: Layout, ts: Decoding) returns (r: Option<Config>)
    requires lay.Valid() && AreTables(ts.dc) && AreTables(ts.ac)
    ensures r.Some? <==> forall ci :: 0 <= ci < |lay.comps| ==>
              var comp := lay.comps[ci];
              Acceptable(ts.dc[comp.dcTbl], 15) && Acceptable(ts.ac[comp.acTbl], 255)
    ensures r.Some? ==> r.value.layout == lay && r.value.Valid()
    ensures r.Some? ==> forall ci :: 0 <= ci < |lay.comps| ==>
              var comp := lay.comps[ci];
              IsDerived(r.value.TablesOf(ci).dc, ts.dc[comp.dcTbl])
                  && IsDerived(r.value.TablesOf(ci).ac, ts.ac[comp.acTbl])
  {
    hide Acceptable, IsDerived, HasCodes, IsTable;
    var dc, ac := seq(NUM_HUFF_TBLS, _ => Derived([], [])), seq(NUM_HUFF_TBLS, _ => Derived([], []));
    for ci := 0 to |lay.comps|
      invariant |dc| == |ac| == NUM_HUFF_TBLS
      invariant forall k :: 0 <= k < ci ==>
                  && Acceptable(ts.dc[lay.comps[k].dcTbl], 15)
                  && IsDerived(dc[lay.comps[k].dcTbl], ts.dc[lay.comps[k].dcTbl])
                  && Acceptable(ts.ac[lay.comps[k].acTbl], 255)
                  && IsDerived(ac[lay.comps[k].acTbl], ts.ac[lay.comps[k].acTbl])
    {
      var dctbl, actbl := lay.comps[ci].dcTbl, lay.comps[ci].acTbl;
      var d := MakeDerivedTable(ts.dc[dctbl], true, false);
      if d.None? {
        return None;
      }
      dc := dc[dctbl := d.value];
      d := MakeDerivedTable(ts.ac[actbl], false, false);
      if d.None? {
        return None;
      }
      ac := ac[actbl := d.value];
    }
    r := Some(Config(lay, dc, ac));
    forall ci | 0 <= ci < |lay.comps|
      ensures IsTables(r.value.TablesOf(ci))
    {
      var comp := lay.comps[ci];
      DerivedHasCodes(ts.dc[comp.dcTbl], dc[comp.dcTbl], 15);
      DerivedHasCodes(ts.ac[comp.acTbl], ac[comp.acTbl], 255);
    }
  }

  // ---------- how much a scan can be counted ----------

  /** How many of the symbols go to a table of that kind. */
  function OfKind(items: seq<Item>, dc: bool): nat {
    if items == [] then 0 else (if items[0].dc == dc then 1 else 0) + OfKind(items[1..], dc)
  }

  lemma {:induction false} OfKindAppend(a: seq<Item>, b: seq<Item>, dc: bool)
    ensures OfKind(a + b, dc) == OfKind(a, dc) + OfKind(b, dc)
  {
    if a == [] {
      assert a + b == b;
    } else {
      assert (a + b)[1..] == a[1..] + b;
      OfKindAppend(a[1..], b, dc);
    }
  }

  lemma {:induction false} RunOfKind(r: nat, v: int, dc: bool)
    requires NBits(Abs(v)) < 16
    ensures OfKind(RunItems(r, v), dc) <= if dc then 0 else r + 1
  {
    if r >= 16 {
      RunOfKind(r - 16, v, dc);
      OfKindAppend([Item(false, ZRL, [])], RunItems(r - 16, v), dc);
    }
  }

  lemma {:induction false} AcOfKind(z: Block, k: nat, r: nat, m: nat, dc: bool)
    requires 1 <= k <= 64 && m < 16 && AcInRange(z, k, m)
    ensures OfKind(AcItems(z, k, r, m), dc) <= if dc then 0 else 64 - k + r
    decreases 64 - k
  {
    if k < 64 {
      if z[k] == 0 {
        AcOfKind(z, k + 1, r + 1, m, dc);
      } else {
        RunOfKind(r, z[k], dc);
        AcOfKind(z, k + 1, 0, m, dc);
        OfKindAppend(RunItems(r, z[k]), AcItems(z, k + 1, 0, m), dc);
      }
    }
  }

  /** No block has more than 63 AC symbols. */
  lemma BlockOfKind(diff: int, z: Block, m: nat, dc: bool)
    requires m < 15 && InRange(diff, z, m)
    ensures OfKind(BlockItems(diff, z, m), dc) <= 63
  {
    AcOfKind(z, 1, 0, m, dc);
    OfKindAppend([DcItem(diff)], AcItems(z, 1, 0, m), dc);
  }

  function Total(counts: seq<nat>): real {
    Sums.Sum(Reals(counts))
  }

  lemma TotalUpdate(counts: seq<nat>, v: nat, x: nat)
    requires v < |counts|
    ensures Total(counts[v := x]) == Total(counts) - counts[v] as real + x as real
  {
    assert Reals(counts[v := x]) == Reals(counts)[v := x as real];
    Sums.SumUpdate(Reals(counts), v, x as real);
  }

  lemma {:induction false} CountedTotal(counts: seq<nat>, items: seq<Item>, dc: bool)
    requires |counts| == 257
    ensures Total(Counted(counts, items, dc)) == Total(counts) + OfKind(items, dc) as real
    decreases |items|
  {
    hide Total, Counted;
    if items == [] {
      CountedNone(counts, dc);
    } else {
      var it := items[0];
      assert items == [it] + items[1..];
      CountedAppend(counts, [it], items[1..], dc);
      CountedOne(counts, it);
      TotalUpdate(counts, it.symbol, counts[it.symbol] + 1);
      CountedTotal(Counted(counts, [it], dc), items[1..], dc);
    }
  }

  /** Every table's total is at most 63 for each of that many blocks. */
  ghost predicate AtMost(c: Counts, blocks: nat) {
    AreCounts(c) && forall t :: 0 <= t < NUM_HUFF_TBLS ==> Total(c[t]) <= (63 * blocks) as real
  }

  lemma AddBlockTotal(c: Counts, lay: Layout, ci: nat, items: seq<Item>, dc: bool, blocks: nat)
    requires ci < |lay.comps| && AtMost(c, blocks) && OfKind(items, dc) <= 63
    ensures AtMost(AddBlock(c, lay, ci, items, dc), blocks + 1)
  {
    hide Total, Counted;
    var t := TableNo(lay.comps[ci], dc);
    if t < |c| {
      CountedTotal(c[t], items, dc);
    }
  }

  lemma {:induction false} AddMcuTotal(c: Counts, lay: Layout, lastDc: seq<int>, mcu: Mcu, b: nat, dc: bool,
                                       blocks: nat)
    requires AtMost(c, blocks) && Fits(lay, lastDc, mcu) && b <= |mcu| && Codable(lay, lastDc, mcu, b)
    ensures AtMost(AddMcu(c, lay, lastDc, mcu, b, dc), blocks + (|mcu| - b))
    decreases |mcu| - b
  {
    hide AddBlock, BlockItems, InRange, AtMost;
    if b < |mcu| {
      var ci := lay.membership[b];
      BlockOfKind(mcu[b][0] - lastDc[ci], ToZigZag(mcu[b]), lay.precision + 2, dc);
      var items := BlockItems(mcu[b][0] - lastDc[ci], ToZigZag(mcu[b]), lay.precision + 2);
      AddBlockTotal(c, lay, ci, items, dc, blocks);
      AddMcuTotal(AddBlock(c, lay, ci, items, dc), lay, lastDc[ci := mcu[b][0]], mcu, b + 1, dc, blocks + 1);
    }
  }

  /** The blocks of that many MCUs. */
  function Blocks(lay: Layout, count: nat): nat {
    count * |lay.membership|
  }

  lemma {:induction false} ScanTotal(lay: Layout, mcus: seq<Mcu>, j: nat, dc: bool)
    requires lay.Valid() && ScanCodable(lay, mcus) && j <= |mcus|
    ensures AtMost(ScanCounts(lay, mcus, j, dc), Blocks(lay, j))
    decreases j
  {
    hide AddMcu, Codable, AtMost, ScanCodable;
    if j == 0 {
      NothingTotal();
    } else {
      MulDistributes(j - 1, 1, |lay.membership|);
      ScanTotal(lay, mcus, j - 1, dc);
      McuIsCodable(lay, mcus, j - 1);
      AddMcuTotal(ScanCounts(lay, mcus, j - 1, dc), lay, DcBefore(lay, mcus, j - 1), mcus[j - 1], 0, dc,
                  Blocks(lay, j - 1));
    }
  }

  lemma NothingTotal()
    ensures AtMost(Zeros(), 0)
  {
    forall t | 0 <= t < NUM_HUFF_TBLS
      ensures Total(Zeros()[t]) == 0.0
    {
      Sums.AllZero(Reals(Zeros()[t]));
    }
  }

  /** Every total is small enough for the table generator, as long as there are not more blocks
      than its sentinel values allow for. */
  lemma ScanIsUsable(lay: Layout, mcus: seq<Mcu>)
    requires lay.Valid() && ScanCodable(lay, mcus) && 63 * Blocks(lay, |mcus|) < LIMIT
    ensures AreUsable(lay, ScanCounts(lay, mcus, |mcus|, true), ScanCounts(lay, mcus, |mcus|, false))
  {
    hide ScanCodable, ScanCounts, Blocks, IsCounts;
    forall dc: bool, t: nat | t < NUM_HUFF_TBLS
      ensures AreCounts(ScanCounts(lay, mcus, |mcus|, dc))
      ensures IsCounts(ScanCounts(lay, mcus, |mcus|, dc)[t], if dc then 15 else 255)
    {
      ScanTotal(lay, mcus, |mcus|, dc);
      WithPseudoSymbol(ScanCounts(lay, mcus, |mcus|, dc)[t], Blocks(lay, |mcus|));
      ScanCountsAreUsable(lay, mcus, dc, t);
    }
  }

  lemma WithPseudoSymbol(c: seq<nat>, blocks: nat)
    requires |c| == 257 && Total(c) <= (63 * blocks) as real
    ensures Sums.Sum(Reals(c[256 := 1])) <= (63 * blocks + 1) as real
  {
    TotalUpdate(c, 256, 1);
  }

  /** The scan's own counts have a table each. */
  ghost predicate CanOptimize(lay: Layout, mcus: seq<Mcu>)
    requires lay.Valid() && ScanCodable(lay, mcus)
  {
    var dc, ac := ScanCounts(lay, mcus, |mcus|, true), ScanCounts(lay, mcus, |mcus|, false);
    AreCounts(dc) && AreCounts(ac) && HaveTables(lay, dc, ac)
  }

  /** With at most 146467 blocks every table can be made, whatever the blocks hold. */
  lemma SmallScanHasTables(lay: Layout, mcus: seq<Mcu>)
    requires lay.Valid() && ScanCodable(lay, mcus) && Blocks(lay, |mcus|) <= 146467
    ensures CanOptimize(lay, mcus)
  {
    hide ScanCodable, ScanCounts, Blocks, HasTable;
    forall dc: bool, t: nat | t < NUM_HUFF_TBLS
      ensures AreCounts(ScanCounts(lay, mcus, |mcus|, dc)) && HasTable(ScanCounts(lay, mcus, |mcus|, dc)[t])
    {
      ScanTotal(lay, mcus, |mcus|, dc);
      WithPseudoSymbol(ScanCounts(lay, mcus, |mcus|, dc)[t], Blocks(lay, |mcus|));
      SafeCountsHaveTable(ScanCounts(lay, mcus, |mcus|, dc)[t]);
    }
  }

  // ---------- both passes ----------

  /** The statistics pass over a scan; fails exactly if some coefficient is out of range. */
  method CountScan(lay: Layout, mcus: seq<Mcu>) returns (ok: bool, g: Gatherer)
    requires lay.Valid() && forall i :: 0 <= i < |mcus| ==> |mcus[i]| == |lay.membership|
    ensures fresh(g) && fresh(g.dcCounts) && fresh(g.acCounts)
    ensures ok <==> ScanCodable(lay, mcus)
    ensures ok ==> g.Valid() && g.mcus == mcus && g.lay == lay
  {
    hide Gatherer.Valid, ScanCodable, AllCodable, OpenMcus, Joined;
    g := new Gatherer(lay);
    GathererFacts(g);
    for i := 0 to |mcus|
      invariant g.Valid() && g.mcus == mcus[..i] && g.lay == lay
      invariant fresh(g.dcCounts) && fresh(g.acCounts)
    {
      NextJoins(lay, mcus, i);
      ok := g.EncodeMcu(mcus[i]);
      if !ok {
        if ScanCodable(lay, mcus) {
          ScanPrefix(lay, mcus, i + 1);
        }
        return;
      }
      GathererFacts(g);
    }
    assert mcus[..|mcus|] == mcus;
    GathererFacts(g);
    ok := true;
  }

  lemma GathererFacts(g: Gatherer)
    requires g.Valid()
    ensures g.lay.Valid() && ScanCodable(g.lay, g.mcus) && AreCounters(g.dcCounts, g.acCounts)
    ensures Contents(g.dcCounts) == ScanCounts(g.lay, g.mcus, |g.mcus|, true)
    ensures Contents(g.acCounts) == ScanCounts(g.lay, g.mcus, |g.mcus|, false)
  {
  }

  lemma IsOptimized(cfg: Config, ts: Decoding, mcus: seq<Mcu>)
    requires cfg.Valid() && ScanCodable(cfg.layout, mcus) && AreTables(ts.dc) && AreTables(ts.ac)
    requires var dc, ac := ScanCounts(cfg.layout, mcus, |mcus|, true), ScanCounts(cfg.layout, mcus, |mcus|, false);
             && AreUsable(cfg.layout, dc, ac)
             && forall ci :: 0 <= ci < |cfg.layout.comps| ==>
                  var comp := cfg.layout.comps[ci];
                  && IsTableOf(ts.dc[comp.dcTbl], dc[comp.dcTbl]) && IsDerived(cfg.TablesOf(ci).dc, ts.dc[comp.dcTbl])
                  && IsTableOf(ts.ac[comp.acTbl], ac[comp.acTbl]) && IsDerived(cfg.TablesOf(ci).ac, ts.ac[comp.acTbl])
    ensures Optimized(cfg, ts, mcus) && HasTables(cfg, ts)
  {
    hide ScanCodable, ScanCounts, IsCounts, IsTableOf, IsDerived, IsTables, IsTable;
  }

  /** Tables made from usable counts are accepted by the derivation. */
  lemma MadeAreAcceptable(lay: Layout, dc: Counts, ac: Counts, ts: Decoding)
    requires lay.Valid() && AreUsable(lay, dc, ac) && AreTables(ts.dc) && AreTables(ts.ac)
    requires forall ci :: 0 <= ci < |lay.comps| ==>
               var comp := lay.comps[ci];
               IsTableOf(ts.dc[comp.dcTbl], dc[comp.dcTbl]) && IsTableOf(ts.ac[comp.acTbl], ac[comp.acTbl])
    ensures forall ci :: 0 <= ci < |lay.comps| ==>
              var comp := lay.comps[ci];
              Acceptable(ts.dc[comp.dcTbl], 15) && Acceptable(ts.ac[comp.acTbl], 255)
  {
    hide IsCounts, IsTableOf, IsTable, Acceptable;
    forall ci | 0 <= ci < |lay.comps|
      ensures Acceptable(ts.dc[lay.comps[ci].dcTbl], 15) && Acceptable(ts.ac[lay.comps[ci].acTbl], 255)
    {
      var comp := lay.comps[ci];
      TableIsAcceptable(ts.dc[comp.dcTbl], dc[comp.dcTbl], 15);
      TableIsAcceptable(ts.ac[comp.acTbl], ac[comp.acTbl], 255);
    }
  }

  /** The tables of a scan's own symbols, made and derived. */
  method OptimizeTables(lay: Layout, mcus: seq<Mcu>, dcTbls: seq<Table>, acTbls: seq<Table>)
    returns (ok: bool, cfg: Config, ts: Decoding)
    requires lay.Valid() && forall i :: 0 <= i < |mcus| ==> |mcus[i]| == |lay.membership|
    requires 63 * Blocks(lay, |mcus|) < LIMIT && AreTables(dcTbls) && AreTables(acTbls)
    ensures ok <==> ScanCodable(lay, mcus) && CanOptimize(lay, mcus)
    ensures ok ==> cfg.layout == lay && Optimized(cfg, ts, mcus) && HasTables(cfg, ts)
  {
    hide ScanCodable, ScanCounts, AreUsable, HaveTables, IsTableOf, IsDerived, IsTables, AreTables, Acceptable;
    hide Gatherer.Valid, Blocks, Contents;
    cfg, ts := Config(lay, [], []), Decoding(dcTbls, acTbls);
    var g;
    ok, g := CountScan(lay, mcus);
    if !ok {
      return;
    }
    GathererFacts(g);
    ScanIsUsable(lay, mcus);
    UsableCounts(lay, Contents(g.dcCounts), Contents(g.acCounts));
    var made := FinishPassGather(lay, g.dcCounts, g.acCounts, dcTbls, acTbls);
    if made.None? {
      return false, cfg, ts;
    }
    ts := made.value;
    MadeAreAcceptable(lay, ScanCounts(lay, mcus, |mcus|, true), ScanCounts(lay, mcus, |mcus|, false), ts);
    var derived := DeriveTables(lay, ts);
    cfg := derived.value;
    IsOptimized(cfg, ts, mcus);
  }

  lemma UsableCounts(lay: Layout, dc: Counts, ac: Counts)
    requires lay.Valid() && AreUsable(lay, dc, ac)
    ensures AreCounts(dc) && AreCounts(ac)
  {
  }

  /**
   * Two passes over a scan. It works exactly if no coefficient is out of range and the counts
   * have tables, for which it is enough to have few blocks; and then decoding the output with
   * the tables made gives back the MCUs.
   */
  method EncodeOptimized(lay: Layout, mcus: seq<Mcu>, dcTbls: seq<Table>, acTbls: seq<Table>, n: nat,
                         dest: Destination, drains: seq<nat>)
    returns (finished: bool, cfg: Config, ts: Decoding)
    requires lay.Valid() && forall i :: 0 <= i < |mcus| ==> |mcus[i]| == |lay.membership|
    requires 63 * Blocks(lay, |mcus|) < LIMIT && AreTables(dcTbls) && AreTables(acTbls)
    requires (n == 8 || n == 4) && dest.Valid() && dest.Data() == []
    modifies dest, dest.buffer
    ensures finished ==> ScanCodable(lay, mcus) && CanOptimize(lay, mcus)
    ensures finished ==> cfg.layout == lay && HasTables(cfg, ts) && dest.next <= dest.buffer.Length
    ensures finished ==> forall tail :: AtMarker(tail) ==>
            ReadScan(cfg, ts, dest.Data() + tail, |mcus|, 0) == Some(mcus)
    ensures !dest.suspending || DrainsEnough(lay, dest.buffer.Length, |mcus|, drains) ==>
              (finished <==> ScanCodable(lay, mcus) && CanOptimize(lay, mcus))
    ensures Blocks(lay, |mcus|) <= 146467 && ScanCodable(lay, mcus) ==> CanOptimize(lay, mcus)
  {
    hide ScanCodable, CanOptimize, Optimized, HasTables, ReadScan, ScanBytes, AtMarker, DrainsEnough, Blocks;
    hide ScanWriter.Valid, AreTables, IsTables;
    if Blocks(lay, |mcus|) <= 146467 && ScanCodable(lay, mcus) {
      SmallScanHasTables(lay, mcus);
    }
    finished, cfg, ts := OptimizeTables(lay, mcus, dcTbls, acTbls);
    if !finished {
      return;
    }
    OptimizedIsValid(cfg, ts, mcus);
    var w := new ScanWriter(cfg, n, dest);
    finished := EncodeScan(w, mcus, drains);
    if finished {
      forall tail | AtMarker(tail)
        ensures ReadScan(cfg, ts, dest.Data() + tail, |mcus|, 0) == Some(mcus)
      {
        OptimizedScanRoundTrip(cfg, ts, mcus, tail);
      }
    }
  }

  lemma OptimizedIsValid(cfg: Config, ts: Decoding, mcus: seq<Mcu>)
    requires ScanCodable(cfg.layout, mcus) && Optimized(cfg, ts, mcus)
    ensures cfg.Valid()
  {
  }
}
