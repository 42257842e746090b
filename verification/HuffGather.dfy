/**
 * The statistics pass (encode_mcu_gather, htest_one_block, finish_pass_gather): it counts the
 * symbols that the output pass will send for the same MCUs, so that with tables made from the
 * counts no symbol is ever without a code.
 */
module HuffGather {
  import opened Powers
  import opened HuffTable
  import HuffTree
  import MergeSteps
  import opened OptimalTable
  import opened BlockSymbols
  import opened BlockCoder
  import opened RestartIntervals
  import opened Mcus
  import opened HuffScan
  import opened HuffScanDecoder
  import Sums
  import opened ZigZag

  // ---------- what the output pass sends ----------

  function TableNo(comp: Component, dc: bool): nat {
    if dc then comp.dcTbl else comp.acTbl
  }

  /** Symbol counts by table number. */
  type Counts = seq<seq<nat>>

  function Zeros(): (c: Counts)
    ensures |c| == NUM_HUFF_TBLS && forall t :: 0 <= t < |c| ==> |c[t]| == 257
  {
    seq(NUM_HUFF_TBLS, _ => seq(257, _ => 0))
  }

  /** The symbols of a block of component ci added to the counts of its DC or AC table. */
  function AddBlock(counts: Counts, lay: Layout, ci: nat, items: seq<Item>, dc: bool): (c: Counts)
    requires ci < |lay.comps|
    ensures |c| == |counts|
  {
    var t := TableNo(lay.comps[ci], dc);
    if t < |counts| then counts[t := Counted(counts[t], items, dc)] else counts
  }

  /** The same for the blocks of an MCU from block b on. */
  function AddMcu(counts: Counts, lay: Layout, lastDc: seq<int>, mcu: Mcu, b: nat, dc: bool): (c: Counts)
    requires Fits(lay, lastDc, mcu) && b <= |mcu| && Codable(lay, lastDc, mcu, b)
    ensures |c| == |counts|
    decreases |mcu| - b
  {
    if b == |mcu| then counts
    else
      var ci := lay.membership[b];
      var items := BlockItems(mcu[b][0] - lastDc[ci], ToZigZag(mcu[b]), lay.precision + 2);
      AddMcu(AddBlock(counts, lay, ci, items, dc), lay, lastDc[ci := mcu[b][0]], mcu, b + 1, dc)
  }

  /** The DC predictions that MCU number j of a scan starts from. */
  ghost function DcBefore(lay: Layout, mcus: seq<Mcu>, j: nat): seq<int>
    requires ScanCodable(lay, mcus) && j <= |mcus|
  {
    JoinedIsCodable(lay, mcus, j);
    AfterMcus(lay, FreshDc(lay), Joined(lay.interval, mcus[..j]))
  }

  lemma JoinedIsCodable(lay: Layout, mcus: seq<Mcu>, j: nat)
    requires ScanCodable(lay, mcus) && j <= |mcus|
    ensures AllCodable(lay, FreshDc(lay), Joined(lay.interval, mcus[..j]))
  {
    hide OpenMcus;
    ScanPrefix(lay, mcus, j);
  }

  lemma {:induction false} LastIsCodable(lay: Layout, lastDc: seq<int>, mcus: seq<Mcu>, mcu: Mcu)
    requires AllCodable(lay, lastDc, mcus) && AllCodable(lay, lastDc, mcus + [mcu])
    ensures var dc := AfterMcus(lay, lastDc, mcus); Fits(lay, dc, mcu) && Codable(lay, dc, mcu, 0)
    decreases |mcus|
  {
    hide Codable, AfterMcu;
    var all := mcus + [mcu];
    if mcus == [] {
      assert all[0] == mcu;
    } else {
      assert all[0] == mcus[0] && all[1..] == mcus[1..] + [mcu];
      LastIsCodable(lay, AfterMcu(lay, lastDc, mcus[0], 0), mcus[1..], mcu);
    }
  }

  lemma McuIsCodable(lay: Layout, mcus: seq<Mcu>, j: nat)
    requires ScanCodable(lay, mcus) && j < |mcus|
    ensures var dc := DcBefore(lay, mcus, j); Fits(lay, dc, mcus[j]) && Codable(lay, dc, mcus[j], 0)
  {
    hide ScanCodable, AllCodable, OpenMcus, Joined, AfterMcus, Codable;
    JoinedIsCodable(lay, mcus, j);
    ScanPrefix(lay, mcus, j + 1);
    NextJoins(lay, mcus, j);
    LastIsCodable(lay, FreshDc(lay), Joined(lay.interval, mcus[..j]), mcus[j]);
  }

  /** The symbols of the first j MCUs of a scan. */
  ghost function ScanCounts(lay: Layout, mcus: seq<Mcu>, j: nat, dc: bool): (c: Counts)
    requires ScanCodable(lay, mcus) && j <= |mcus|
    ensures |c| == NUM_HUFF_TBLS
    decreases j
  {
    if j == 0 then Zeros()
    else
      McuIsCodable(lay, mcus, j - 1);
      AddMcu(ScanCounts(lay, mcus, j - 1, dc), lay, DcBefore(lay, mcus, j - 1), mcus[j - 1], 0, dc)
  }

  /** An earlier part of the scan is counted the same, whatever follows. */
  lemma {:induction false} CountsOfPrefix(lay: Layout, mcus: seq<Mcu>, more: seq<Mcu>, j: nat, dc: bool)
    requires ScanCodable(lay, mcus) && ScanCodable(lay, mcus + more) && j <= |mcus|
    ensures ScanCounts(lay, mcus + more, j, dc) == ScanCounts(lay, mcus, j, dc)
    decreases j
  {
    if j > 0 {
      CountsOfPrefix(lay, mcus, more, j - 1, dc);
      assert (mcus + more)[..j - 1] == mcus[..j - 1];
    }
  }

  // ---------- counting ----------

  /** Arrays of 257 counters, all different. */
  ghost predicate AreCounters(dcCounts: seq<array<nat>>, acCounts: seq<array<nat>>) {
    && |dcCounts| == |acCounts| == NUM_HUFF_TBLS
    && (forall i :: 0 <= i < |dcCounts| ==> dcCounts[i].Length == 257 && acCounts[i].Length == 257)
    && (forall i, j :: 0 <= i < |dcCounts| && 0 <= j < |acCounts| ==> dcCounts[i] != acCounts[j])
    && (forall i, j :: 0 <= i < j < |dcCounts| ==> dcCounts[i] != dcCounts[j] && acCounts[i] != acCounts[j])
  }

  ghost function Contents(counters: seq<array<nat>>): (c: Counts)
    reads counters
    ensures |c| == |counters| && forall t :: 0 <= t < |c| ==> c[t] == counters[t][..]
  {
    seq(|counters|, t requires 0 <= t < |counters| reads counters => counters[t][..])
  }

  /** Counts the symbols of one block into the tables of its component. */
  method CountInto(lay: Layout, ci: nat, block: Block, lastDc: int, dcCounts: seq<array<nat>>,
                   acCounts: seq<array<nat>>)
    returns (ok: bool)
    requires lay.Valid() && ci < |lay.comps| && AreCounters(dcCounts, acCounts)
    modifies dcCounts, acCounts
    ensures ok <==> InRange(block[0] - lastDc, ToZigZag(block), lay.precision + 2)
    ensures ok ==>
              var items := BlockItems(block[0] - lastDc, ToZigZag(block), lay.precision + 2);
              && Contents(dcCounts) == AddBlock(old(Contents(dcCounts)), lay, ci, items, true)
              && Contents(acCounts) == AddBlock(old(Contents(acCounts)), lay, ci, items, false)
  {
    hide InRange, BlockItems, Counted;
    var comp := lay.comps[ci];
    var dc, ac := dcCounts[comp.dcTbl], acCounts[comp.acTbl];
    ok := CountBlock(block, lastDc, lay.precision, dc, ac);
    if ok {
      ghost var items := BlockItems(block[0] - lastDc, ToZigZag(block), lay.precision + 2);
      assert Contents(dcCounts) == AddBlock(old(Contents(dcCounts)), lay, ci, items, true);
      assert Contents(acCounts) == AddBlock(old(Contents(acCounts)), lay, ci, items, false);
    }
  }

  /** The blocks of an MCU. */
  method CountBlocks(lay: Layout, lastDc0: seq<int>, mcu: Mcu, dcCounts: seq<array<nat>>, acCounts: seq<array<nat>>)
    returns (ok: bool, lastDc: seq<int>)
    requires Fits(lay, lastDc0, mcu) && AreCounters(dcCounts, acCounts)
    modifies dcCounts, acCounts
    ensures ok <==> Codable(lay, lastDc0, mcu, 0)
    ensures ok ==> lastDc == AfterMcu(lay, lastDc0, mcu, 0)
    ensures ok ==> Contents(dcCounts) == AddMcu(old(Contents(dcCounts)), lay, lastDc0, mcu, 0, true)
    ensures ok ==> Contents(acCounts) == AddMcu(old(Contents(acCounts)), lay, lastDc0, mcu, 0, false)
  {
    hide InRange, BlockItems, AddBlock, Contents, ToZigZag, Codable, AfterMcu, AddMcu;
    lastDc := lastDc0;
    ghost var good := Codable(lay, lastDc0, mcu, 0);
    ghost var dcAll := if good then AddMcu(Contents(dcCounts), lay, lastDc0, mcu, 0, true) else [];
    ghost var acAll := if good then AddMcu(Contents(acCounts), lay, lastDc0, mcu, 0, false) else [];
    var b := 0;
    while b < |mcu|
      invariant 0 <= b <= |mcu| && Fits(lay, lastDc, mcu)
      invariant good <==> Codable(lay, lastDc, mcu, b)
      invariant AfterMcu(lay, lastDc, mcu, b) == AfterMcu(lay, lastDc0, mcu, 0)
      invariant good ==> AddMcu(Contents(dcCounts), lay, lastDc, mcu, b, true) == dcAll
      invariant good ==> AddMcu(Contents(acCounts), lay, lastDc, mcu, b, false) == acAll
    {
      var ci := lay.membership[b];
      NextBlock(lay, lastDc, mcu, b, Contents(dcCounts), true);
      NextBlock(lay, lastDc, mcu, b, Contents(acCounts), false);
      ok := CountInto(lay, ci, mcu[b], lastDc[ci], dcCounts, acCounts);
      if !ok {
        return;
      }
      lastDc := lastDc[ci := mcu[b][0]];
      b := b + 1;
    }
    NoBlockLeft(lay, lastDc, mcu, Contents(dcCounts), true);
    NoBlockLeft(lay, lastDc, mcu, Contents(acCounts), false);
    ok := true;
  }

  lemma NextBlock(lay: Layout, lastDc: seq<int>, mcu: Mcu, b: nat, counts: Counts, dc: bool)
    requires Fits(lay, lastDc, mcu) && b < |mcu|
    ensures var ci := lay.membership[b];
            var diff, next := mcu[b][0] - lastDc[ci], lastDc[ci := mcu[b][0]];
            && AfterMcu(lay, lastDc, mcu, b) == AfterMcu(lay, next, mcu, b + 1)
            && (Codable(lay, lastDc, mcu, b) <==>
                  InRange(diff, ToZigZag(mcu[b]), lay.precision + 2) && Codable(lay, next, mcu, b + 1))
            && (Codable(lay, lastDc, mcu, b) ==>
                  var items := BlockItems(diff, ToZigZag(mcu[b]), lay.precision + 2);
                  AddMcu(counts, lay, lastDc, mcu, b, dc)
                  == AddMcu(AddBlock(counts, lay, ci, items, dc), lay, next, mcu, b + 1, dc))
  {
    hide InRange, BlockItems, AddBlock, ToZigZag;
  }

  lemma NoBlockLeft(lay: Layout, lastDc: seq<int>, mcu: Mcu, counts: Counts, dc: bool)
    requires Fits(lay, lastDc, mcu)
    ensures Codable(lay, lastDc, mcu, |mcu|) && AfterMcu(lay, lastDc, mcu, |mcu|) == lastDc
    ensures AddMcu(counts, lay, lastDc, mcu, |mcu|, dc) == counts
  {
  }

  /** The statistics tables of one kind, zeroed. */
  method NewCounters() returns (c: seq<array<nat>>)
    ensures |c| == NUM_HUFF_TBLS && Contents(c) == Zeros()
    ensures forall t :: 0 <= t < NUM_HUFF_TBLS ==> c[t].Length == 257 && fresh(c[t])
    ensures forall i, j :: 0 <= i < j < NUM_HUFF_TBLS ==> c[i] != c[j]
  {
    c := [];
    while |c| < NUM_HUFF_TBLS
      invariant |c| <= NUM_HUFF_TBLS
      invariant forall t :: 0 <= t < |c| ==> c[t].Length == 257 && fresh(c[t]) && c[t][..] == seq(257, _ => 0)
      invariant forall i, j :: 0 <= i < j < |c| ==> c[i] != c[j]
    {
      var next := new nat[257](_ => 0);
      c := c + [next];
    }
  }

  /** The entropy encoder while it gathers statistics. */
  class Gatherer {
    const lay: Layout
    const dcCounts: seq<array<nat>>
    const acCounts: seq<array<nat>>
    var lastDc: seq<int>
    var restartsToGo: nat

    ghost var mcus: seq<Mcu>   // the MCUs seen

    /** The counts are those of the symbols that the MCUs seen are sent with. */
    ghost predicate Valid()
      reads this, dcCounts, acCounts
    {
      && lay.Valid() && AreCounters(dcCounts, acCounts)
      && ScanCodable(lay, mcus) && AllCodable(lay, FreshDc(lay), OpenMcus(lay.interval, mcus))
      && Contents(dcCounts) == ScanCounts(lay, mcus, |mcus|, true)
      && Contents(acCounts) == ScanCounts(lay, mcus, |mcus|, false)
      && lastDc == AfterMcus(lay, FreshDc(lay), OpenMcus(lay.interval, mcus)) && |lastDc| == |lay.comps|
      && (lay.interval > 0 ==> restartsToGo == lay.interval - OpenSize(lay.interval, |mcus|))
    }

    /** start_pass_huff: all counts are zero. */
    constructor (lay: Layout)
      requires lay.Valid()
      ensures Valid() && mcus == [] && this.lay == lay
      ensures forall t :: 0 <= t < NUM_HUFF_TBLS ==> fresh(dcCounts[t]) && fresh(acCounts[t])
    {
      hide Codable, AllCodable, ScanCodable, AfterMcus, OpenMcus, ScanCounts, FreshDc, Contents, OpenSize, Zeros;
      EmptyScan(lay);
      this.lay := lay;
      var dc := NewCounters();
      var ac := NewCounters();
      dcCounts, acCounts := dc, ac;
      lastDc, restartsToGo, mcus := FreshDc(lay), lay.interval, [];
      new;
    }

    /** encode_mcu_gather: no restart marker is written, but predictions start afresh where one
        would be. */
    method EncodeMcu(mcu: Mcu) returns (ok: bool)
      requires Valid() && |mcu| == |lay.membership|
      modifies this, dcCounts, acCounts
      ensures ok ==> Valid() && mcus == old(mcus) + [mcu]
      ensures ok <==> AllCodable(lay, FreshDc(lay), Joined(lay.interval, old(mcus)) + [mcu])
    {
      hide Codable, AllCodable, ScanCodable, AfterMcu, AfterMcus, OpenMcus, AddMcu;
      hide ScanCounts, FreshDc, Contents, OpenSize, AreCounters;
      hide Joined, NextNum;
      OneMoreMcu(lay.interval, |mcus|, 0);
      StartsFrom(lay, mcus, mcu);
      if lay.interval > 0 {
        if restartsToGo == 0 {
          lastDc := FreshDc(lay);
          restartsToGo := lay.interval;
        }
        restartsToGo := restartsToGo - 1;
      }
      ok, lastDc := CountBlocks(lay, lastDc, mcu, dcCounts, acCounts);
      mcus := mcus + [mcu];
    }
  }

  lemma EmptyScan(lay: Layout)
    requires lay.Valid()
    ensures ScanCodable(lay, []) && AllCodable(lay, FreshDc(lay), OpenMcus(lay.interval, []))
    ensures AfterMcus(lay, FreshDc(lay), OpenMcus(lay.interval, [])) == FreshDc(lay) && |FreshDc(lay)| == |lay.comps|
    ensures ScanCounts(lay, [], 0, true) == ScanCounts(lay, [], 0, false) == Zeros()
    ensures OpenSize(lay.interval, 0) == 0
  {
    OnlyCodable(lay, []);
  }

  lemma StartsFrom(lay: Layout, mcus: seq<Mcu>, mcu: Mcu)
    requires lay.Valid() && ScanCodable(lay, mcus) && |mcu| == |lay.membership|
    ensures AllCodable(lay, FreshDc(lay), OpenMcus(lay.interval, mcus))
            && AllCodable(lay, FreshDc(lay), Joined(lay.interval, mcus))
    ensures AfterMcus(lay, FreshDc(lay), Joined(lay.interval, mcus))
         == if Full(lay.interval, |mcus|) then FreshDc(lay)
             else AfterMcus(lay, FreshDc(lay), OpenMcus(lay.interval, mcus))
    ensures var dc := AfterMcus(lay, FreshDc(lay), Joined(lay.interval, mcus));
            && |dc| == |lay.comps|
            && (AllCodable(lay, FreshDc(lay), Joined(lay.interval, mcus) + [mcu]) <==> Codable(lay, dc, mcu, 0))
            && (Codable(lay, dc, mcu, 0) ==>
                && ScanCodable(lay, mcus + [mcu])
                && AllCodable(lay, FreshDc(lay), OpenMcus(lay.interval, mcus + [mcu]))
                && AfterMcus(lay, FreshDc(lay), OpenMcus(lay.interval, mcus + [mcu])) == AfterMcu(lay, dc, mcu, 0)
                && ScanCounts(lay, mcus + [mcu], |mcus| + 1, true)
                   == AddMcu(ScanCounts(lay, mcus, |mcus|, true), lay, dc, mcu, 0, true)
                && ScanCounts(lay, mcus + [mcu], |mcus| + 1, false)
                   == AddMcu(ScanCounts(lay, mcus, |mcus|, false), lay, dc, mcu, 0, false))
  {
    hide Codable, AllCodable, ScanCodable, AfterMcu, AddMcu, OpenMcus, FreshDc;
    ScanPrefix(lay, mcus, |mcus|);
    assert mcus[..|mcus|] == mcus;
    JoinedIsCodable(lay, mcus, |mcus|);
    DcLength(lay, FreshDc(lay), Joined(lay.interval, mcus));
    var dc := AfterMcus(lay, FreshDc(lay), Joined(lay.interval, mcus));
    CodableSnoc(lay, FreshDc(lay), Joined(lay.interval, mcus), mcu);
    if Codable(lay, dc, mcu, 0) {
      CodableGrows(lay, mcus, mcu);
      CountsOfPrefix(lay, mcus, [mcu], |mcus|, true);
      CountsOfPrefix(lay, mcus, [mcu], |mcus|, false);
      assert (mcus + [mcu])[..|mcus|] == mcus;
    }
  }

  lemma {:induction false} DcLength(lay: Layout, lastDc: seq<int>, mcus: seq<Mcu>)
    requires AllCodable(lay, lastDc, mcus)
    ensures |AfterMcus(lay, lastDc, mcus)| == |lastDc|
    decreases |mcus|
  {
    if mcus != [] {
      DcLength(lay, AfterMcu(lay, lastDc, mcus[0], 0), mcus[1..]);
    }
  }

  // ---------- every symbol that is sent has been counted ----------

  ghost predicate AreCounts(c: Counts) {
    |c| == NUM_HUFF_TBLS && forall t :: 0 <= t < |c| ==> |c[t]| == 257
  }

  ghost predicate Below(c: Counts, f: Counts) {
    && AreCounts(c) && AreCounts(f)
    && forall t, v :: 0 <= t < NUM_HUFF_TBLS && 0 <= v < 257 ==> c[t][v] <= f[t][v]
  }

  lemma AddBlockGrows(c: Counts, lay: Layout, ci: nat, items: seq<Item>, dc: bool)
    requires AreCounts(c) && ci < |lay.comps|
    ensures Below(c, AddBlock(c, lay, ci, items, dc))
  {
  }

  lemma {:induction false} AddMcuGrows(c: Counts, lay: Layout, lastDc: seq<int>, mcu: Mcu, b: nat, dc: bool)
    requires AreCounts(c) && Fits(lay, lastDc, mcu) && b <= |mcu| && Codable(lay, lastDc, mcu, b)
    ensures Below(c, AddMcu(c, lay, lastDc, mcu, b, dc))
    decreases |mcu| - b
  {
    hide AddBlock, BlockItems, InRange;
    if b < |mcu| {
      var ci := lay.membership[b];
      var items := BlockItems(mcu[b][0] - lastDc[ci], ToZigZag(mcu[b]), lay.precision + 2);
      AddBlockGrows(c, lay, ci, items, dc);
      AddMcuGrows(AddBlock(c, lay, ci, items, dc), lay, lastDc[ci := mcu[b][0]], mcu, b + 1, dc);
    }
  }

  lemma {:induction false} ScanCountsGrow(lay: Layout, mcus: seq<Mcu>, i: nat, j: nat, dc: bool)
    requires ScanCodable(lay, mcus) && i <= j <= |mcus|
    ensures Below(ScanCounts(lay, mcus, i, dc), ScanCounts(lay, mcus, j, dc))
    decreases j
  {
    hide AddMcu, Codable;
    if j > 0 {
      ScanCountsGrow(lay, mcus, if i < j then i else j - 1, j - 1, dc);
      McuIsCodable(lay, mcus, j - 1);
      AddMcuGrows(ScanCounts(lay, mcus, j - 1, dc), lay, DcBefore(lay, mcus, j - 1), mcus[j - 1], 0, dc);
    }
  }

  /** The tables have a code for every symbol with a count. */
  ghost predicate CodesFor(cfg: Config, dcCounts: Counts, acCounts: Counts) {
    && cfg.Valid() && AreCounts(dcCounts) && AreCounts(acCounts)
    && forall ci, v :: 0 <= ci < |cfg.layout.comps| && 0 <= v < 256 ==>
         && (dcCounts[cfg.layout.comps[ci].dcTbl][v] > 0 ==> cfg.TablesOf(ci).dc.ehufsi[v] > 0)
         && (acCounts[cfg.layout.comps[ci].acTbl][v] > 0 ==> cfg.TablesOf(ci).ac.ehufsi[v] > 0)
  }

  lemma BlockIsCoded(cfg: Config, dcC: Counts, acC: Counts, ci: nat, items: seq<Item>, dcF: Counts, acF: Counts)
    requires CodesFor(cfg, dcF, acF) && ci < |cfg.layout.comps| && AreCounts(dcC) && AreCounts(acC)
    requires Below(AddBlock(dcC, cfg.layout, ci, items, true), dcF)
    requires Below(AddBlock(acC, cfg.layout, ci, items, false), acF)
    ensures AllCoded(items, cfg.TablesOf(ci))
  {
    forall i | 0 <= i < |items|
      ensures TableOf(items[i], cfg.TablesOf(ci)).ehufsi[items[i].symbol] > 0
    {
      ItemOccurs(items, i);
      var t := TableNo(cfg.layout.comps[ci], items[i].dc);
      assert (if items[i].dc then dcF else acF)[t][items[i].symbol] > 0;
    }
  }

  lemma {:induction false} McuIsCoded(cfg: Config, dcC: Counts, acC: Counts, lastDc: seq<int>, mcu: Mcu, b: nat,
                                      dcF: Counts, acF: Counts)
    requires CodesFor(cfg, dcF, acF) && AreCounts(dcC) && AreCounts(acC)
    requires Fits(cfg.layout, lastDc, mcu) && b <= |mcu| && Codable(cfg.layout, lastDc, mcu, b)
    requires Below(AddMcu(dcC, cfg.layout, lastDc, mcu, b, true), dcF)
    requires Below(AddMcu(acC, cfg.layout, lastDc, mcu, b, false), acF)
    ensures McuCoded(cfg, lastDc, mcu, b)
    decreases |mcu| - b
  {
    hide AddBlock, BlockItems, InRange, CodesFor, AllCoded, Below, IsTables;
    ValidConfig(cfg, dcF, acF);
    if b < |mcu| {
      var lay, ci := cfg.layout, cfg.layout.membership[b];
      var items := BlockItems(mcu[b][0] - lastDc[ci], ToZigZag(mcu[b]), lay.precision + 2);
      var dc' := lastDc[ci := mcu[b][0]];
      var dcB, acB := AddBlock(dcC, lay, ci, items, true), AddBlock(acC, lay, ci, items, false);
      AddBlockGrows(dcC, lay, ci, items, true);
      AddBlockGrows(acC, lay, ci, items, false);
      BelowCounts(dcC, dcB);
      BelowCounts(acC, acB);
      AddMcuGrows(dcB, lay, dc', mcu, b + 1, true);
      AddMcuGrows(acB, lay, dc', mcu, b + 1, false);
      BelowAll(dcB, AddMcu(dcB, lay, dc', mcu, b + 1, true), dcF);
      BelowAll(acB, AddMcu(acB, lay, dc', mcu, b + 1, false), acF);
      BlockIsCoded(cfg, dcC, acC, ci, items, dcF, acF);
      McuIsCoded(cfg, dcB, acB, dc', mcu, b + 1, dcF, acF);
    }
  }

  lemma ValidConfig(cfg: Config, dcF: Counts, acF: Counts)
    requires CodesFor(cfg, dcF, acF)
    ensures cfg.Valid()
  {
  }

  lemma BelowCounts(c: Counts, f: Counts)
    requires Below(c, f)
    ensures AreCounts(c) && AreCounts(f)
  {
  }

  lemma BelowAll(c: Counts, d: Counts, f: Counts)
    requires Below(c, d) && Below(d, f)
    ensures Below(c, f)
  {
    forall t, v | 0 <= t < NUM_HUFF_TBLS && 0 <= v < 257
      ensures c[t][v] <= f[t][v]
    {
      assert c[t][v] <= d[t][v] <= f[t][v];
    }
  }

  /** MCU by MCU is interval by interval. */
  lemma {:induction false} CodedIfEach(cfg: Config, lastDc: seq<int>, mcus: seq<Mcu>)
    requires cfg.Valid() && AllCodable(cfg.layout, lastDc, mcus)
    requires forall j :: 0 <= j < |mcus| ==> EachCoded(cfg, lastDc, mcus, j)
    ensures McusCoded(cfg, lastDc, mcus)
    decreases |mcus|
  {
    hide McuCoded, AfterMcu, Codable;
    if mcus != [] {
      var dc := AfterMcu(cfg.layout, lastDc, mcus[0], 0);
      forall j | 0 <= j < |mcus| - 1
        ensures EachCoded(cfg, dc, mcus[1..], j)
      {
        assert EachCoded(cfg, lastDc, mcus, j + 1);
        assert mcus[..j + 1][0] == mcus[0] && mcus[..j + 1][1..] == mcus[1..][..j];
      }
      CodedIfEach(cfg, dc, mcus[1..]);
      assert EachCoded(cfg, lastDc, mcus, 0);
      assert mcus[..0] == [];
    }
  }

  ghost predicate EachCoded(cfg: Config, lastDc: seq<int>, mcus: seq<Mcu>, j: nat)
    requires cfg.Valid() && j < |mcus|
  {
    && AllCodable(cfg.layout, lastDc, mcus[..j])
    && var dc := AfterMcus(cfg.layout, lastDc, mcus[..j]);
       Fits(cfg.layout, dc, mcus[j]) && Codable(cfg.layout, dc, mcus[j], 0) && McuCoded(cfg, dc, mcus[j], 0)
  }

  /** MCU j of a scan has a code for all its symbols. */
  ghost predicate CodedAt(cfg: Config, mcus: seq<Mcu>, j: nat)
    requires cfg.Valid() && ScanCodable(cfg.layout, mcus) && j < |mcus|
  {
    McuIsCodable(cfg.layout, mcus, j);
    McuCoded(cfg, DcBefore(cfg.layout, mcus, j), mcus[j], 0)
  }

  lemma DcBehind(lay: Layout, mcus: seq<Mcu>, j: nat)
    requires 0 < lay.interval < |mcus| && j <= |mcus| - lay.interval
    ensures Joined(lay.interval, mcus[lay.interval..][..j]) == Joined(lay.interval, mcus[..lay.interval + j])
  {
    var k := lay.interval;
    assert mcus[..k + j][k..] == mcus[k..][..j];
    if j > 0 {
      OpenBehind(lay.interval, mcus[..k + j]);
      assert OpenSize(k, k + j) == OpenSize(k, j);
    }
  }

  lemma FirstIsCoded(cfg: Config, mcus: seq<Mcu>)
    requires cfg.Valid() && ScanCodable(cfg.layout, mcus)
    requires forall j :: 0 <= j < |mcus| ==> CodedAt(cfg, mcus, j)
    ensures var g := GroupSize(cfg.layout.interval, |mcus|);
            AllCodable(cfg.layout, FreshDc(cfg.layout), mcus[..g]) && McusCoded(cfg, FreshDc(cfg.layout), mcus[..g])
  {
    hide McuCoded, AllCodable, OpenMcus, AfterMcus, Codable;
    var lay, g := cfg.layout, GroupSize(cfg.layout.interval, |mcus|);
    forall j | 0 <= j < g
      ensures EachCoded(cfg, FreshDc(lay), mcus[..g], j)
    {
      assert CodedAt(cfg, mcus, j);
      McuIsCodable(lay, mcus, j);
      JoinedIsCodable(lay, mcus, j);
      OnlyCodable(lay, mcus[..j]);
      assert mcus[..g][..j] == mcus[..j];
    }
    CodedIfEach(cfg, FreshDc(lay), mcus[..g]);
  }

  lemma {:induction false} ScanCodedIfEach(cfg: Config, mcus: seq<Mcu>)
    requires cfg.Valid() && ScanCodable(cfg.layout, mcus)
    requires forall j :: 0 <= j < |mcus| ==> CodedAt(cfg, mcus, j)
    ensures ScanCoded(cfg, mcus)
    decreases |mcus|
  {
    hide McuCoded, AllCodable, OpenMcus, AfterMcus, Codable, McusCoded, Joined;
    var k := cfg.layout.interval;
    FirstIsCoded(cfg, mcus);
    if 0 < k < |mcus| {
      FirstCodable(cfg.layout, mcus);
      forall j | 0 <= j < |mcus| - k
        ensures CodedAt(cfg, mcus[k..], j)
      {
        assert CodedAt(cfg, mcus, k + j);
        DcBehind(cfg.layout, mcus, j);
      }
      ScanCodedIfEach(cfg, mcus[k..]);
    }
  }

  /** Tables with a code for every symbol counted have one for every symbol that is sent. */
  lemma CountedScanIsCoded(cfg: Config, mcus: seq<Mcu>)
    requires cfg.Valid() && ScanCodable(cfg.layout, mcus)
    requires CodesFor(cfg, ScanCounts(cfg.layout, mcus, |mcus|, true), ScanCounts(cfg.layout, mcus, |mcus|, false))
    ensures ScanCoded(cfg, mcus)
  {
    hide McuCoded, Codable, AddMcu, ScanCodable, DcBefore, CodesFor;
    var lay, n := cfg.layout, |mcus|;
    forall j | 0 <= j < n
      ensures CodedAt(cfg, mcus, j)
    {
      McuIsCodable(lay, mcus, j);
      ScanCountsGrow(lay, mcus, j, n, true);
      ScanCountsGrow(lay, mcus, j, n, false);
      ScanCountsGrow(lay, mcus, j + 1, n, true);
      ScanCountsGrow(lay, mcus, j + 1, n, false);
      McuIsCoded(cfg, ScanCounts(lay, mcus, j, true), ScanCounts(lay, mcus, j, false),
                 DcBefore(lay, mcus, j), mcus[j], 0,
                 ScanCounts(lay, mcus, n, true), ScanCounts(lay, mcus, n, false));
    }
    ScanCodedIfEach(cfg, mcus);
  }

  /** A table that jpeg_gen_optimal_table has made from counts, and what is derived from it. */
  ghost predicate MadeFrom(freq: seq<nat>, maxSymbol: nat, t: Table, d: Derived) {
    IsCounts(freq, maxSymbol) && IsTableOf(t, freq) && IsDerived(d, t)
  }

  lemma MadeTableHasCodes(freq: seq<nat>, maxSymbol: nat, t: Table, d: Derived, v: nat)
    requires MadeFrom(freq, maxSymbol, t, d) && v < 256 && freq[v] > 0
    ensures |d.ehufsi| == 256 && d.ehufsi[v] > 0
  {
    CountedSymbolsHaveCodes(freq, maxSymbol, t, d, v);
  }

  /** The tables in use have been made from the counts of the scan. */
  ghost predicate Optimized(cfg: Config, ts: Decoding, mcus: seq<Mcu>)
    requires ScanCodable(cfg.layout, mcus)
  {
    && cfg.Valid() && |ts.dc| == |ts.ac| == NUM_HUFF_TBLS
    && forall ci :: 0 <= ci < |cfg.layout.comps| ==>
         var comp := cfg.layout.comps[ci];
         && MadeFrom(ScanCounts(cfg.layout, mcus, |mcus|, true)[comp.dcTbl], 15, ts.dc[comp.dcTbl], cfg.TablesOf(ci).dc)
         && MadeFrom(ScanCounts(cfg.layout, mcus, |mcus|, false)[comp.acTbl], 255, ts.ac[comp.acTbl],
                     cfg.TablesOf(ci).ac)
  }

  /** A two-pass optimised scan never sends a symbol whose code length is 0. */
  lemma OptimizedScanIsCoded(cfg: Config, ts: Decoding, mcus: seq<Mcu>)
    requires ScanCodable(cfg.layout, mcus) && Optimized(cfg, ts, mcus)
    ensures ScanCoded(cfg, mcus)
  {
    hide MadeFrom, ScanCodable, ScanCoded, ScanCounts, IsTables;
    var lay, n := cfg.layout, |mcus|;
    ScanCountsGrow(lay, mcus, n, n, true);
    ScanCountsGrow(lay, mcus, n, n, false);
    var dcF, acF := ScanCounts(lay, mcus, n, true), ScanCounts(lay, mcus, n, false);
    forall ci, v | 0 <= ci < |lay.comps| && 0 <= v < 256
      ensures |cfg.TablesOf(ci).dc.ehufsi| == |cfg.TablesOf(ci).ac.ehufsi| == 256
      ensures dcF[lay.comps[ci].dcTbl][v] > 0 ==> cfg.TablesOf(ci).dc.ehufsi[v] > 0
      ensures acF[lay.comps[ci].acTbl][v] > 0 ==> cfg.TablesOf(ci).ac.ehufsi[v] > 0
    {
      SizesOfTables(cfg, ci);
      var comp := lay.comps[ci];
      if dcF[comp.dcTbl][v] > 0 {
        MadeTableHasCodes(dcF[comp.dcTbl], 15, ts.dc[comp.dcTbl], cfg.TablesOf(ci).dc, v);
      }
      if acF[comp.acTbl][v] > 0 {
        MadeTableHasCodes(acF[comp.acTbl], 255, ts.ac[comp.acTbl], cfg.TablesOf(ci).ac, v);
      }
    }
    CountedScanIsCoded(cfg, mcus);
  }

  lemma MadeTableMatches(freq: seq<nat>, maxSymbol: nat, t: Table, d: Derived)
    requires MadeFrom(freq, maxSymbol, t, d) && maxSymbol <= 255
    ensures Matches(t, d)
  {
    hide IsTableFor, IsDerived;
    TableIsAcceptable(t, freq, maxSymbol);
  }

  /** Both passes and the decoder: with tables made from its own counts a scan comes back whole. */
  lemma OptimizedScanRoundTrip(cfg: Config, ts: Decoding, mcus: seq<Mcu>, tail: seq<nat>)
    requires HasTables(cfg, ts) && ScanCodable(cfg.layout, mcus) && Optimized(cfg, ts, mcus) && AtMarker(tail)
    ensures ReadScan(cfg, ts, ScanBytes(cfg, mcus, 0) + tail, |mcus|, 0) == Some(mcus)
  {
    hide MadeFrom, Matches, ScanCodable, ScanCoded, ScanCounts, IsTables, ReadScan, ScanBytes;
    OptimizedScanIsCoded(cfg, ts, mcus);
    var lay := cfg.layout;
    forall ci | 0 <= ci < |lay.comps|
      ensures Matches(ts.dc[lay.comps[ci].dcTbl], cfg.TablesOf(ci).dc)
      ensures Matches(ts.ac[lay.comps[ci].acTbl], cfg.TablesOf(ci).ac)
    {
      var comp := lay.comps[ci];
      MadeTableMatches(ScanCounts(lay, mcus, |mcus|, true)[comp.dcTbl], 15, ts.dc[comp.dcTbl], cfg.TablesOf(ci).dc);
      MadeTableMatches(ScanCounts(lay, mcus, |mcus|, false)[comp.acTbl], 255, ts.ac[comp.acTbl], cfg.TablesOf(ci).ac);
    }
    ScanRoundTrip(cfg, ts, mcus, 0, tail);
  }

  lemma SizesOfTables(cfg: Config, ci: nat)
    requires cfg.Valid() && ci < |cfg.layout.comps|
    ensures |cfg.TablesOf(ci).dc.ehufsi| == |cfg.TablesOf(ci).ac.ehufsi| == 256
  {
  }

  // ---------- the counts of a scan can be made into tables ----------

  /** DC symbols are bit numbers up to 15; no AC symbol has 15 extra bits. */
  predicate CanOccur(dc: bool, v: nat) {
    if dc then v <= 15 else v < 256 && v % 16 != 15
  }

  ghost predicate OnlyCanOccur(c: Counts, dc: bool) {
    AreCounts(c) && forall t, v :: 0 <= t < NUM_HUFF_TBLS && 0 <= v < 257 && !CanOccur(dc, v) ==> c[t][v] == 0
  }

  ghost predicate ItemsCanOccur(items: seq<Item>) {
    forall i :: 0 <= i < |items| ==> CanOccur(items[i].dc, items[i].symbol)
  }

  lemma {:induction false} RunCanOccur(r: nat, v: int)
    requires 0 < NBits(Abs(v)) < 15
    ensures ItemsCanOccur(RunItems(r, v))
  {
    if r >= 16 {
      RunCanOccur(r - 16, v);
    }
  }

  lemma {:induction false} AcCanOccur(z: Block, k: nat, r: nat, m: nat)
    requires 1 <= k <= 64 && m < 15 && AcInRange(z, k, m)
    ensures ItemsCanOccur(AcItems(z, k, r, m))
    decreases 64 - k
  {
    if k < 64 {
      if z[k] == 0 {
        AcCanOccur(z, k + 1, r + 1, m);
      } else {
        RunCanOccur(r, z[k]);
        AcCanOccur(z, k + 1, 0, m);
      }
    }
  }

  lemma {:induction false} OccursOnlyIf(items: seq<Item>, dc: bool, v: nat)
    requires ItemsCanOccur(items) && !CanOccur(dc, v)
    ensures Occurs(items, dc, v) == 0
  {
    if items != [] {
      OccursOnlyIf(items[1..], dc, v);
    }
  }

  lemma AddBlockOnly(c: Counts, lay: Layout, ci: nat, items: seq<Item>, dc: bool)
    requires OnlyCanOccur(c, dc) && ci < |lay.comps| && ItemsCanOccur(items)
    ensures OnlyCanOccur(AddBlock(c, lay, ci, items, dc), dc)
  {
    forall v | 0 <= v < 257 && !CanOccur(dc, v)
      ensures Occurs(items, dc, v) == 0
    {
      OccursOnlyIf(items, dc, v);
    }
  }

  lemma BlockCanOccur(diff: int, z: Block, m: nat)
    requires m < 15 && InRange(diff, z, m)
    ensures ItemsCanOccur(BlockItems(diff, z, m))
  {
    AcCanOccur(z, 1, 0, m);
  }

  lemma {:induction false} AddMcuOnly(c: Counts, lay: Layout, lastDc: seq<int>, mcu: Mcu, b: nat, dc: bool)
    requires OnlyCanOccur(c, dc) && Fits(lay, lastDc, mcu) && b <= |mcu| && Codable(lay, lastDc, mcu, b)
    ensures OnlyCanOccur(AddMcu(c, lay, lastDc, mcu, b, dc), dc)
    decreases |mcu| - b
  {
    hide AddBlock, BlockItems, InRange, OnlyCanOccur;
    if b < |mcu| {
      var ci := lay.membership[b];
      BlockCanOccur(mcu[b][0] - lastDc[ci], ToZigZag(mcu[b]), lay.precision + 2);
      var items := BlockItems(mcu[b][0] - lastDc[ci], ToZigZag(mcu[b]), lay.precision + 2);
      AddBlockOnly(c, lay, ci, items, dc);
      AddMcuOnly(AddBlock(c, lay, ci, items, dc), lay, lastDc[ci := mcu[b][0]], mcu, b + 1, dc);
    }
  }

  lemma {:induction false} ScanCountsOnly(lay: Layout, mcus: seq<Mcu>, j: nat, dc: bool)
    requires ScanCodable(lay, mcus) && j <= |mcus|
    ensures OnlyCanOccur(ScanCounts(lay, mcus, j, dc), dc)
    decreases j
  {
    hide AddMcu, Codable;
    if j > 0 {
      ScanCountsOnly(lay, mcus, j - 1, dc);
      McuIsCodable(lay, mcus, j - 1);
      AddMcuOnly(ScanCounts(lay, mcus, j - 1, dc), lay, DcBefore(lay, mcus, j - 1), mcus[j - 1], 0, dc);
    }
  }

  lemma {:induction false} TwoUnused(freq: seq<nat>, a: nat, b: nat, m: nat)
    requires a < b < |freq| && freq[a] == freq[b] == 0 && m <= |freq|
    ensures |Used(freq, m)| <= m - (if a < m then 1 else 0) - (if b < m then 1 else 0)
  {
    if m > 0 {
      TwoUnused(freq, a, b, m - 1);
    }
  }

  /** Whatever a scan holds, its counts meet what jpeg_gen_optimal_table needs, up to its limit on
      the total: at most 226 AC symbols can occur, so the byte counters never overflow. */
  lemma ScanCountsAreUsable(lay: Layout, mcus: seq<Mcu>, dc: bool, t: nat)
    requires ScanCodable(lay, mcus) && t < NUM_HUFF_TBLS
    requires var c := ScanCounts(lay, mcus, |mcus|, dc)[t];
             |c| == 257 ==> Sums.Sum(HuffTree.Reals(c[256 := 1])) <= MergeSteps.LIMIT as real
    ensures IsCounts(ScanCounts(lay, mcus, |mcus|, dc)[t], if dc then 15 else 255)
  {
    hide ScanCodable, ScanCounts;
    ScanCountsOnly(lay, mcus, |mcus|, dc);
    var c := ScanCounts(lay, mcus, |mcus|, dc)[t];
    var f := c[256 := 1];
    if dc {
      assert !CanOccur(true, 16) && !CanOccur(true, 17);
      TwoUnused(f, 16, 17, 257);
      forall v | 15 < v < 256
        ensures c[v] == 0
      {
        assert !CanOccur(true, v);
      }
    } else {
      assert !CanOccur(false, 15) && !CanOccur(false, 31);
      TwoUnused(f, 15, 31, 257);
    }
  }
}
