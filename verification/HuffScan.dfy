/**
 * A sequential Huffman-coded scan as bits and bytes: DC prediction, restart intervals, byte
 * stuffing and padding (what encode_mcu_huff, emit_restart and finish_pass_huff must write).
 */
module HuffScan {
  import opened CodeBytes
  import opened Bits
  import opened HuffTable
  import opened BlockSymbols
  import opened BlockCoder
  import opened RestartIntervals
  import opened Mcus
  import opened ZigZag

  const NUM_HUFF_TBLS := 4

  /** What the scan header fixes: the component of each block of an MCU, the table numbers of the
      components, the data precision and the restart interval (0 for none). */
  datatype Layout = Layout(membership: seq<nat>, comps: seq<Component>, precision: nat, interval: nat) {

    ghost predicate Valid() {
      && precision <= 12
      && (forall i :: 0 <= i < |membership| ==> membership[i] < |comps|)
      && (forall i :: 0 <= i < |comps| ==> comps[i].dcTbl < NUM_HUFF_TBLS && comps[i].acTbl < NUM_HUFF_TBLS)
    }
  }

  /** The layout and the encoding tables by number. */
  datatype Config = Config(layout: Layout, dcTbls: seq<Derived>, acTbls: seq<Derived>) {

    ghost predicate Valid() {
      && layout.Valid()
      && |dcTbls| == |acTbls| == NUM_HUFF_TBLS
      && (forall i :: 0 <= i < |layout.comps| ==> IsTables(TablesOf(i)))
    }

    function TablesOf(ci: nat): Tables
      requires ci < |layout.comps| && layout.comps[ci].dcTbl < |dcTbls| && layout.comps[ci].acTbl < |acTbls|
    {
      Tables(dcTbls[layout.comps[ci].dcTbl], acTbls[layout.comps[ci].acTbl])
    }
  }

  /** The DC predictions a scan and every restart interval start from. */
  function FreshDc(lay: Layout): (dc: seq<int>)
    ensures |dc| == |lay.comps|
  {
    seq(|lay.comps|, _ => 0)
  }

  ghost predicate Fits(lay: Layout, lastDc: seq<int>, mcu: Mcu) {
    lay.Valid() && |lastDc| == |lay.comps| && |mcu| == |lay.membership|
  }

  /** The blocks of an MCU from block b on can be coded. */
  ghost predicate Codable(lay: Layout, lastDc: seq<int>, mcu: Mcu, b: nat)
    requires Fits(lay, lastDc, mcu) && b <= |mcu|
    decreases |mcu| - b
  {
    b < |mcu| ==>
      var ci := lay.membership[b];
      && InRange(mcu[b][0] - lastDc[ci], ToZigZag(mcu[b]), lay.precision + 2)
      && Codable(lay, lastDc[ci := mcu[b][0]], mcu, b + 1)
  }

  function McuBits(cfg: Config, lastDc: seq<int>, mcu: Mcu, b: nat): seq<bool>
    requires cfg.Valid() && Fits(cfg.layout, lastDc, mcu) && b <= |mcu| && Codable(cfg.layout, lastDc, mcu, b)
    decreases |mcu| - b
  {
    if b == |mcu| then []
    else
      var ci := cfg.layout.membership[b];
      BlockBits(mcu[b][0] - lastDc[ci], mcu[b], cfg.layout.precision, cfg.TablesOf(ci))
      + McuBits(cfg, lastDc[ci := mcu[b][0]], mcu, b + 1)
  }

  function AfterMcu(lay: Layout, lastDc: seq<int>, mcu: Mcu, b: nat): (dc: seq<int>)
    requires Fits(lay, lastDc, mcu) && b <= |mcu|
    ensures |dc| == |lastDc|
    decreases |mcu| - b
  {
    if b == |mcu| then lastDc
    else AfterMcu(lay, lastDc[lay.membership[b] := mcu[b][0]], mcu, b + 1)
  }

  // ---------- the MCUs of one restart interval ----------

  ghost predicate AllCodable(lay: Layout, lastDc: seq<int>, mcus: seq<Mcu>)
    decreases |mcus|
  {
    mcus != [] ==>
      && Fits(lay, lastDc, mcus[0]) && Codable(lay, lastDc, mcus[0], 0)
      && AllCodable(lay, AfterMcu(lay, lastDc, mcus[0], 0), mcus[1..])
  }

  function McusBits(cfg: Config, lastDc: seq<int>, mcus: seq<Mcu>): seq<bool>
    requires cfg.Valid() && AllCodable(cfg.layout, lastDc, mcus)
    decreases |mcus|
  {
    if mcus == [] then []
    else McuBits(cfg, lastDc, mcus[0], 0) + McusBits(cfg, AfterMcu(cfg.layout, lastDc, mcus[0], 0), mcus[1..])
  }

  function AfterMcus(lay: Layout, lastDc: seq<int>, mcus: seq<Mcu>): seq<int>
    requires AllCodable(lay, lastDc, mcus)
    decreases |mcus|
  {
    if mcus == [] then lastDc else AfterMcus(lay, AfterMcu(lay, lastDc, mcus[0], 0), mcus[1..])
  }

  lemma {:induction false} McusSnoc(cfg: Config, lastDc: seq<int>, mcus: seq<Mcu>, mcu: Mcu)
    requires cfg.Valid() && AllCodable(cfg.layout, lastDc, mcus)
    requires var dc := AfterMcus(cfg.layout, lastDc, mcus); Fits(cfg.layout, dc, mcu) && Codable(cfg.layout, dc, mcu, 0)
    ensures AllCodable(cfg.layout, lastDc, mcus + [mcu])
    ensures var dc := AfterMcus(cfg.layout, lastDc, mcus);
            && McusBits(cfg, lastDc, mcus + [mcu]) == McusBits(cfg, lastDc, mcus) + McuBits(cfg, dc, mcu, 0)
            && AfterMcus(cfg.layout, lastDc, mcus + [mcu]) == AfterMcu(cfg.layout, dc, mcu, 0)
    decreases |mcus|
  {
    hide McuBits, AfterMcu, Codable;
    var all := mcus + [mcu];
    if mcus == [] {
      assert all[0] == mcu && all[1..] == [];
    } else {
      assert all[0] == mcus[0] && all[1..] == mcus[1..] + [mcu];
      McusSnoc(cfg, AfterMcu(cfg.layout, lastDc, mcus[0], 0), mcus[1..], mcu);
    }
  }

  // ---------- restart intervals ----------

  /** Every restart interval, coded from a fresh state, is codable. */
  ghost predicate ScanCodable(lay: Layout, mcus: seq<Mcu>)
    decreases |mcus|
  {
    var k := GroupSize(lay.interval, |mcus|);
    AllCodable(lay, FreshDc(lay), mcus[..k]) && (k < |mcus| ==> ScanCodable(lay, mcus[k..]))
  }

  /** One restart interval: its bits padded with ones, and stuffed. */
  function IntervalBytes(cfg: Config, mcus: seq<Mcu>): seq<nat>
    requires cfg.Valid() && AllCodable(cfg.layout, FreshDc(cfg.layout), mcus)
  {
    SegmentOf(McusBits(cfg, FreshDc(cfg.layout), mcus))
  }

  /** A scan is its restart intervals, each coded on its own, with restart markers numbered from
      n modulo 8 in between. */
  function ScanBytes(cfg: Config, mcus: seq<Mcu>, n: nat): seq<nat>
    requires cfg.Valid() && ScanCodable(cfg.layout, mcus) && n < 8
    decreases |mcus|
  {
    hide AllCodable, IntervalBytes;
    var k := GroupSize(cfg.layout.interval, |mcus|);
    var first := IntervalBytes(cfg, mcus[..k]);
    if k == |mcus| then first else first + [0xFF, 0xD0 + n] + ScanBytes(cfg, mcus[k..], (n + 1) % 8)
  }

  /** The intervals that are closed, with their restart markers. */
  ghost function ClosedBytes(cfg: Config, mcus: seq<Mcu>, n: nat): seq<nat>
    requires cfg.Valid() && ScanCodable(cfg.layout, mcus) && n < 8
    decreases |mcus|
  {
    hide AllCodable, IntervalBytes;
    var k := GroupSize(cfg.layout.interval, |mcus|);
    if k == |mcus| then []
    else IntervalBytes(cfg, mcus[..k]) + [0xFF, 0xD0 + n] + ClosedBytes(cfg, mcus[k..], (n + 1) % 8)
  }

  lemma FirstCodable(lay: Layout, mcus: seq<Mcu>)
    requires ScanCodable(lay, mcus) && 0 < lay.interval < |mcus|
    ensures AllCodable(lay, FreshDc(lay), mcus[..lay.interval]) && ScanCodable(lay, mcus[lay.interval..])
    ensures OpenMcus(lay.interval, mcus) == OpenMcus(lay.interval, mcus[lay.interval..])
  {
    OpenBehind(lay.interval, mcus);
  }

  lemma OnlyCodable(lay: Layout, mcus: seq<Mcu>)
    requires lay.interval == 0 || |mcus| <= lay.interval
    ensures ScanCodable(lay, mcus) <==> AllCodable(lay, FreshDc(lay), mcus)
    ensures OpenMcus(lay.interval, mcus) == mcus
  {
    hide AllCodable;
    NoneClosed(lay.interval, mcus);
    assert mcus[..|mcus|] == mcus;
  }

  /** A scan is its first interval and the rest, or only one interval. */
  lemma FirstInterval(cfg: Config, mcus: seq<Mcu>, n: nat)
    requires cfg.Valid() && ScanCodable(cfg.layout, mcus) && 0 < cfg.layout.interval < |mcus| && n < 8
    ensures var k := cfg.layout.interval;
            && AllCodable(cfg.layout, FreshDc(cfg.layout), mcus[..k]) && ScanCodable(cfg.layout, mcus[k..])
            && ScanBytes(cfg, mcus, n)
               == IntervalBytes(cfg, mcus[..k]) + [0xFF, 0xD0 + n] + ScanBytes(cfg, mcus[k..], (n + 1) % 8)
            && ClosedBytes(cfg, mcus, n)
               == IntervalBytes(cfg, mcus[..k]) + [0xFF, 0xD0 + n] + ClosedBytes(cfg, mcus[k..], (n + 1) % 8)
            && OpenMcus(cfg.layout.interval, mcus) == OpenMcus(cfg.layout.interval, mcus[k..])
            && NextNum(k, |mcus|, n) == NextNum(k, |mcus| - k, (n + 1) % 8)
  {
    hide IntervalBytes, AllCodable, OpenMcus;
    FirstCodable(cfg.layout, mcus);
  }

  lemma OnlyInterval(cfg: Config, mcus: seq<Mcu>, n: nat)
    requires cfg.Valid() && (cfg.layout.interval == 0 || |mcus| <= cfg.layout.interval) && n < 8
    ensures ScanCodable(cfg.layout, mcus) <==> AllCodable(cfg.layout, FreshDc(cfg.layout), mcus)
    ensures OpenMcus(cfg.layout.interval, mcus) == mcus && NextNum(cfg.layout.interval, |mcus|, n) == n
    ensures ScanCodable(cfg.layout, mcus) ==>
            ClosedBytes(cfg, mcus, n) == [] && ScanBytes(cfg, mcus, n) == IntervalBytes(cfg, mcus)
  {
    hide IntervalBytes, AllCodable, OpenMcus;
    OnlyCodable(cfg.layout, mcus);
    assert mcus[..|mcus|] == mcus;
  }

  lemma {:induction false} ScanIsClosedAndOpen(cfg: Config, mcus: seq<Mcu>, n: nat)
    requires cfg.Valid() && ScanCodable(cfg.layout, mcus) && n < 8
    ensures AllCodable(cfg.layout, FreshDc(cfg.layout), OpenMcus(cfg.layout.interval, mcus))
    ensures ScanBytes(cfg, mcus, n)
            == ClosedBytes(cfg, mcus, n) + IntervalBytes(cfg, OpenMcus(cfg.layout.interval, mcus))
    decreases |mcus|
  {
    hide IntervalBytes, AllCodable, ScanCodable, ScanBytes, ClosedBytes, OpenMcus;
    var k := cfg.layout.interval;
    if 0 < k < |mcus| {
      FirstInterval(cfg, mcus, n);
      ScanIsClosedAndOpen(cfg, mcus[k..], (n + 1) % 8);
      Join(IntervalBytes(cfg, mcus[..k]) + [0xFF, 0xD0 + n], ClosedBytes(cfg, mcus[k..], (n + 1) % 8),
           IntervalBytes(cfg, OpenMcus(cfg.layout.interval, mcus)), []);
    } else {
      OnlyInterval(cfg, mcus, n);
      assert [] + IntervalBytes(cfg, mcus) == IntervalBytes(cfg, mcus);
    }
  }

  lemma Together(lay: Layout, mcus: seq<Mcu>)
    requires 0 < lay.interval < |mcus|
    requires AllCodable(lay, FreshDc(lay), mcus[..lay.interval]) && ScanCodable(lay, mcus[lay.interval..])
    ensures ScanCodable(lay, mcus)
  {
  }

  /** One more MCU joins the open interval, unless that is full; then a marker closes it. */
  lemma {:induction false} ScanGrows(cfg: Config, mcus: seq<Mcu>, mcu: Mcu, n: nat)
    requires cfg.Valid() && ScanCodable(cfg.layout, mcus) && n < 8
    requires AllCodable(cfg.layout, FreshDc(cfg.layout), Joined(cfg.layout.interval, mcus) + [mcu])
    ensures ScanCodable(cfg.layout, mcus + [mcu])
    ensures OpenMcus(cfg.layout.interval, mcus + [mcu]) == Joined(cfg.layout.interval, mcus) + [mcu]
    ensures AllCodable(cfg.layout, FreshDc(cfg.layout), OpenMcus(cfg.layout.interval, mcus))
    ensures NextNum(cfg.layout.interval, |mcus| + 1, n)
         == if Full(cfg.layout.interval, |mcus|) then (NextNum(cfg.layout.interval, |mcus|, n) + 1) % 8
            else NextNum(cfg.layout.interval, |mcus|, n)
    ensures ClosedBytes(cfg, mcus + [mcu], n)
         == if Full(cfg.layout.interval, |mcus|) then
              ClosedBytes(cfg, mcus, n) + IntervalBytes(cfg, OpenMcus(cfg.layout.interval, mcus))
              + [0xFF, 0xD0 + NextNum(cfg.layout.interval, |mcus|, n)]
            else ClosedBytes(cfg, mcus, n)
    decreases |mcus|
  {
    hide IntervalBytes, AllCodable, ScanCodable, ScanBytes, ClosedBytes, OpenMcus, NextNum;
    var k, all := cfg.layout.interval, mcus + [mcu];
    OneMoreMcu(k, |mcus|, n);
    ScanIsClosedAndOpen(cfg, mcus, n);
    if k == 0 || |mcus| < k {
      OnlyInterval(cfg, mcus, n);
      OnlyInterval(cfg, all, n);
    } else {
      assert all[k..] == mcus[k..] + [mcu] && all[..k] == mcus[..k];
      if |mcus| == k {
        OnlyInterval(cfg, mcus, n);
        OnlyInterval(cfg, [mcu], (n + 1) % 8);
        assert all[k..] == [mcu] == [] + [mcu] && all[..k] == mcus;
        Together(cfg.layout, all);
        FirstInterval(cfg, all, n);
        Join([], IntervalBytes(cfg, mcus), [0xFF, 0xD0 + n], []);
        assert [] + IntervalBytes(cfg, mcus) == IntervalBytes(cfg, mcus);
      } else {
        FirstInterval(cfg, mcus, n);
        ScanGrows(cfg, mcus[k..], mcu, (n + 1) % 8);
        Together(cfg.layout, all);
        FirstInterval(cfg, all, n);
        Join(IntervalBytes(cfg, mcus[..k]) + [0xFF, 0xD0 + n], ClosedBytes(cfg, mcus[k..], (n + 1) % 8),
             IntervalBytes(cfg, OpenMcus(cfg.layout.interval, mcus)), [0xFF, 0xD0 + NextNum(k, |mcus|, n)]);
      }
    }
  }

  lemma {:induction false} AllCodablePrefix(lay: Layout, lastDc: seq<int>, mcus: seq<Mcu>, j: nat)
    requires AllCodable(lay, lastDc, mcus) && j <= |mcus|
    ensures AllCodable(lay, lastDc, mcus[..j])
    decreases |mcus|
  {
    hide Codable, AfterMcu;
    if j > 0 {
      assert mcus[..j][0] == mcus[0] && mcus[..j][1..] == mcus[1..][..j - 1];
      AllCodablePrefix(lay, AfterMcu(lay, lastDc, mcus[0], 0), mcus[1..], j - 1);
    }
  }

  lemma {:induction false} ScanPrefix(lay: Layout, mcus: seq<Mcu>, j: nat)
    requires ScanCodable(lay, mcus) && j <= |mcus|
    ensures ScanCodable(lay, mcus[..j]) && AllCodable(lay, FreshDc(lay), OpenMcus(lay.interval, mcus[..j]))
    decreases |mcus|
  {
    hide AllCodable, OpenMcus;
    var k := lay.interval;
    if 0 < k < j {
      assert mcus[..j][k..] == mcus[k..][..j - k] && mcus[..j][..k] == mcus[..k];
      ScanPrefix(lay, mcus[k..], j - k);
      Together(lay, mcus[..j]);
      FirstCodable(lay, mcus[..j]);
    } else {
      var g := GroupSize(k, |mcus|);
      AllCodablePrefix(lay, FreshDc(lay), mcus[..g], j);
      assert mcus[..g][..j] == mcus[..j];
      OnlyCodable(lay, mcus[..j]);
    }
  }

  lemma NextJoins(lay: Layout, mcus: seq<Mcu>, i: nat)
    requires i < |mcus|
    ensures mcus[..i + 1] == mcus[..i] + [mcus[i]]
    ensures OpenMcus(lay.interval, mcus[..i + 1]) == Joined(lay.interval, mcus[..i]) + [mcus[i]]
  {
    OneMoreMcu(lay.interval, i, 0);
  }

  lemma {:induction false} CodableSnoc(lay: Layout, lastDc: seq<int>, mcus: seq<Mcu>, mcu: Mcu)
    requires AllCodable(lay, lastDc, mcus)
    requires var dc := AfterMcus(lay, lastDc, mcus); Fits(lay, dc, mcu)
    ensures AllCodable(lay, lastDc, mcus + [mcu]) <==> Codable(lay, AfterMcus(lay, lastDc, mcus), mcu, 0)
    ensures AllCodable(lay, lastDc, mcus + [mcu]) ==>
              AfterMcus(lay, lastDc, mcus + [mcu]) == AfterMcu(lay, AfterMcus(lay, lastDc, mcus), mcu, 0)
    decreases |mcus|
  {
    hide AfterMcu, Codable;
    var all := mcus + [mcu];
    if mcus == [] {
      assert all[0] == mcu && all[1..] == [];
    } else {
      assert all[0] == mcus[0] && all[1..] == mcus[1..] + [mcu];
      CodableSnoc(lay, AfterMcu(lay, lastDc, mcus[0], 0), mcus[1..], mcu);
    }
  }

  lemma {:induction false} CodableGrows(lay: Layout, mcus: seq<Mcu>, mcu: Mcu)
    requires ScanCodable(lay, mcus) && AllCodable(lay, FreshDc(lay), Joined(lay.interval, mcus) + [mcu])
    ensures ScanCodable(lay, mcus + [mcu])
    ensures OpenMcus(lay.interval, mcus + [mcu]) == Joined(lay.interval, mcus) + [mcu]
    decreases |mcus|
  {
    hide AllCodable, ScanCodable, OpenMcus;
    var k, all := lay.interval, mcus + [mcu];
    OneMoreMcu(k, |mcus|, 0);
    if k == 0 || |mcus| < k {
      OnlyCodable(lay, mcus);
      OnlyCodable(lay, all);
    } else {
      assert all[k..] == mcus[k..] + [mcu] && all[..k] == mcus[..k];
      if |mcus| == k {
        OnlyCodable(lay, mcus);
        OnlyCodable(lay, [mcu]);
        assert all[k..] == [mcu] == [] + [mcu] && all[..k] == mcus;
      } else {
        FirstCodable(lay, mcus);
        CodableGrows(lay, mcus[k..], mcu);
      }
      Together(lay, all);
      FirstCodable(lay, all);
    }
  }
}
