/**
 * DC prediction in a Huffman-coded restart interval, said of the blocks themselves (section F.1.1.5.1
 * of T.81): the difference that is coded for a block is its DC value less that of the last block of
 * the same component in the interval, and the DC value itself if there is none.
 */
module HuffPrediction {
  import opened BlockSymbols
  import opened BlockCoder
  import opened Mcus
  import opened HuffScan
  import opened ZigZag

  /** The predictions before block b of an MCU. */
  function DcWithin(lay: Layout, lastDc: seq<int>, mcu: Mcu, b: nat): (dc: seq<int>)
    requires Fits(lay, lastDc, mcu) && b <= |mcu|
    ensures |dc| == |lastDc|
  {
    if b == 0 then lastDc else DcWithin(lay, lastDc, mcu, b - 1)[lay.membership[b - 1] := mcu[b - 1][0]]
  }

  lemma {:induction false} RestOfMcu(lay: Layout, lastDc: seq<int>, mcu: Mcu, b: nat)
    requires Fits(lay, lastDc, mcu) && b <= |mcu|
    ensures AfterMcu(lay, DcWithin(lay, lastDc, mcu, b), mcu, b) == AfterMcu(lay, lastDc, mcu, 0)
    ensures Codable(lay, lastDc, mcu, 0) ==> Codable(lay, DcWithin(lay, lastDc, mcu, b), mcu, b)
  {
    if b > 0 {
      RestOfMcu(lay, lastDc, mcu, b - 1);
    }
  }

  /** The predictions before MCU j of an interval. */
  ghost function DcAt(lay: Layout, mcus: seq<Mcu>, j: nat): (dc: seq<int>)
    requires lay.Valid() && AllSized(lay.membership, mcus) && j <= |mcus|
    ensures |dc| == |lay.comps|
  {
    if j == 0 then FreshDc(lay) else AfterMcu(lay, DcAt(lay, mcus, j - 1), mcus[j - 1], 0)
  }

  /** They are the DC values of the last blocks before. */
  lemma {:induction false} PredictionIsPrevious(lay: Layout, mcus: seq<Mcu>, j: nat, b: nat, ci: nat)
    requires lay.Valid() && AllSized(lay.membership, mcus) && j < |mcus| && b <= |lay.membership|
    requires ci < |lay.comps|
    ensures DcWithin(lay, DcAt(lay, mcus, j), mcus[j], b)[ci] == PreviousDc(lay.membership, mcus, j, b, ci)
    decreases j, b
  {
    hide AfterMcu;
    if b > 0 {
      PredictionIsPrevious(lay, mcus, j, b - 1, ci);
    } else if j > 0 {
      PredictionIsPrevious(lay, mcus, j - 1, |lay.membership|, ci);
      RestOfMcu(lay, DcAt(lay, mcus, j - 1), mcus[j - 1], |lay.membership|);
      NothingLeft(lay, DcWithin(lay, DcAt(lay, mcus, j - 1), mcus[j - 1], |lay.membership|), mcus[j - 1]);
    }
  }

  lemma NothingLeft(lay: Layout, lastDc: seq<int>, mcu: Mcu)
    requires Fits(lay, lastDc, mcu)
    ensures AfterMcu(lay, lastDc, mcu, |mcu|) == lastDc
  {
  }

  lemma {:induction false} PrefixOfInterval(lay: Layout, mcus: seq<Mcu>, j: nat)
    requires lay.Valid() && AllSized(lay.membership, mcus) && j <= |mcus|
    requires AllCodable(lay, FreshDc(lay), mcus)
    ensures AllCodable(lay, FreshDc(lay), mcus[..j]) && AfterMcus(lay, FreshDc(lay), mcus[..j]) == DcAt(lay, mcus, j)
    ensures j < |mcus| ==> Codable(lay, DcAt(lay, mcus, j), mcus[j], 0)
  {
    hide AfterMcu, Codable;
    AllCodablePrefix(lay, FreshDc(lay), mcus, j);
    if j > 0 {
      PrefixOfInterval(lay, mcus, j - 1);
      assert mcus[..j] == mcus[..j - 1] + [mcus[j - 1]];
      CodableSnoc(lay, FreshDc(lay), mcus[..j - 1], mcus[j - 1]);
    }
    if j < |mcus| {
      AllCodablePrefix(lay, FreshDc(lay), mcus, j + 1);
      assert mcus[..j + 1] == mcus[..j] + [mcus[j]];
      CodableSnoc(lay, FreshDc(lay), mcus[..j], mcus[j]);
    }
  }

  /** The bits of an interval up to MCU j are followed by those of MCU j with the predictions there. */
  lemma McuFollows(cfg: Config, mcus: seq<Mcu>, j: nat)
    requires cfg.Valid() && AllSized(cfg.layout.membership, mcus) && AllCodable(cfg.layout, FreshDc(cfg.layout), mcus)
    requires j < |mcus|
    ensures var lay, dc := cfg.layout, DcAt(cfg.layout, mcus, j);
            && AllCodable(lay, FreshDc(lay), mcus[..j]) && AllCodable(lay, FreshDc(lay), mcus[..j + 1])
            && Codable(lay, dc, mcus[j], 0)
            && McusBits(cfg, FreshDc(lay), mcus[..j + 1])
               == McusBits(cfg, FreshDc(lay), mcus[..j]) + McuBits(cfg, dc, mcus[j], 0)
  {
    hide AfterMcu, McusBits, DcAt, AfterMcus, AllCodable, Codable;
    var lay := cfg.layout;
    PrefixOfInterval(lay, mcus, j);
    PrefixOfInterval(lay, mcus, j + 1);
    assert mcus[..j + 1] == mcus[..j] + [mcus[j]];
    McusSnoc(cfg, FreshDc(lay), mcus[..j], mcus[j]);
  }

  /** Block b of MCU j is coded with a prediction that is the DC value of the last block of its
      component before it in the interval. */
  lemma BlockIsPredicted(lay: Layout, mcus: seq<Mcu>, j: nat, b: nat)
    requires lay.Valid() && AllSized(lay.membership, mcus) && AllCodable(lay, FreshDc(lay), mcus)
    requires j < |mcus| && b < |lay.membership|
    ensures var here, ci := DcWithin(lay, DcAt(lay, mcus, j), mcus[j], b), lay.membership[b];
            && Fits(lay, here, mcus[j]) && Codable(lay, here, mcus[j], b)
            && here[ci] == PreviousDc(lay.membership, mcus, j, b, ci)
            && DcWithin(lay, DcAt(lay, mcus, j), mcus[j], b + 1) == here[ci := mcus[j][b][0]]
  {
    hide AfterMcu, DcAt, AfterMcus, AllCodable, PreviousDc, Codable, DcWithin;
    PrefixOfInterval(lay, mcus, j);
    RestOfMcu(lay, DcAt(lay, mcus, j), mcus[j], b);
    PredictionIsPrevious(lay, mcus, j, b, lay.membership[b]);
    NextWithin(lay, DcAt(lay, mcus, j), mcus[j], b);
  }

  lemma NextWithin(lay: Layout, lastDc: seq<int>, mcu: Mcu, b: nat)
    requires Fits(lay, lastDc, mcu) && b < |mcu|
    ensures DcWithin(lay, lastDc, mcu, b + 1) == DcWithin(lay, lastDc, mcu, b)[lay.membership[b] := mcu[b][0]]
  {
  }

  /** And what is coded of it is the difference, behind the blocks before and in front of the rest. */
  lemma BlockIsDifference(cfg: Config, lastDc: seq<int>, mcu: Mcu, b: nat)
    requires cfg.Valid() && Fits(cfg.layout, lastDc, mcu) && b < |mcu| && Codable(cfg.layout, lastDc, mcu, b)
    ensures var lay, ci := cfg.layout, cfg.layout.membership[b];
            var next := lastDc[ci := mcu[b][0]];
            && InRange(mcu[b][0] - lastDc[ci], ToZigZag(mcu[b]), lay.precision + 2) && Codable(lay, next, mcu, b + 1)
            && McuBits(cfg, lastDc, mcu, b)
               == BlockBits(mcu[b][0] - lastDc[ci], mcu[b], lay.precision, cfg.TablesOf(ci))
                  + McuBits(cfg, next, mcu, b + 1)
  {
    hide InRange, BlockBits;
  }

  /** In every restart interval the first difference of a component is the DC value itself. */
  lemma {:induction false} FirstDifference(membership: seq<nat>, mcus: seq<Mcu>, b: nat, ci: nat)
    requires AllSized(membership, mcus) && mcus != [] && b <= |membership|
    requires forall i :: 0 <= i < b ==> membership[i] != ci
    ensures PreviousDc(membership, mcus, 0, b, ci) == 0
  {
    if b > 0 {
      FirstDifference(membership, mcus, b - 1, ci);
    }
  }
}
