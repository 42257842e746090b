/**
 * DC prediction and conditioning in an arithmetic-coded restart interval, said of the blocks
 * themselves (section F.1.4.4.1 of T.81): the difference coded for a block is that to the last
 * block of the same component in the interval, and the context is the category of that block's own
 * difference. Without such a block the prediction and the context are 0.
 */
module ArithPrediction {
  import opened IntervalCoder
  import opened Binarization
  import opened ZigZag
  import opened Mcus
  import opened ArithScan
  import opened ArithScanEncoder

  /** The category of the difference of the last block of component ci before block b of MCU j. */
  function PreviousContext(cfg: Config, mcus: seq<Mcu>, j: nat, b: nat, ci: nat): nat
    requires cfg.Valid() && AllSized(cfg.membership, mcus) && j < |mcus| && b <= |cfg.membership| && ci < |cfg.comps|
    decreases j, b
  {
    if b > 0 then
      if cfg.membership[b - 1] == ci then
        DcContextAfter(mcus[j][b - 1][0] - PreviousDc(cfg.membership, mcus, j, b - 1, ci), cfg.Cond(ci))
      else PreviousContext(cfg, mcus, j, b - 1, ci)
    else if j > 0 then PreviousContext(cfg, mcus, j - 1, |cfg.membership|, ci)
    else 0
  }

  /** The predictions before block b of an MCU. */
  function Within(cfg: Config, p: Prediction, mcu: Mcu, b: nat): (q: Prediction)
    requires cfg.Valid() && p.For(cfg) && b <= |mcu| == |cfg.membership|
    ensures q.For(cfg)
  {
    if b == 0 then p else AfterBlock(cfg, Within(cfg, p, mcu, b - 1), cfg.membership[b - 1], mcu[b - 1])
  }

  lemma {:induction false} RestOfMcu(cfg: Config, p: Prediction, mcu: Mcu, b: nat)
    requires cfg.Valid() && p.For(cfg) && b <= |mcu| == |cfg.membership|
    ensures AfterBlocks(cfg, Within(cfg, p, mcu, b), mcu, b) == AfterBlocks(cfg, p, mcu, 0)
  {
    hide AfterBlock;
    if b > 0 {
      RestOfMcu(cfg, p, mcu, b - 1);
    }
  }

  /** The predictions before MCU j of an interval. */
  ghost function At(cfg: Config, mcus: seq<Mcu>, j: nat): (p: Prediction)
    requires cfg.Valid() && AllSized(cfg.membership, mcus) && j <= |mcus|
    ensures p.For(cfg)
  {
    if j == 0 then FreshPrediction(cfg) else AfterBlocks(cfg, At(cfg, mcus, j - 1), mcus[j - 1], 0)
  }

  lemma NothingLeft(cfg: Config, p: Prediction, mcu: Mcu)
    requires cfg.Valid() && p.For(cfg) && |mcu| == |cfg.membership|
    ensures AfterBlocks(cfg, p, mcu, |mcu|) == p
  {
  }

  /** What the coder predicts with, and in which context, is what the last block of the component
      says. */
  lemma {:induction false} PredictionIsPrevious(cfg: Config, mcus: seq<Mcu>, j: nat, b: nat, ci: nat)
    requires cfg.Valid() && AllSized(cfg.membership, mcus) && j < |mcus| && b <= |cfg.membership| && ci < |cfg.comps|
    ensures var p := Within(cfg, At(cfg, mcus, j), mcus[j], b);
            && p.lastDc[ci] == PreviousDc(cfg.membership, mcus, j, b, ci)
            && p.context[ci] == PreviousContext(cfg, mcus, j, b, ci)
    decreases j, b
  {
    hide AfterBlocks, DcContextAfter;
    if b > 0 {
      PredictionIsPrevious(cfg, mcus, j, b - 1, ci);
    } else if j > 0 {
      PredictionIsPrevious(cfg, mcus, j - 1, |cfg.membership|, ci);
      RestOfMcu(cfg, At(cfg, mcus, j - 1), mcus[j - 1], |cfg.membership|);
      NothingLeft(cfg, Within(cfg, At(cfg, mcus, j - 1), mcus[j - 1], |cfg.membership|), mcus[j - 1]);
    }
  }

  /** The predictions of the coder before MCU j of an interval. */
  lemma {:induction false} PrefixOfInterval(cfg: Config, mcus: seq<Mcu>, j: nat)
    requires cfg.Valid() && AreMcus(cfg, mcus) && j <= |mcus|
    ensures AllSized(cfg.membership, mcus) && AreMcus(cfg, mcus[..j])
    ensures AfterMcus(cfg, FreshPrediction(cfg), mcus[..j]) == At(cfg, mcus, j)
  {
    hide AfterBlocks, McusDecisions, BlocksDecisions;
    SizesOfMcus(cfg, mcus);
    if j > 0 {
      PrefixOfInterval(cfg, mcus, j - 1);
      assert mcus[..j] == mcus[..j - 1] + [mcus[j - 1]];
      McusSnoc(cfg, FreshPrediction(cfg), mcus[..j - 1], mcus[j - 1]);
    }
  }

  lemma SizesOfMcus(cfg: Config, mcus: seq<Mcu>)
    requires AreMcus(cfg, mcus)
    ensures AllSized(cfg.membership, mcus)
  {
    forall j | 0 <= j < |mcus|
      ensures |mcus[j]| == |cfg.membership|
    {
      assert IsMcu(cfg, mcus[j]);
    }
  }

  /** The decisions of an interval up to MCU j are followed by those of MCU j with the predictions
      there. */
  lemma McuFollows(cfg: Config, mcus: seq<Mcu>, j: nat)
    requires cfg.Valid() && AreMcus(cfg, mcus) && j < |mcus|
    ensures AllSized(cfg.membership, mcus) && AreMcus(cfg, mcus[..j]) && AreMcus(cfg, mcus[..j + 1])
    ensures McusDecisions(cfg, FreshPrediction(cfg), mcus[..j + 1])
         == McusDecisions(cfg, FreshPrediction(cfg), mcus[..j]) + BlocksDecisions(cfg, At(cfg, mcus, j), mcus[j], 0)
  {
    hide AfterBlocks, McusDecisions, BlocksDecisions, AfterMcus, At, IsMcu;
    PrefixOfInterval(cfg, mcus, j);
    PrefixOfInterval(cfg, mcus, j + 1);
    assert mcus[..j + 1] == mcus[..j] + [mcus[j]];
    McusSnoc(cfg, FreshPrediction(cfg), mcus[..j], mcus[j]);
  }

  /** An interval starts from the whole unit interval and with no adaptation: every bin in state 0, but
      for the one with the fixed estimate. */
  lemma IntervalStartsFresh(b: nat)
    requires b < STATS_SIZE
    ensures FreshModel().iv == Interval(0, 0x10000, 0)
    ensures FreshModel().stats[b] == if b == STATS_SIZE - 1 then 113 else 0
  {
  }

  /** And those of MCU j are, block by block, the DC decisions for the difference to the last block of
      the component, in the context it has left, and the AC decisions. */
  lemma BlockFollows(cfg: Config, mcus: seq<Mcu>, j: nat, b: nat)
    requires cfg.Valid() && AllSized(cfg.membership, mcus) && j < |mcus| && b < |cfg.membership|
    ensures var p, ci, z := At(cfg, mcus, j), cfg.membership[b], ToZigZag(mcus[j][b]);
            var comp, diff := cfg.comps[ci], z[0] - PreviousDc(cfg.membership, mcus, j, b, ci);
            BlocksDecisions(cfg, Within(cfg, p, mcus[j], b), mcus[j], b)
            == DcDecisions(DcBins(comp.dcTbl), PreviousContext(cfg, mcus, j, b, ci), diff)
               + AcDecisions(AcBins(comp.acTbl), cfg.Cond(ci).acK, z, 1, EndOfBlock(z, 63), false)
               + BlocksDecisions(cfg, Within(cfg, p, mcus[j], b + 1), mcus[j], b + 1)
  {
    hide AfterBlock, At, DcDecisions, AcDecisions, PreviousDc, PreviousContext, ToZigZag;
    PredictionIsPrevious(cfg, mcus, j, b, cfg.membership[b]);
  }
}
