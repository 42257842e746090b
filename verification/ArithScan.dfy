/**
 * A sequential arithmetic-coded scan: MCUs, DC prediction and restart intervals (encode_mcu,
 * emit_restart and start_pass in jcarith.c; decode_mcu and process_restart in jdarith.c).
 */
module ArithScan {
  import opened Powers
  import opened Aritab
  import opened CodeBytes
  import opened IntervalCoder
  import opened CodeString
  import opened ArithDecoder
  import opened Binarization
  import opened RestartIntervals
  import opened Mcus
  import opened ZigZag

  /** What the scan header fixes: the components, the component of each block of an MCU, the
      conditioning parameters of the tables, and the restart interval (0 for none). */
  datatype Config = Config(comps: seq<Component>, membership: seq<nat>,
                           dcL: seq<nat>, dcU: seq<nat>, acK: seq<nat>, interval: nat) {

    ghost predicate Valid() {
      && (forall i :: 0 <= i < |comps| ==> comps[i].dcTbl < 16 && comps[i].acTbl < 16)
      && (forall i :: 0 <= i < |membership| ==> membership[i] < |comps|)
      && |dcL| == |dcU| == |acK| == 16
    }

    function Cond(ci: nat): Conditioning
      requires Valid() && ci < |comps|
    {
      Conditioning(dcL[comps[ci].dcTbl], dcU[comps[ci].dcTbl], acK[comps[ci].acTbl])
    }
  }

  /** The previous DC value and the DC context of each component. */
  datatype Prediction = Prediction(lastDc: seq<int>, context: seq<nat>) {

    ghost predicate For(cfg: Config) {
      && |lastDc| == |context| == |cfg.comps|
      && forall i :: 0 <= i < |context| ==> context[i] <= 16
    }
  }

  function FreshPrediction(cfg: Config): (p: Prediction)
    ensures p.For(cfg)
  {
    Prediction(seq(|cfg.comps|, _ => 0), seq(|cfg.comps|, _ => 0))
  }

  function FreshStats(): (stats: Stats)
    ensures |stats| == STATS_SIZE && ValidStats(stats)
  {
    FixedBinIsFixed();
    seq(STATS_SIZE, i => if i == FIXED_BIN then 113 else 0)
  }

  ghost predicate IsMcu(cfg: Config, mcu: Mcu) {
    |mcu| == |cfg.membership| &&
    forall b, i :: 0 <= b < |mcu| && 0 <= i < 64 ==> -32768 <= mcu[b][i] < 32768
  }

  // ---------- what the encoder codes ----------

  function BlockDecisions(cfg: Config, p: Prediction, ci: nat, block: Block): seq<Decision>
    requires cfg.Valid() && p.For(cfg) && ci < |cfg.comps|
  {
    var z := ToZigZag(block);
    DcDecisions(DcBins(cfg.comps[ci].dcTbl), p.context[ci], z[0] - p.lastDc[ci])
    + AcDecisions(AcBins(cfg.comps[ci].acTbl), cfg.Cond(ci).acK, z, 1, EndOfBlock(z, 63), false)
  }

  function AfterBlock(cfg: Config, p: Prediction, ci: nat, block: Block): (p': Prediction)
    requires cfg.Valid() && p.For(cfg) && ci < |cfg.comps|
    ensures p'.For(cfg)
  {
    Prediction(p.lastDc[ci := block[0]],
               p.context[ci := DcContextAfter(block[0] - p.lastDc[ci], cfg.Cond(ci))])
  }

  /** The blocks of an MCU from block b on. */
  function BlocksDecisions(cfg: Config, p: Prediction, mcu: Mcu, b: nat): seq<Decision>
    requires cfg.Valid() && p.For(cfg) && b <= |mcu| == |cfg.membership|
    decreases |mcu| - b
  {
    if b == |mcu| then []
    else
      var ci := cfg.membership[b];
      BlockDecisions(cfg, p, ci, mcu[b]) + BlocksDecisions(cfg, AfterBlock(cfg, p, ci, mcu[b]), mcu, b + 1)
  }

  function AfterBlocks(cfg: Config, p: Prediction, mcu: Mcu, b: nat): (p': Prediction)
    requires cfg.Valid() && p.For(cfg) && b <= |mcu| == |cfg.membership|
    ensures p'.For(cfg)
    decreases |mcu| - b
  {
    if b == |mcu| then p
    else AfterBlocks(cfg, AfterBlock(cfg, p, cfg.membership[b], mcu[b]), mcu, b + 1)
  }

  ghost predicate AreMcus(cfg: Config, mcus: seq<Mcu>) {
    forall i :: 0 <= i < |mcus| ==> IsMcu(cfg, mcus[i])
  }

  /** The MCUs of one restart interval. */
  function McusDecisions(cfg: Config, p: Prediction, mcus: seq<Mcu>): seq<Decision>
    requires cfg.Valid() && p.For(cfg) && AreMcus(cfg, mcus)
    decreases |mcus|
  {
    if mcus == [] then []
    else
      assert IsMcu(cfg, mcus[0]);
      BlocksDecisions(cfg, p, mcus[0], 0)
         + McusDecisions(cfg, AfterBlocks(cfg, p, mcus[0], 0), mcus[1..])
  }

  // ---------- how the decoder reads ----------

  /** The 16-bit coefficient type. */
  function JCoef(x: nat): (c: int)
    requires x < 0x10000
  {
    if x < 0x8000 then x else x - 0x10000
  }

  function ReadBlock(cfg: Config, p: Prediction, ci: nat, d: Decoder): (r: Read<(Block, Prediction)>)
    requires cfg.Valid() && p.For(cfg) && ci < |cfg.comps| && Ready(d)
    ensures Ready(r.d) && (r.Read? ==> r.val.1.For(cfg))
  {
    hide ReadDc, ReadAc, FromZigZag, DcContextAfter;
    match ReadDc(d, DcBins(cfg.comps[ci].dcTbl), p.context[ci])
    case Bad(d1) => Bad(d1)
    case Read(diff, d1) =>
      var last := (p.lastDc[ci] + diff) % 0x10000;
      match ReadAc(d1, AcBins(cfg.comps[ci].acTbl), cfg.Cond(ci).acK, DcOnly(JCoef(last)), 1, false)
      case Bad(d2) => Bad(d2)
      case Read(z, d2) =>
        Read((FromZigZag(z), Prediction(p.lastDc[ci := last],
                                        p.context[ci := DcContextAfter(diff, cfg.Cond(ci))])), d2)
  }

  function ReadBlocks(cfg: Config, p: Prediction, b: nat, d: Decoder): (r: Read<(Mcu, Prediction)>)
    requires cfg.Valid() && p.For(cfg) && b <= |cfg.membership| && Ready(d)
    ensures Ready(r.d) && (r.Read? ==> r.val.1.For(cfg))
    decreases |cfg.membership| - b
  {
    if b == |cfg.membership| then Read(([], p), d)
    else
      match ReadBlock(cfg, p, cfg.membership[b], d)
      case Bad(d1) => Bad(d1)
      case Read((block, p1), d1) =>
        match ReadBlocks(cfg, p1, b + 1, d1)
        case Bad(d2) => Bad(d2)
        case Read((more, p2), d2) => Read(([block] + more, p2), d2)
  }

  /** The decoder knows the previous DC values modulo 2 to the 16th. */
  ghost predicate SamePrediction(cfg: Config, enc: Prediction, dec: Prediction) {
    && enc.For(cfg) && dec.For(cfg) && enc.context == dec.context
    && forall i :: 0 <= i < |cfg.comps| ==> dec.lastDc[i] == enc.lastDc[i] % 0x10000
  }

  /** The decoder reads back DC differences of at most 32768. */
  ghost predicate SmallDiff(p: Prediction, ci: nat, block: Block)
    requires ci < |p.lastDc|
  {
    Abs(block[0] - p.lastDc[ci]) <= 32768
  }

  ghost predicate SmallDiffs(cfg: Config, p: Prediction, mcu: Mcu, b: nat)
    requires cfg.Valid() && p.For(cfg) && b <= |mcu| == |cfg.membership|
    decreases |mcu| - b
  {
    b < |mcu| ==>
      SmallDiff(p, cfg.membership[b], mcu[b]) &&
      SmallDiffs(cfg, AfterBlock(cfg, p, cfg.membership[b], mcu[b]), mcu, b + 1)
  }

  lemma BlockIsRead(cfg: Config, p: Prediction, q: Prediction, ci: nat, block: Block, d: Decoder,
                    seg: Segment, rest: seq<Decision>)
    requires cfg.Valid() && ci < |cfg.comps| && SamePrediction(cfg, p, q)
    requires Ready(d) && SmallDiff(p, ci, block)
    requires forall i :: 0 <= i < 64 ==> -32768 <= block[i] < 32768
    requires Tracks(d, seg, BlockDecisions(cfg, p, ci, block) + rest)
    ensures var r := ReadBlock(cfg, q, ci, d);
            && r.Read? && r.val.0 == block && Tracks(r.d, seg, rest)
            && SamePrediction(cfg, AfterBlock(cfg, p, ci, block), r.val.1)
  {
    hide Tracks, Decoder.Decode, ReadDc, ReadAc, DcDecisions, AcDecisions, ToZigZag, FromZigZag, DcContextAfter;
    hide Upto, DcOnly;
    var z, acBase, acK := ToZigZag(block), AcBins(cfg.comps[ci].acTbl), cfg.Cond(ci).acK;
    ZigZagFacts(block);
    var ke := EndOfBlock(z, 63);
    var diff := z[0] - p.lastDc[ci];
    var ac := AcDecisions(acBase, acK, z, 1, ke, false) + rest;
    var dcBase := DcBins(cfg.comps[ci].dcTbl);
    assert BlockDecisions(cfg, p, ci, block) + rest == DcDecisions(dcBase, p.context[ci], diff) + ac;
    DcIsRead(d, seg, dcBase, p.context[ci], diff, ac);
    var r := ReadDc(d, dcBase, p.context[ci]);
    var last := (q.lastDc[ci] + diff) % 0x10000;
    assert JCoef(last) == z[0];
    UptoOne(z);
    AcIsRead(r.d, seg, acBase, acK, z, 1, ke, rest);
  }

  lemma ZigZagFacts(block: Block)
    requires forall i :: 0 <= i < 64 ==> -32768 <= block[i] < 32768
    ensures ToZigZag(block)[0] == block[0]
    ensures FromZigZag(ToZigZag(block)) == block
    ensures forall i :: 0 <= i < 64 ==> Abs(ToZigZag(block)[i]) <= 32768
  {
    ZigZagIsUndone(block);
  }

  lemma {:induction false} BlocksAreRead(cfg: Config, p: Prediction, q: Prediction, mcu: Mcu, b: nat,
                                         d: Decoder, seg: Segment, rest: seq<Decision>)
    requires cfg.Valid() && SamePrediction(cfg, p, q) && IsMcu(cfg, mcu) && b <= |mcu|
    requires Ready(d) && SmallDiffs(cfg, p, mcu, b)
    requires Tracks(d, seg, BlocksDecisions(cfg, p, mcu, b) + rest)
    ensures var r := ReadBlocks(cfg, q, b, d);
            && r.Read? && r.val.0 == mcu[b..] && Tracks(r.d, seg, rest)
            && SamePrediction(cfg, AfterBlocks(cfg, p, mcu, b), r.val.1)
    decreases |mcu| - b
  {
    hide Tracks, BlockDecisions, ReadBlock, AfterBlock, SamePrediction;
    SamePredictionFits(cfg, p, q);
    if b == |mcu| {
      assert BlocksDecisions(cfg, p, mcu, b) + rest == rest;
    } else {
      var ci, p1 := cfg.membership[b], AfterBlock(cfg, p, cfg.membership[b], mcu[b]);
      var more := BlocksDecisions(cfg, p1, mcu, b + 1) + rest;
      assert BlocksDecisions(cfg, p, mcu, b) + rest == BlockDecisions(cfg, p, ci, mcu[b]) + more;
      BlockIsRead(cfg, p, q, ci, mcu[b], d, seg, more);
      var r := ReadBlock(cfg, q, ci, d);
      BlocksAreRead(cfg, p1, r.val.1, mcu, b + 1, r.d, seg, rest);
    }
  }

  /** A larger difference is where the decoder gives up. */
  lemma BlockIsLost(cfg: Config, p: Prediction, q: Prediction, ci: nat, block: Block, d: Decoder,
                    seg: Segment, rest: seq<Decision>)
    requires cfg.Valid() && ci < |cfg.comps| && SamePrediction(cfg, p, q)
    requires Ready(d) && !SmallDiff(p, ci, block)
    requires forall i :: 0 <= i < 64 ==> -32768 <= block[i] < 32768
    requires Tracks(d, seg, BlockDecisions(cfg, p, ci, block) + rest)
    ensures var r := ReadBlock(cfg, q, ci, d);
            r.Bad? && StaysIn(r.d, seg)
  {
    hide Tracks, Decoder.Decode, ReadDc, ReadAc, DcDecisions, AcDecisions, ToZigZag, FromZigZag, DcContextAfter;
    hide Upto, DcOnly;
    var z := ToZigZag(block);
    ZigZagFacts(block);
    var ac := AcDecisions(AcBins(cfg.comps[ci].acTbl), cfg.Cond(ci).acK, z, 1, EndOfBlock(z, 63), false) + rest;
    var dcBase, diff := DcBins(cfg.comps[ci].dcTbl), z[0] - p.lastDc[ci];
    assert BlockDecisions(cfg, p, ci, block) + rest == DcDecisions(dcBase, p.context[ci], diff) + ac;
    DcIsRead(d, seg, dcBase, p.context[ci], diff, ac);
  }

  lemma {:induction false} BlocksAreLost(cfg: Config, p: Prediction, q: Prediction, mcu: Mcu, b: nat,
                                         d: Decoder, seg: Segment, rest: seq<Decision>)
    requires cfg.Valid() && SamePrediction(cfg, p, q) && IsMcu(cfg, mcu) && b <= |mcu|
    requires Ready(d) && !SmallDiffs(cfg, p, mcu, b)
    requires Tracks(d, seg, BlocksDecisions(cfg, p, mcu, b) + rest)
    ensures var r := ReadBlocks(cfg, q, b, d);
            r.Bad? && StaysIn(r.d, seg)
    decreases |mcu| - b
  {
    hide Tracks, BlockDecisions, ReadBlock, AfterBlock, SamePrediction, SmallDiff;
    SamePredictionFits(cfg, p, q);
    var ci, p1 := cfg.membership[b], AfterBlock(cfg, p, cfg.membership[b], mcu[b]);
    var more := BlocksDecisions(cfg, p1, mcu, b + 1) + rest;
    assert BlocksDecisions(cfg, p, mcu, b) + rest == BlockDecisions(cfg, p, ci, mcu[b]) + more;
    if SmallDiff(p, ci, mcu[b]) {
      BlockIsRead(cfg, p, q, ci, mcu[b], d, seg, more);
      var r := ReadBlock(cfg, q, ci, d);
      BlocksAreLost(cfg, p1, r.val.1, mcu, b + 1, r.d, seg, rest);
    } else {
      BlockIsLost(cfg, p, q, ci, mcu[b], d, seg, more);
    }
  }

  lemma SamePredictionFits(cfg: Config, p: Prediction, q: Prediction)
    requires SamePrediction(cfg, p, q)
    ensures p.For(cfg) && q.For(cfg)
  {
  }

  // ---------- restart intervals ----------

  ghost predicate SmallMcus(cfg: Config, p: Prediction, mcus: seq<Mcu>)
    requires cfg.Valid() && p.For(cfg) && AreMcus(cfg, mcus)
    decreases |mcus|
  {
    mcus != [] ==>
      IsMcu(cfg, mcus[0]) && SmallDiffs(cfg, p, mcus[0], 0) &&
      SmallMcus(cfg, AfterBlocks(cfg, p, mcus[0], 0), mcus[1..])
  }

  /** The decoder's position in a scan: MCUs left in the restart interval, the number expected in
      the next restart marker, and whether an error has stopped it until then. */
  datatype Reader = Reader(d: Decoder, p: Prediction, togo: nat, nextNum: nat, lost: bool)

  /** What becomes of an MCU. */
  datatype Outcome = Lost | Got(mcu: Mcu)

  /** Where the decoder is once it looks for the next marker. */
  function SourceAtMarker(s: Reader): Source {
    if s.d.src.marker == 0 then NextMarker(s.d.src) else s.d.src
  }

  /** process_restart: finds the restart marker and starts afresh behind it. */
  function ProcessRestart(cfg: Config, s: Reader): (r: Read<Reader>)
    requires cfg.Valid() && Ready(s.d)
    ensures r.Read? ==> Ready(r.val.d) && r.val.p.For(cfg) && r.val.togo == cfg.interval
  {
    var src := SourceAtMarker(s);
    if src.marker != 0xD0 + s.nextNum then Bad(s.d)
    else Read(Reader(Start(src.data, src.pos, FreshStats()), FreshPrediction(cfg), cfg.interval,
                     (s.nextNum + 1) % 8, false), s.d)
  }

  /** decode_mcu: after an error nothing more is decoded up to the next restart. */
  function ReadMcu(cfg: Config, s: Reader): (r: Read<(Outcome, Reader)>)
    requires cfg.Valid() && Ready(s.d) && s.p.For(cfg)
    ensures r.Read? ==> Ready(r.val.1.d) && r.val.1.p.For(cfg)
  {
    var started := if cfg.interval > 0 && s.togo == 0 then ProcessRestart(cfg, s) else Read(s, s.d);
    match started
    case Bad(d1) => Bad(d1)
    case Read(s1, _) =>
      var left := if s1.togo > 0 then s1.togo - 1 else 0;
      if s1.lost then Read((Lost, s1.(togo := left)), s1.d)
      else
        match ReadBlocks(cfg, s1.p, 0, s1.d)
        case Bad(d2) => Read((Lost, Reader(d2, s1.p, left, s1.nextNum, true)), d2)
        case Read((mcu, p2), d2) => Read((Got(mcu), Reader(d2, p2, left, s1.nextNum, false)), d2)
  }

  function ReadMcus(cfg: Config, s: Reader, n: nat): (r: Read<(seq<Outcome>, Reader)>)
    requires cfg.Valid() && Ready(s.d) && s.p.For(cfg)
    ensures r.Read? ==> Ready(r.val.1.d) && r.val.1.p.For(cfg)
    decreases n
  {
    if n == 0 then Read(([], s), s.d)
    else
      match ReadMcu(cfg, s)
      case Bad(d) => Bad(d)
      case Read((mcu, s1), _) =>
        match ReadMcus(cfg, s1, n - 1)
        case Bad(d) => Bad(d)
        case Read((more, s2), _) => Read(([mcu] + more, s2), s2.d)
  }

  lemma {:induction false} ReadMcusInTwo(cfg: Config, s: Reader, m: nat, n: nat)
    requires cfg.Valid() && Ready(s.d) && s.p.For(cfg)
    requires ReadMcus(cfg, s, m).Read?
    requires ReadMcus(cfg, ReadMcus(cfg, s, m).val.1, n).Read?
    ensures var r := ReadMcus(cfg, s, m);
            var t := ReadMcus(cfg, r.val.1, n);
            var u := ReadMcus(cfg, s, m + n);
            u.Read? && u.val == (r.val.0 + t.val.0, t.val.1)
    decreases m
  {
    hide ReadMcu;
    if m == 0 {
      var r := ReadMcus(cfg, s, 0);
      assert r.val.0 + ReadMcus(cfg, r.val.1, n).val.0 == ReadMcus(cfg, r.val.1, n).val.0;
    } else {
      var (mcu, s1) := ReadMcu(cfg, s).val;
      ReadMcusInTwo(cfg, s1, m - 1, n);
      var r := ReadMcus(cfg, s1, m - 1);
      var t := ReadMcus(cfg, r.val.1, n);
      assert [mcu] + (r.val.0 + t.val.0) == [mcu] + r.val.0 + t.val.0;
    }
  }

  /** What the decoder makes of an interval: all MCUs up to the first with a DC difference of
      more than 32768. */
  ghost function Survivors(cfg: Config, p: Prediction, mcus: seq<Mcu>): (o: seq<Outcome>)
    requires cfg.Valid() && p.For(cfg) && AreMcus(cfg, mcus)
    ensures |o| == |mcus|
    decreases |mcus|
  {
    if mcus == [] then []
    else
      assert IsMcu(cfg, mcus[0]);
      if SmallDiffs(cfg, p, mcus[0], 0)
        then [Got(mcus[0])] + Survivors(cfg, AfterBlocks(cfg, p, mcus[0], 0), mcus[1..])
      else AllLost(|mcus|)
  }

  function AllLost(n: nat): (o: seq<Outcome>)
    ensures |o| == n && forall i :: 0 <= i < n ==> o[i] == Lost
  {
    seq(n, _ => Lost)
  }

  function AllGot(mcus: seq<Mcu>): (o: seq<Outcome>)
    ensures |o| == |mcus| && forall i :: 0 <= i < |o| ==> o[i] == Got(mcus[i])
  {
    seq(|mcus|, i requires 0 <= i < |mcus| => Got(mcus[i]))
  }

  /** An MCU is read back exactly if no difference up to it, in its own interval, is too large. */
  lemma {:induction false} SurvivorAt(cfg: Config, p: Prediction, mcus: seq<Mcu>, j: nat)
    requires cfg.Valid() && p.For(cfg) && AreMcus(cfg, mcus) && j < |mcus|
    ensures Survivors(cfg, p, mcus)[j] == if SmallMcus(cfg, p, mcus[..j + 1]) then Got(mcus[j]) else Lost
    decreases j
  {
    hide SmallDiffs, AfterBlocks;
    assert IsMcu(cfg, mcus[0]) && mcus[..j + 1][0] == mcus[0];
    assert mcus[..j + 1][1..] == mcus[1..][..j];
    if SmallDiffs(cfg, p, mcus[0], 0) && j > 0 {
      SurvivorAt(cfg, AfterBlocks(cfg, p, mcus[0], 0), mcus[1..], j - 1);
    }
  }

  /** An interval is read back whole exactly if none of its differences is too large. */
  lemma {:induction false} WholeIntervalSurvives(cfg: Config, p: Prediction, mcus: seq<Mcu>)
    requires cfg.Valid() && p.For(cfg) && AreMcus(cfg, mcus)
    ensures Survivors(cfg, p, mcus) == AllGot(mcus) <==> SmallMcus(cfg, p, mcus)
    decreases |mcus|
  {
    hide SmallDiffs, AfterBlocks;
    if mcus != [] {
      assert IsMcu(cfg, mcus[0]);
      WholeIntervalSurvives(cfg, AfterBlocks(cfg, p, mcus[0], 0), mcus[1..]);
      assert AllGot(mcus) == [Got(mcus[0])] + AllGot(mcus[1..]);
      assert AllLost(|mcus|)[0] == Lost;
      if SmallDiffs(cfg, p, mcus[0], 0) {
        var more := Survivors(cfg, AfterBlocks(cfg, p, mcus[0], 0), mcus[1..]);
        assert ([Got(mcus[0])] + more)[1..] == more && AllGot(mcus)[1..] == AllGot(mcus[1..]);
      }
    }
  }

  /** After an error nothing is read up to the end of the interval, and the decoder stays put. */
  lemma {:induction false} RestIsLost(cfg: Config, s: Reader, n: nat)
    requires cfg.Valid() && Ready(s.d) && s.p.For(cfg) && s.lost
    requires cfg.interval > 0 ==> n <= s.togo
    ensures var r := ReadMcus(cfg, s, n);
            && r.Read? && r.val.0 == AllLost(n) && r.val.1.d == s.d && r.val.1.nextNum == s.nextNum
            && (cfg.interval > 0 ==> r.val.1.togo == s.togo - n)
    decreases n
  {
    if n > 0 {
      RestIsLost(cfg, ReadMcu(cfg, s).val.1, n - 1);
      assert AllLost(n) == [Lost] + AllLost(n - 1);
    }
  }

  /** An interval, given that no restart falls due inside. */
  lemma {:induction false} IntervalIsRead(cfg: Config, p: Prediction, s: Reader, mcus: seq<Mcu>,
                                          seg: Segment)
    requires cfg.Valid() && Ready(s.d) && SamePrediction(cfg, p, s.p) && p.For(cfg) && !s.lost
    requires AreMcus(cfg, mcus)
    requires cfg.interval > 0 ==> |mcus| <= s.togo
    requires Tracks(s.d, seg, McusDecisions(cfg, p, mcus))
    ensures var r := ReadMcus(cfg, s, |mcus|);
            && r.Read? && r.val.0 == Survivors(cfg, p, mcus) && StaysIn(r.val.1.d, seg)
            && r.val.1.nextNum == s.nextNum
            && (cfg.interval > 0 ==> r.val.1.togo == s.togo - |mcus|)
    decreases |mcus|
  {
    hide Tracks, BlocksDecisions, ReadBlocks, AfterBlocks, SmallDiffs, StaysIn;
    if mcus == [] {
      TracksStays(s.d, seg, McusDecisions(cfg, p, mcus));
    } else {
      assert IsMcu(cfg, mcus[0]);
      var p1 := AfterBlocks(cfg, p, mcus[0], 0);
      var more := McusDecisions(cfg, p1, mcus[1..]);
      if SmallDiffs(cfg, p, mcus[0], 0) {
        BlocksAreRead(cfg, p, s.p, mcus[0], 0, s.d, seg, more);
        assert mcus[0][0..] == mcus[0];
        IntervalIsRead(cfg, p1, ReadMcu(cfg, s).val.1, mcus[1..], seg);
      } else {
        BlocksAreLost(cfg, p, s.p, mcus[0], 0, s.d, seg, more);
        RestIsLost(cfg, ReadMcu(cfg, s).val.1, |mcus| - 1);
        assert AllLost(|mcus|) == [Lost] + AllLost(|mcus| - 1);
      }
    }
  }

  // ---------- the whole scan ----------

  ghost predicate InRange(p: Prediction) {
    forall i :: 0 <= i < |p.lastDc| ==> -32768 <= p.lastDc[i] < 32768
  }

  /** Every decision fits the statistics area. */
  ghost predicate Usable(ds: seq<Decision>) {
    forall i :: 0 <= i < |ds| ==> ds[i].val < 2 && ds[i].bin < STATS_SIZE
  }

  lemma NoneUsable()
    ensures Usable([])
  {
  }

  lemma UsableAppend(ds: seq<Decision>, es: seq<Decision>)
    requires Usable(ds) && Usable(es)
    ensures Usable(ds + es)
  {
  }

  lemma BlockIsUsable(cfg: Config, p: Prediction, ci: nat, block: Block)
    requires cfg.Valid() && p.For(cfg) && ci < |cfg.comps| && InRange(p)
    requires forall i :: 0 <= i < 64 ==> -32768 <= block[i] < 32768
    ensures Usable(BlockDecisions(cfg, p, ci, block))
    ensures InRange(AfterBlock(cfg, p, ci, block))
  {
    hide DcDecisions, AcDecisions, ToZigZag;
    ZigZagFacts(block);
    var z := ToZigZag(block);
    DcBinsSuffice(DcBins(cfg.comps[ci].dcTbl), p.context[ci], z[0] - p.lastDc[ci]);
    AcBinsUsed(AcBins(cfg.comps[ci].acTbl), cfg.Cond(ci).acK, z, 1, EndOfBlock(z, 63), false);
  }

  lemma {:induction false} BlocksAreUsable(cfg: Config, p: Prediction, mcu: Mcu, b: nat)
    requires cfg.Valid() && p.For(cfg) && InRange(p) && IsMcu(cfg, mcu) && b <= |mcu|
    ensures Usable(BlocksDecisions(cfg, p, mcu, b)) && InRange(AfterBlocks(cfg, p, mcu, b))
    decreases |mcu| - b
  {
    hide BlockDecisions, Usable;
    if b == |mcu| {
      NoneUsable();
    } else {
      var ci := cfg.membership[b];
      BlockIsUsable(cfg, p, ci, mcu[b]);
      BlocksAreUsable(cfg, AfterBlock(cfg, p, ci, mcu[b]), mcu, b + 1);
      UsableAppend(BlockDecisions(cfg, p, ci, mcu[b]),
                   BlocksDecisions(cfg, AfterBlock(cfg, p, ci, mcu[b]), mcu, b + 1));
    }
  }

  lemma {:induction false} McusAreUsable(cfg: Config, p: Prediction, mcus: seq<Mcu>)
    requires cfg.Valid() && p.For(cfg) && InRange(p) && AreMcus(cfg, mcus)
    ensures Usable(McusDecisions(cfg, p, mcus))
    decreases |mcus|
  {
    hide BlocksDecisions, AfterBlocks, Usable;
    if mcus == [] {
      NoneUsable();
    } else {
      assert IsMcu(cfg, mcus[0]);
      BlocksAreUsable(cfg, p, mcus[0], 0);
      McusAreUsable(cfg, AfterBlocks(cfg, p, mcus[0], 0), mcus[1..]);
      UsableAppend(BlocksDecisions(cfg, p, mcus[0], 0),
                   McusDecisions(cfg, AfterBlocks(cfg, p, mcus[0], 0), mcus[1..]));
    }
  }

  /** The state at the start of every restart interval. */
  function FreshModel(): (m: Model)
    ensures m.Valid() && |m.stats| == STATS_SIZE
  {
    UnitIsValid();
    Model(UNIT, FreshStats())
  }

  /** The bytes of one restart interval before stuffing. */
  function IntervalCode(cfg: Config, mcus: seq<Mcu>): (e: seq<nat>)
    requires cfg.Valid() && AreMcus(cfg, mcus)
    ensures IsBytes(e)
  {
    McusAreUsable(cfg, FreshPrediction(cfg), mcus);
    CodeStringOf(Run(FreshModel(), McusDecisions(cfg, FreshPrediction(cfg), mcus)).iv)
  }

  /** A scan is its restart intervals, each coded from a fresh state, with restart markers
      numbered from n modulo 8 in between. */
  function ScanBytes(cfg: Config, mcus: seq<Mcu>, n: nat): (s: seq<nat>)
    requires cfg.Valid() && AreMcus(cfg, mcus) && n < 8
    decreases |mcus|
  {
    hide IsMcu, IntervalCode, Stuff;
    var k := GroupSize(cfg.interval, |mcus|);
    if k == |mcus| then Stuff(IntervalCode(cfg, mcus))
    else Stuff(IntervalCode(cfg, mcus[..k])) + [0xFF, 0xD0 + n] + ScanBytes(cfg, mcus[k..], (n + 1) % 8)
  }

  /** What makes a scan decodable: in every restart interval the DC differences are at most
      32768 (always so for 8-bit and 12-bit samples). */
  ghost predicate SmallScan(cfg: Config, mcus: seq<Mcu>)
    requires cfg.Valid() && AreMcus(cfg, mcus)
    decreases |mcus|
  {
    var k := GroupSize(cfg.interval, |mcus|);
    SmallMcus(cfg, FreshPrediction(cfg), mcus[..k]) && (k < |mcus| ==> SmallScan(cfg, mcus[k..]))
  }

  /** The data holds the bytes s from at on, and then a marker. */
  ghost predicate Holds(data: seq<nat>, at: nat, s: seq<nat>) {
    at + |s| <= |data| && data[at..at + |s|] == s && StartsWithMarker(data[at + |s|..])
  }

  lemma FreshTracks(cfg: Config, mcus: seq<Mcu>, data: seq<nat>, at: nat)
    requires cfg.Valid() && AreMcus(cfg, mcus)
    requires SegmentAt(data, at, IntervalCode(cfg, mcus))
    ensures Tracks(Start(data, at, FreshStats()), Segment(data, at, IntervalCode(cfg, mcus)),
                   McusDecisions(cfg, FreshPrediction(cfg), mcus))
  {
    hide McusDecisions, CodeStringOf;
    var ds := McusDecisions(cfg, FreshPrediction(cfg), mcus);
    McusAreUsable(cfg, FreshPrediction(cfg), mcus);
    var iv := Run(FreshModel(), ds).iv;
    CodeStringExists(iv);
    CodeStringIsInside(IntervalCode(cfg, mcus), iv);
    StartTracks(Segment(data, at, IntervalCode(cfg, mcus)), FreshStats(), ds);
  }

  /** Wherever in an interval the decoder has stopped, it finds the marker behind it. */
  lemma RestartIsFound(s: Reader, seg: Segment)
    requires Ready(s.d) && StaysIn(s.d, seg)
    ensures var src, n := SourceAtMarker(s), seg.at + |Stuff(seg.e)|;
            && src.data == seg.data && src.pos == n + 2 <= |src.data|
            && src.marker == src.data[n + 1]
  {
    var r: nat :| HasRead(s.d.src, seg.at, seg.e, r);
    if r <= |seg.e| {
      MarkerIsFound(s.d.src, seg.at, seg.e, r);
    }
  }

  function FreshReader(cfg: Config, data: seq<nat>, at: nat, n: nat): Reader
    requires cfg.Valid()
  {
    Reader(Start(data, at, FreshStats()), FreshPrediction(cfg), cfg.interval, n, false)
  }

  /** What the decoder makes of a scan: every restart interval on its own. */
  ghost function ScanSurvivors(cfg: Config, mcus: seq<Mcu>): (o: seq<Outcome>)
    requires cfg.Valid() && AreMcus(cfg, mcus)
    ensures |o| == |mcus|
    decreases |mcus|
  {
    var k := GroupSize(cfg.interval, |mcus|);
    Survivors(cfg, FreshPrediction(cfg), mcus[..k]) + if k < |mcus| then ScanSurvivors(cfg, mcus[k..]) else []
  }

  /**
   * Decoding the scan of any MCUs, whatever the restart interval: in every interval the MCUs come
   * back up to the first DC difference of more than 32768; all that follows it in the interval is
   * lost, and the next interval starts afresh.
   */
  lemma {:induction false} ScanRoundTrip(cfg: Config, mcus: seq<Mcu>, n: nat, data: seq<nat>, at: nat)
    requires cfg.Valid() && AreMcus(cfg, mcus) && n < 8
    requires Holds(data, at, ScanBytes(cfg, mcus, n))
    ensures var r := ReadMcus(cfg, FreshReader(cfg, data, at, n), |mcus|);
            r.Read? && r.val.0 == ScanSurvivors(cfg, mcus)
    decreases |mcus|
  {
    hide ReadMcu, IntervalCode, Survivors, Holds, SourceAtMarker, ScanBytes, StaysIn;
    var k, s := GroupSize(cfg.interval, |mcus|), FreshReader(cfg, data, at, n);
    var seg := Segment(data, at, IntervalCode(cfg, mcus[..k]));
    ScanStarts(cfg, mcus, n, data, at);
    FirstIsRead(cfg, mcus, n, data, at);
    if k < |mcus| {
      var r := ReadMcus(cfg, s, k).val.1;
      RestartIsFound(r, seg);
      var next := at + |Stuff(seg.e)| + 2;
      ScanRoundTrip(cfg, mcus[k..], (n + 1) % 8, data, next);
      RestartThenRead(cfg, r, |mcus| - k, data, next);
      ReadMcusInTwo(cfg, s, k, |mcus| - k);
    }
  }

  lemma SurvivorsInTwo(cfg: Config, mcus: seq<Mcu>)
    requires cfg.Valid() && AreMcus(cfg, mcus)
    ensures var k := GroupSize(cfg.interval, |mcus|);
            && ScanSurvivors(cfg, mcus)[..k] == Survivors(cfg, FreshPrediction(cfg), mcus[..k])
            && ScanSurvivors(cfg, mcus)[k..] == ScanSurvivors(cfg, mcus[k..])
  {
    hide Survivors, IsMcu;
    var k := GroupSize(cfg.interval, |mcus|);
    assert k == |mcus| ==> mcus[k..] == [] && ScanSurvivors(cfg, mcus[k..]) == [];
  }

  /** What becomes of the rest of a scan does not depend on the intervals before it. */
  lemma {:induction false} LaterIntervalsSurvive(cfg: Config, mcus: seq<Mcu>, i: nat)
    requires cfg.Valid() && AreMcus(cfg, mcus) && i < |mcus| && StartsInterval(cfg.interval, i)
    ensures ScanSurvivors(cfg, mcus)[i..] == ScanSurvivors(cfg, mcus[i..])
    decreases i
  {
    hide ScanSurvivors, IsMcu, Survivors;
    if i == 0 {
      assert mcus[0..] == mcus;
    } else {
      var k := cfg.interval;
      WholeIntervals(i, k);
      SurvivorsInTwo(cfg, mcus);
      LaterIntervalsSurvive(cfg, mcus[k..], i - k);
      assert mcus[k..][i - k..] == mcus[i..];
      var o := ScanSurvivors(cfg, mcus);
      assert o[k..][i - k..] == o[i..];
    }
  }

  /** The interval that starts at MCU i is read back exactly if its own differences are at most
      32768, whatever the other intervals hold. */
  lemma IntervalSurvives(cfg: Config, mcus: seq<Mcu>, i: nat)
    requires cfg.Valid() && AreMcus(cfg, mcus) && i < |mcus| && StartsInterval(cfg.interval, i)
    ensures var k := GroupSize(cfg.interval, |mcus| - i);
            ScanSurvivors(cfg, mcus)[i..i + k] == AllGot(mcus[i..i + k])
            <==> SmallMcus(cfg, FreshPrediction(cfg), mcus[i..i + k])
  {
    hide ScanSurvivors, IsMcu, Survivors, SmallMcus, AllGot, StartsInterval, GroupSize, AreMcus;
    var k := GroupSize(cfg.interval, |mcus| - i);
    var rest, own := mcus[i..], mcus[i..i + k];
    PartsAreMcus(cfg, mcus, i, k);
    LaterIntervalsSurvive(cfg, mcus, i);
    SurvivorsInTwo(cfg, rest);
    assert rest[..k] == own;
    WholeIntervalSurvives(cfg, FreshPrediction(cfg), own);
    TakeFromRest(ScanSurvivors(cfg, mcus), i, k);
  }

  lemma PartsAreMcus(cfg: Config, mcus: seq<Mcu>, i: nat, k: nat)
    requires AreMcus(cfg, mcus) && i + k <= |mcus|
    ensures AreMcus(cfg, mcus[i..]) && AreMcus(cfg, mcus[i..i + k])
  {
    hide IsMcu;
  }

  lemma TakeFromRest(o: seq<Outcome>, i: nat, k: nat)
    requires i + k <= |o|
    ensures o[i..i + k] == o[i..][..k]
  {
  }

  /** A whole scan is read back exactly if none of its differences is too large. */
  lemma {:induction false} WholeScanSurvives(cfg: Config, mcus: seq<Mcu>)
    requires cfg.Valid() && AreMcus(cfg, mcus)
    ensures ScanSurvivors(cfg, mcus) == AllGot(mcus) <==> SmallScan(cfg, mcus)
    decreases |mcus|
  {
    hide Survivors, SmallMcus;
    var k := GroupSize(cfg.interval, |mcus|);
    var first := Survivors(cfg, FreshPrediction(cfg), mcus[..k]);
    WholeIntervalSurvives(cfg, FreshPrediction(cfg), mcus[..k]);
    assert AllGot(mcus)[..k] == AllGot(mcus[..k]) && AllGot(mcus)[k..] == AllGot(mcus[k..]);
    if k < |mcus| {
      WholeScanSurvives(cfg, mcus[k..]);
      var rest := ScanSurvivors(cfg, mcus[k..]);
      assert (first + rest)[..k] == first && (first + rest)[k..] == rest;
      assert AllGot(mcus) == AllGot(mcus[..k]) + AllGot(mcus[k..]);
    } else {
      assert mcus[..k] == mcus;
    }
  }

  // ---------- a scan that is not read back ----------

  /** Two MCUs of one block each, with the least and the greatest DC value. */
  function WideStep(): (mcus: seq<Mcu>) {
    [[DcOnly(-32768)], [DcOnly(32767)]]
  }

  function OneComponent(interval: nat): (cfg: Config)
    ensures cfg.Valid()
  {
    Config([Component(0, 0)], [0], seq(16, _ => 0), seq(16, _ => 1), seq(16, _ => 5), interval)
  }

  /** Without restarts the second of the two is lost; with a restart in between both come back. */
  lemma WideStepIsLost()
    ensures AreMcus(OneComponent(0), WideStep()) && AreMcus(OneComponent(1), WideStep())
    ensures ScanSurvivors(OneComponent(0), WideStep()) == [Got([DcOnly(-32768)]), Lost]
    ensures ScanSurvivors(OneComponent(1), WideStep()) == AllGot(WideStep())
  {
    hide DcContextAfter;
    var a, b := [DcOnly(-32768)], [DcOnly(32767)];
    var whole, split := OneComponent(0), OneComponent(1);
    assert IsMcu(whole, a) && IsMcu(whole, b) && IsMcu(split, a) && IsMcu(split, b);
    var p := FreshPrediction(whole);
    assert WideStep()[1..] == [b] && WideStep()[..2] == WideStep();
    assert SmallDiffs(whole, p, a, 0);
    var q := AfterBlocks(whole, p, a, 0);
    assert q.lastDc[0] == -32768;
    assert !SmallDiffs(whole, q, b, 0);
    assert Survivors(whole, q, [b]) == AllLost(1) == [Lost];
    assert WideStep()[..1] == [a] && [b][..1] == [b] && [a][1..] == [] == [b][1..];
    assert SmallDiffs(split, FreshPrediction(split), a, 0) && SmallDiffs(split, FreshPrediction(split), b, 0);
    assert Survivors(split, FreshPrediction(split), [a]) == [Got(a)];
    assert Survivors(split, FreshPrediction(split), [b]) == [Got(b)];
    assert ScanSurvivors(split, [b]) == [Got(b)];
  }

  /** So the decoder does not return what was encoded, though all of it was legal. */
  lemma WideStepIsNotReadBack(before: seq<nat>, behind: seq<nat>)
    requires StartsWithMarker(behind)
    ensures AreMcus(OneComponent(0), WideStep())
    ensures var data := before + ScanBytes(OneComponent(0), WideStep(), 0) + behind;
            var r := ReadMcus(OneComponent(0), FreshReader(OneComponent(0), data, |before|, 0), 2);
            r.Read? && r.val.0 == [Got([DcOnly(-32768)]), Lost]
  {
    hide ScanBytes, ScanSurvivors, ReadMcus;
    WideStepIsLost();
    var scan := ScanBytes(OneComponent(0), WideStep(), 0);
    var data := before + scan + behind;
    assert data[|before|..|before| + |scan|] == scan && data[|before| + |scan|..] == behind;
    ScanRoundTrip(OneComponent(0), WideStep(), 0, data, |before|);
  }

  /** The first restart interval is read, as far as it can be, and the decoder is left in it. */
  lemma FirstIsRead(cfg: Config, mcus: seq<Mcu>, n: nat, data: seq<nat>, at: nat)
    requires cfg.Valid() && AreMcus(cfg, mcus) && n < 8
    requires SegmentAt(data, at, IntervalCode(cfg, mcus[..GroupSize(cfg.interval, |mcus|)]))
    ensures var k := GroupSize(cfg.interval, |mcus|);
            var r := ReadMcus(cfg, FreshReader(cfg, data, at, n), k);
            && r.Read? && r.val.0 == Survivors(cfg, FreshPrediction(cfg), mcus[..k]) && r.val.1.nextNum == n
            && StaysIn(r.val.1.d, Segment(data, at, IntervalCode(cfg, mcus[..k])))
            && (cfg.interval > 0 ==> r.val.1.togo == cfg.interval - k)
  {
    hide Tracks, ReadMcu, IntervalCode, McusDecisions, Survivors, SourceAtMarker, StaysIn;
    var k := GroupSize(cfg.interval, |mcus|);
    FreshTracks(cfg, mcus[..k], data, at);
    IntervalIsRead(cfg, FreshPrediction(cfg), FreshReader(cfg, data, at, n), mcus[..k],
                   Segment(data, at, IntervalCode(cfg, mcus[..k])));
  }

  /** Where the pieces of a scan lie. */
  lemma ScanStarts(cfg: Config, mcus: seq<Mcu>, n: nat, data: seq<nat>, at: nat)
    requires cfg.Valid() && AreMcus(cfg, mcus) && n < 8
    requires Holds(data, at, ScanBytes(cfg, mcus, n))
    ensures var k := GroupSize(cfg.interval, |mcus|);
            var e := IntervalCode(cfg, mcus[..k]);
            var m := at + |Stuff(e)|;
            && SegmentAt(data, at, e)
            && (k < |mcus| ==>
                  && m + 2 <= |data| && data[m + 1] == 0xD0 + n
                  && Holds(data, m + 2, ScanBytes(cfg, mcus[k..], (n + 1) % 8)))
  {
    hide IntervalCode;
    var k := GroupSize(cfg.interval, |mcus|);
    var t := Stuff(IntervalCode(cfg, mcus[..k]));
    if k == |mcus| {
      assert mcus[..k] == mcus;
    } else {
      HoldsFirst(data, at, t, n, ScanBytes(cfg, mcus[k..], (n + 1) % 8));
    }
  }

  lemma HoldsFirst(data: seq<nat>, at: nat, t: seq<nat>, n: nat, rest: seq<nat>)
    requires n < 8 && Holds(data, at, t + [0xFF, 0xD0 + n] + rest)
    ensures var m := at + |t|;
            && m + 2 <= |data| && data[at..m] == t
            && StartsWithMarker(data[m..]) && data[m + 1] == 0xD0 + n
            && Holds(data, m + 2, rest)
  {
    var s, m := t + [0xFF, 0xD0 + n] + rest, at + |t|;
    var d := data[at..at + |s|];
    assert data[at..m] == d[..|t|] == t;
    assert data[m] == d[|t|] == 0xFF && data[m + 1] == d[|t| + 1] == 0xD0 + n;
    assert data[m + 2..m + 2 + |rest|] == d[|t| + 2..] == rest;
    assert at + |s| == m + 2 + |rest|;
  }

  /** Reading on from a due restart is reading from the fresh state behind the marker. */
  lemma RestartThenRead(cfg: Config, s: Reader, n: nat, data: seq<nat>, at: nat)
    requires cfg.Valid() && cfg.interval > 0 && Ready(s.d) && s.p.For(cfg)
    requires s.togo == 0 && n > 0 && s.nextNum < 8
    requires SourceAtMarker(s) == Source(data, at, 0xD0 + s.nextNum)
    ensures ReadMcus(cfg, s, n) == ReadMcus(cfg, FreshReader(cfg, data, at, (s.nextNum + 1) % 8), n)
  {
    hide ReadBlocks;
    assert ReadMcu(cfg, s) == ReadMcu(cfg, FreshReader(cfg, data, at, (s.nextNum + 1) % 8));
  }

  // ---------- scans that are always decodable ----------

  /** DC values as 8-bit and 12-bit samples give them: 15 bits at most. */
  predicate IsNarrow(dc: int) {
    -0x4000 <= dc <= 0x4000
  }

  ghost predicate NarrowPrediction(p: Prediction) {
    forall i :: 0 <= i < |p.lastDc| ==> IsNarrow(p.lastDc[i])
  }

  ghost predicate NarrowMcu(mcu: Mcu) {
    forall b :: 0 <= b < |mcu| ==> IsNarrow(mcu[b][0])
  }

  lemma {:induction false} NarrowMcuIsSmall(cfg: Config, p: Prediction, mcu: Mcu, b: nat)
    requires cfg.Valid() && p.For(cfg) && b <= |mcu| == |cfg.membership|
    requires NarrowPrediction(p) && NarrowMcu(mcu)
    ensures SmallDiffs(cfg, p, mcu, b) && NarrowPrediction(AfterBlocks(cfg, p, mcu, b))
    decreases |mcu| - b
  {
    hide DcContextAfter;
    if b < |mcu| {
      NarrowMcuIsSmall(cfg, AfterBlock(cfg, p, cfg.membership[b], mcu[b]), mcu, b + 1);
    }
  }

  lemma {:induction false} NarrowMcusAreSmall(cfg: Config, p: Prediction, mcus: seq<Mcu>)
    requires cfg.Valid() && p.For(cfg) && AreMcus(cfg, mcus)
    requires NarrowPrediction(p) && forall i :: 0 <= i < |mcus| ==> NarrowMcu(mcus[i])
    ensures SmallMcus(cfg, p, mcus)
    decreases |mcus|
  {
    hide AfterBlocks, SmallDiffs, NarrowPrediction, NarrowMcu;
    if mcus != [] {
      assert IsMcu(cfg, mcus[0]);
      NarrowMcuIsSmall(cfg, p, mcus[0], 0);
      NarrowMcusAreSmall(cfg, AfterBlocks(cfg, p, mcus[0], 0), mcus[1..]);
    }
  }

  /** With DC values of 15 bits no difference is too large, so every such scan can be decoded. */
  lemma {:induction false} NarrowScanIsSmall(cfg: Config, mcus: seq<Mcu>)
    requires cfg.Valid() && AreMcus(cfg, mcus) && forall i :: 0 <= i < |mcus| ==> NarrowMcu(mcus[i])
    ensures SmallScan(cfg, mcus)
    decreases |mcus|
  {
    hide SmallMcus, NarrowMcu;
    var k := GroupSize(cfg.interval, |mcus|);
    NarrowMcusAreSmall(cfg, FreshPrediction(cfg), mcus[..k]);
    if k < |mcus| {
      NarrowScanIsSmall(cfg, mcus[k..]);
    }
  }

  /** So whatever lies before the scan, and whatever follows its final marker, it is read back. */
  lemma NarrowScanRoundTrip(cfg: Config, mcus: seq<Mcu>, before: seq<nat>, behind: seq<nat>)
    requires cfg.Valid() && AreMcus(cfg, mcus) && forall i :: 0 <= i < |mcus| ==> NarrowMcu(mcus[i])
    requires StartsWithMarker(behind)
    ensures var r := ReadMcus(cfg, FreshReader(cfg, before + ScanBytes(cfg, mcus, 0) + behind, |before|, 0), |mcus|);
            r.Read? && r.val.0 == AllGot(mcus)
  {
    hide ScanBytes, SmallScan, NarrowMcu, ReadMcus, ScanSurvivors;
    var scan := ScanBytes(cfg, mcus, 0);
    var data := before + scan + behind;
    NarrowScanIsSmall(cfg, mcus);
    assert data[|before|..|before| + |scan|] == scan && data[|before| + |scan|..] == behind;
    ScanRoundTrip(cfg, mcus, 0, data, |before|);
    WholeScanSurvives(cfg, mcus);
  }
}
