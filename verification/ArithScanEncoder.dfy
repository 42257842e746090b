/** encode_mcu of jcarith.c: the coefficient loops that drive the arithmetic encoder. */
module ArithScanEncoder {
  import opened Powers
  import opened Aritab
  import opened CodeBytes
  import opened IntervalCoder
  import opened CodeString
  import opened ArithEncoder
  import opened Binarization
  import opened RestartIntervals
  import opened ZigZag
  import opened Mcus
  import opened ArithScan

  /** The encoder has its statistics area and every decision of ds fits it. */
  ghost predicate CanCode(enc: Encoder, ds: seq<Decision>)
    reads enc, enc.stats
  {
    enc.Valid() && enc.stats.Length == STATS_SIZE && Usable(ds)
  }

  ghost function Coded(enc: Encoder, ds: seq<Decision>): Model
    reads enc, enc.stats
    requires CanCode(enc, ds)
  {
    Run(enc.Now(), ds)
  }

  /** Codes the first of the decisions that remain. */
  method Code(enc: Encoder, bin: nat, val: nat, ghost rest: seq<Decision>)
    requires CanCode(enc, [Decision(bin, val)] + rest)
    modifies enc, enc.stats
    ensures CanCode(enc, rest) && enc.base == old(enc.base)
    ensures Coded(enc, rest) == old(Coded(enc, [Decision(bin, val)] + rest))
  {
    ghost var ds := [Decision(bin, val)] + rest;
    assert ds[0] == Decision(bin, val) && ds[1..] == rest;
    assert forall i :: 0 <= i < |rest| ==> rest[i] == ds[i + 1];
    enc.Encode(bin, val);
  }

  /** Figure F.8: the magnitude category from v2 on, its X bins starting at x; m doubles with
      every step. */
  method CodeCategory(enc: Encoder, x: nat, size: nat, first: nat, ghost j0: nat, ghost rest: seq<Decision>)
    returns (st: nat, m: nat)
    requires size > 0 && first == Pow2(j0)
    requires CanCode(enc, CategoryDecisions(x, size) + rest)
    modifies enc, enc.stats
    ensures CanCode(enc, rest) && enc.base == old(enc.base)
    ensures Coded(enc, rest) == old(Coded(enc, CategoryDecisions(x, size) + rest))
    ensures st == x + Log2(size) && m == Pow2(j0 + Log2(size))
  {
    hide Run, CanCode, Coded, CategoryDecisions, Log2, Pow2;
    st, m := x, first;
    var v2 := size / 2;
    ghost var goal, cur := Coded(enc, CategoryDecisions(x, size) + rest), size;
    while v2 != 0
      invariant cur > 0 && v2 == cur / 2
      invariant Log2(cur) <= Log2(size) && st == x + (Log2(size) - Log2(cur))
      invariant m == Pow2(j0 + (Log2(size) - Log2(cur)))
      invariant CanCode(enc, CategoryDecisions(st, cur) + rest) && enc.base == old(enc.base)
      invariant Coded(enc, CategoryDecisions(st, cur) + rest) == goal
      decreases v2
    {
      ghost var more, j := CategoryDecisions(st + 1, v2) + rest, j0 + (Log2(size) - Log2(cur));
      CategoryStep(st, cur, j, rest);
      Code(enc, st, 1, more);
      m := 2 * m;
      st := st + 1;
      cur := v2;
      v2 := v2 / 2;
    }
    CategoryEnds(st, rest);
    Code(enc, st, 0, rest);
  }

  lemma CategoryStep(st: nat, size: nat, j: nat, rest: seq<Decision>)
    requires size > 1
    ensures Log2(size) == Log2(size / 2) + 1 && Pow2(j + 1) == 2 * Pow2(j)
    ensures CategoryDecisions(st, size) + rest == [Decision(st, 1)] + (CategoryDecisions(st + 1, size / 2) + rest)
  {
  }

  lemma CategoryEnds(st: nat, rest: seq<Decision>)
    ensures Log2(1) == 0 && CategoryDecisions(st, 1) + rest == [Decision(st, 0)] + rest
  {
  }

  /** Figure F.9: the bits of w below its highest bit m. */
  method CodePattern(enc: Encoder, st: nat, top: nat, w: nat, ghost rest: seq<Decision>)
    requires w == 0 ==> top == 0
    requires w > 0 ==> top == Pow2(Log2(w))
    requires CanCode(enc, PatternDecisions(st, if w == 0 then 0 else Log2(w), w) + rest)
    modifies enc, enc.stats
    ensures CanCode(enc, rest) && enc.base == old(enc.base)
    ensures Coded(enc, rest)
         == old(Coded(enc, PatternDecisions(st, if w == 0 then 0 else Log2(w), w) + rest))
  {
    hide Run, CanCode, Bit, Log2;
    ghost var j: nat := if w == 0 then 0 else Log2(w);
    ghost var goal := Coded(enc, PatternDecisions(st, j, w) + rest);
    var m := top / 2;
    while m != 0
      invariant m == if j == 0 then 0 else Pow2(j - 1)
      invariant CanCode(enc, PatternDecisions(st, j, w) + rest) && enc.base == old(enc.base)
      invariant Coded(enc, PatternDecisions(st, j, w) + rest) == goal
      decreases j
    {
      ghost var more := PatternDecisions(st, j - 1, w) + rest;
      assert PatternDecisions(st, j, w) + rest == [Decision(st, Bit(w, m))] + more;
      Code(enc, st, if Bit(w, m) != 0 then 1 else 0, more);
      j := j - 1;
      m := m / 2;
    }
    assert PatternDecisions(st, j, w) + rest == rest;
  }

  /** Figures F.4 to F.9 for a DC difference v; returns the component's next context. */
  method CodeDc(enc: Encoder, base: nat, context: nat, diff: int, cond: Conditioning,
                ghost rest: seq<Decision>) returns (next: nat)
    requires context <= 16
    requires CanCode(enc, DcDecisions(base, context, diff) + rest)
    modifies enc, enc.stats
    ensures CanCode(enc, rest) && enc.base == old(enc.base)
    ensures Coded(enc, rest) == old(Coded(enc, DcDecisions(base, context, diff) + rest))
    ensures next == DcContextAfter(diff, cond)
  {
    hide Run, CanCode, MagnitudeDecisions, PatternDecisions, Log2, Pow2;
    var st := base + context;
    if diff == 0 {
      Code(enc, st, 0, rest);
      next := 0;
      return;
    }
    var w := Abs(diff) - 1;
    ghost var tail := DcSize(base, st + 2 + Sign(diff), w) + rest;
    assert DcDecisions(base, context, diff) + rest
        == [Decision(st, 1)] + ([Decision(st + 1, Sign(diff))] + tail);
    st, next := CodeDcSign(enc, st, diff, tail);
    var m;
    st, m := CodeDcCategory(enc, base, st, w, rest);
    if m < Pow2(cond.dcL) / 2 {
      next := 0;
    } else if m > Pow2(cond.dcU) / 2 {
      next := next + 8;
    }
    st := st + 14;
    CodePattern(enc, st, m, w, rest);
  }

  /** Figures F.6 and F.7 for a DC difference: it is not zero, and its sign. */
  method CodeDcSign(enc: Encoder, first: nat, diff: int, ghost tail: seq<Decision>) returns (st: nat, next: nat)
    requires diff != 0
    requires CanCode(enc, [Decision(first, 1)] + ([Decision(first + 1, Sign(diff))] + tail))
    modifies enc, enc.stats
    ensures CanCode(enc, tail) && enc.base == old(enc.base)
    ensures Coded(enc, tail) == old(Coded(enc, [Decision(first, 1)] + ([Decision(first + 1, Sign(diff))] + tail)))
    ensures st == first + 2 + Sign(diff) && next == if diff > 0 then 4 else 8
  {
    hide Run, CanCode, Coded;
    Code(enc, first, 1, [Decision(first + 1, Sign(diff))] + tail);
    if diff > 0 {
      Code(enc, first + 1, 0, tail);
      st := first + 2;
      next := 4;
    } else {
      Code(enc, first + 1, 1, tail);
      st := first + 3;
      next := 8;
    }
  }

  /** Figure F.8 for a DC difference: its first bin is first, its X bins start at 20. */
  method CodeDcCategory(enc: Encoder, base: nat, first: nat, w: nat, ghost rest: seq<Decision>)
    returns (st: nat, m: nat)
    requires CanCode(enc, DcSize(base, first, w) + rest)
    modifies enc, enc.stats
    ensures m == Extent(w)
    ensures CanCode(enc, DcPattern(st, w) + rest) && enc.base == old(enc.base)
    ensures Coded(enc, DcPattern(st, w) + rest) == old(Coded(enc, DcSize(base, first, w) + rest))
  {
    hide Run, CanCode, CategoryDecisions, PatternDecisions;
    st, m := first, 0;
    if w != 0 {
      ghost var pattern := PatternDecisions(base + 20 + Log2(w) + 14, Log2(w), w) + rest;
      assert DcSize(base, st, w) + rest == [Decision(st, 1)] + (CategoryDecisions(base + 20, w) + pattern);
      Code(enc, st, 1, CategoryDecisions(base + 20, w) + pattern);
      st, m := CodeCategory(enc, base + 20, w, 1, 0, pattern);
    } else {
      Code(enc, st, 0, rest);
      NoPattern(st + 14, w, rest);
    }
  }

  ghost function DcSize(base: nat, st: nat, w: nat): seq<Decision> {
    if w == 0 then [Decision(st, 0)] else [Decision(st, 1)] + MagnitudeDecisions(base + 20, w, w)
  }

  ghost function DcPattern(st: nat, w: nat): seq<Decision> {
    PatternDecisions(st + 14, if w == 0 then 0 else Log2(w), w)
  }

  /** Figures F.6 to F.9 for a nonzero AC coefficient. */
  method CodeCoef(enc: Encoder, base: nat, k: nat, acK: nat, v: int, ghost rest: seq<Decision>)
    requires 0 < k < 64 && v != 0
    requires CanCode(enc, CoefDecisions(base, k, acK, v) + rest)
    modifies enc, enc.stats
    ensures CanCode(enc, rest) && enc.base == old(enc.base)
    ensures Coded(enc, rest) == old(Coded(enc, CoefDecisions(base, k, acK, v) + rest))
  {
    hide Run, CanCode, CategoryDecisions, PatternDecisions, Log2;
    var st, w := base + 3 * (k - 1), Abs(v) - 1;
    var x := base + (if k <= acK then 189 else 217);
    ghost var size := SizeDecisions(st + 2, x, w) + rest;
    ghost var sign := Decision(FIXED_BIN, Sign(v));
    assert CoefDecisions(base, k, acK, v) + rest == [Decision(st + 1, 1)] + ([sign] + size);
    hide CoefDecisions, SizeDecisions, Coded;
    Code(enc, st + 1, 1, [sign] + size);
    if v > 0 {
      Code(enc, FIXED_BIN, 0, size);
    } else {
      Code(enc, FIXED_BIN, 1, size);
    }
    CodeSize(enc, st + 2, x, w, rest);
  }

  method CodeSize(enc: Encoder, first: nat, x: nat, w: nat, ghost rest: seq<Decision>)
    requires CanCode(enc, SizeDecisions(first, x, w) + rest)
    modifies enc, enc.stats
    ensures CanCode(enc, rest) && enc.base == old(enc.base)
    ensures Coded(enc, rest) == old(Coded(enc, SizeDecisions(first, x, w) + rest))
  {
    hide Run, CanCode, CategoryDecisions, PatternDecisions;
    var st, m := first, 0;
    ghost var one, zero := Decision(st, 1), Decision(st, 0);
    if w != 0 {
      m := 1;
      var v2 := w / 2;
      if v2 != 0 {
        ghost var pattern := PatternDecisions(x + Log2(v2) + 14, Log2(w), w) + rest;
        ghost var tail := CategoryDecisions(x, v2) + pattern;
        assert SizeDecisions(st, x, w) + rest == [one] + ([one] + tail);
        Code(enc, st, 1, [one] + tail);
        Code(enc, st, 1, tail);
        m := 2 * m;
        st, m := CodeCategory(enc, x, v2, m, 1, pattern);
      } else {
        assert SizeDecisions(st, x, w) + rest == [one] + ([zero] + rest);
        Code(enc, st, 1, [zero] + rest);
        Code(enc, st, 0, rest);
        NoPattern(st + 14, w, rest);
      }
    } else {
      Code(enc, st, 0, rest);
      NoPattern(st + 14, w, rest);
    }
    st := st + 14;
    CodePattern(enc, st, m, w, rest);
  }

  lemma NoPattern(st: nat, w: nat, rest: seq<Decision>)
    requires w < 2
    ensures PatternDecisions(st, if w == 0 then 0 else Log2(w), w) + rest == rest
  {
  }

  /** Figure F.5: the AC coefficients of a block. */
  method CodeAc(enc: Encoder, base: nat, acK: nat, block: Block, ghost rest: seq<Decision>)
    requires var z := ToZigZag(block);
             CanCode(enc, AcDecisions(base, acK, z, 1, EndOfBlock(z, 63), false) + rest)
    modifies enc, enc.stats
    ensures CanCode(enc, rest) && enc.base == old(enc.base)
    ensures Coded(enc, rest) == old(var z := ToZigZag(block);
              Coded(enc, AcDecisions(base, acK, z, 1, EndOfBlock(z, 63), false) + rest))
  {
    hide Run, CanCode, CoefDecisions, Natural, AcDecisions;
    ghost var z := ToZigZag(block);
    ghost var goal := Coded(enc, AcDecisions(base, acK, z, 1, EndOfBlock(z, 63), false) + rest);
    var ke := 63;
    while ke > 0 && block[Natural(ke)] == 0
      invariant ke <= 63 && EndOfBlock(z, ke) == EndOfBlock(z, 63)
    {
      ke := ke - 1;
    }
    assert ke == EndOfBlock(z, 63);
    var k := 1;
    while k <= ke
      invariant 0 < k <= ke + 1
      invariant CanCode(enc, AcDecisions(base, acK, z, k, ke, false) + rest) && enc.base == old(enc.base)
      invariant Coded(enc, AcDecisions(base, acK, z, k, ke, false) + rest) == goal
    {
      ghost var more := AcDecisions(base, acK, z, k, ke, true) + rest;
      AcUnfolds(base, acK, z, k, ke, rest);
      Code(enc, base + 3 * (k - 1), 0, more);
      k := SkipZeros(enc, base, acK, block, k, ke, rest);
      more := AcDecisions(base, acK, z, k + 1, ke, false) + rest;
      AcUnfolds(base, acK, z, k, ke, rest);
      CodeCoef(enc, base, k, acK, block[Natural(k)], more);
      k := k + 1;
    }
    AcUnfolds(base, acK, z, k, ke, rest);
    if k <= 63 {
      Code(enc, base + 3 * (k - 1), 1, rest);
    }
  }

  lemma AcUnfolds(base: nat, acK: nat, z: seq<int>, k: nat, ke: nat, rest: seq<Decision>)
    requires |z| == 64 && 0 < k <= ke + 1 <= 64 && (ke > 0 ==> z[ke] != 0)
    ensures k <= ke ==>
              AcDecisions(base, acK, z, k, ke, false) + rest
              == [Decision(base + 3 * (k - 1), 0)] + (AcDecisions(base, acK, z, k, ke, true) + rest)
    ensures k <= ke && z[k] != 0 ==>
              AcDecisions(base, acK, z, k, ke, true) + rest
              == CoefDecisions(base, k, acK, z[k]) + (AcDecisions(base, acK, z, k + 1, ke, false) + rest)
    ensures ke < k <= 63 ==>
              AcDecisions(base, acK, z, k, ke, false) + rest == [Decision(base + 3 * (k - 1), 1)] + rest
    ensures ke < k && k > 63 ==> AcDecisions(base, acK, z, k, ke, false) + rest == rest
  {
  }

  /** The inner loop of Figure F.5: stops at a nonzero coefficient at or before ke. */
  method SkipZeros(enc: Encoder, base: nat, acK: nat, block: Block, k0: nat, ghost ke: nat,
                   ghost rest: seq<Decision>) returns (k: nat)
    requires 0 < k0 <= ke < 64 && ToZigZag(block)[ke] != 0
    requires CanCode(enc, AcDecisions(base, acK, ToZigZag(block), k0, ke, true) + rest)
    modifies enc, enc.stats
    ensures k0 <= k <= ke && ToZigZag(block)[k] != 0
    ensures CanCode(enc, AcDecisions(base, acK, ToZigZag(block), k, ke, true) + rest) && enc.base == old(enc.base)
    ensures Coded(enc, AcDecisions(base, acK, ToZigZag(block), k, ke, true) + rest)
         == old(Coded(enc, AcDecisions(base, acK, ToZigZag(block), k0, ke, true) + rest))
  {
    hide Run, CanCode, CoefDecisions, Natural;
    ghost var z := ToZigZag(block);
    ghost var goal := Coded(enc, AcDecisions(base, acK, z, k0, ke, true) + rest);
    k := k0;
    var st := base + 3 * (k - 1);
    while block[Natural(k)] == 0
      invariant k0 <= k <= ke && st == base + 3 * (k - 1)
      invariant CanCode(enc, AcDecisions(base, acK, z, k, ke, true) + rest) && enc.base == old(enc.base)
      invariant Coded(enc, AcDecisions(base, acK, z, k, ke, true) + rest) == goal
      decreases ke - k
    {
      ghost var more := AcDecisions(base, acK, z, k + 1, ke, true) + rest;
      assert AcDecisions(base, acK, z, k, ke, true) + rest == [Decision(st + 1, 0)] + more;
      Code(enc, st + 1, 0, more);
      st := st + 3;
      k := k + 1;
    }
  }

  // ---------- MCU by MCU ----------

  ghost function AfterMcus(cfg: Config, p: Prediction, mcus: seq<Mcu>): (q: Prediction)
    requires cfg.Valid() && p.For(cfg) && AreMcus(cfg, mcus)
    ensures q.For(cfg)
    decreases |mcus|
  {
    if mcus == [] then p
    else
      assert IsMcu(cfg, mcus[0]);
      AfterMcus(cfg, AfterBlocks(cfg, p, mcus[0], 0), mcus[1..])
  }

  lemma {:induction false} McusSnoc(cfg: Config, p: Prediction, mcus: seq<Mcu>, mcu: Mcu)
    requires cfg.Valid() && p.For(cfg) && AreMcus(cfg, mcus) && IsMcu(cfg, mcu)
    ensures AreMcus(cfg, mcus + [mcu])
    ensures McusDecisions(cfg, p, mcus + [mcu])
         == McusDecisions(cfg, p, mcus) + BlocksDecisions(cfg, AfterMcus(cfg, p, mcus), mcu, 0)
    ensures AfterMcus(cfg, p, mcus + [mcu]) == AfterBlocks(cfg, AfterMcus(cfg, p, mcus), mcu, 0)
    decreases |mcus|
  {
    hide BlocksDecisions, AfterBlocks;
    if mcus == [] {
      assert mcus + [mcu] == [mcu] && [mcu][1..] == [];
    } else {
      assert IsMcu(cfg, mcus[0]);
      McusSnoc(cfg, AfterBlocks(cfg, p, mcus[0], 0), mcus[1..], mcu);
      assert (mcus + [mcu])[0] == mcus[0] && (mcus + [mcu])[1..] == mcus[1..] + [mcu];
    }
  }

  /** The bytes of the intervals that are closed, with their restart markers. */
  ghost function ClosedBytes(cfg: Config, mcus: seq<Mcu>, n: nat): seq<nat>
    requires cfg.Valid() && AreMcus(cfg, mcus) && n < 8
    decreases |mcus|
  {
    hide IsMcu, IntervalCode, Stuff;
    var k := GroupSize(cfg.interval, |mcus|);
    if k == |mcus| then []
    else Stuff(IntervalCode(cfg, mcus[..k])) + [0xFF, 0xD0 + n] + ClosedBytes(cfg, mcus[k..], (n + 1) % 8)
  }

  lemma {:induction false} ScanIsClosedAndOpen(cfg: Config, mcus: seq<Mcu>, n: nat)
    requires cfg.Valid() && AreMcus(cfg, mcus) && n < 8
    ensures ScanBytes(cfg, mcus, n)
         == ClosedBytes(cfg, mcus, n) + Stuff(IntervalCode(cfg, OpenMcus(cfg.interval, mcus)))
    decreases |mcus|
  {
    hide IntervalCode;
    var k := GroupSize(cfg.interval, |mcus|);
    if k < |mcus| {
      ScanIsClosedAndOpen(cfg, mcus[k..], (n + 1) % 8);
    }
  }

  lemma CloseOne(cfg: Config, mcus: seq<Mcu>, n: nat)
    requires cfg.Valid() && AreMcus(cfg, mcus) && n < 8
    requires 0 < cfg.interval < |mcus|
    ensures AreMcus(cfg, mcus[..cfg.interval]) && AreMcus(cfg, mcus[cfg.interval..])
    ensures ClosedBytes(cfg, mcus, n)
         == Stuff(IntervalCode(cfg, mcus[..cfg.interval])) + [0xFF, 0xD0 + n]
            + ClosedBytes(cfg, mcus[cfg.interval..], (n + 1) % 8)
    ensures OpenMcus(cfg.interval, mcus) == OpenMcus(cfg.interval, mcus[cfg.interval..])
    ensures NextNum(cfg.interval, |mcus|, n) == NextNum(cfg.interval, |mcus[cfg.interval..]|, (n + 1) % 8)
  {
    hide IntervalCode, Stuff, IsMcu, GroupSize, OpenSize, NextNum, OpenMcus;
    var k := cfg.interval;
    FirstOfMany(k, |mcus|, n);
    OpenBehind(k, mcus);
  }

  lemma NoBytesClosed(cfg: Config, mcus: seq<Mcu>, n: nat)
    requires cfg.Valid() && AreMcus(cfg, mcus) && n < 8
    requires cfg.interval == 0 || |mcus| <= cfg.interval
    ensures ClosedBytes(cfg, mcus, n) == [] && OpenMcus(cfg.interval, mcus) == mcus
    ensures NextNum(cfg.interval, |mcus|, n) == n
  {
  }

  /** One more MCU joins the open interval, unless that is full; then a marker closes it. */
  lemma {:induction false} ClosedSnoc(cfg: Config, mcus: seq<Mcu>, mcu: Mcu, n: nat)
    requires cfg.Valid() && AreMcus(cfg, mcus) && AreMcus(cfg, mcus + [mcu]) && n < 8
    ensures ClosedBytes(cfg, mcus + [mcu], n)
         == if Full(cfg.interval, |mcus|) then
              ClosedBytes(cfg, mcus, n) + Stuff(IntervalCode(cfg, OpenMcus(cfg.interval, mcus)))
              + [0xFF, 0xD0 + NextNum(cfg.interval, |mcus|, n)]
            else ClosedBytes(cfg, mcus, n)
    decreases |mcus|
  {
    hide IntervalCode, OpenMcus, NextNum, ClosedBytes;
    var k, all := cfg.interval, mcus + [mcu];
    if k == 0 || |mcus| < k {
      NoBytesClosed(cfg, mcus, n);
      NoBytesClosed(cfg, all, n);
    } else {
      CloseOne(cfg, all, n);
      assert all[k..] == mcus[k..] + [mcu] && all[..k] == mcus[..k];
      if |mcus| == k {
        NoBytesClosed(cfg, mcus, n);
        assert all[k..] == [mcu] && all[..k] == mcus;
        NoBytesClosed(cfg, [mcu], (n + 1) % 8);
        assert [] + Stuff(IntervalCode(cfg, mcus)) == Stuff(IntervalCode(cfg, mcus));
      } else {
        CloseOne(cfg, mcus, n);
        ClosedSnoc(cfg, mcus[k..], mcu, (n + 1) % 8);
        Join(Stuff(IntervalCode(cfg, mcus[..k])) + [0xFF, 0xD0 + n], ClosedBytes(cfg, mcus[k..], (n + 1) % 8),
             Stuff(IntervalCode(cfg, OpenMcus(cfg.interval, mcus))), [0xFF, 0xD0 + NextNum(cfg.interval, |mcus|, n)]);
      }
    }
  }

  lemma {:induction false} FixedBinStays(m: Model, ds: seq<Decision>)
    requires m.Valid() && |m.stats| == STATS_SIZE && AllCodable(ds, m.stats) && m.stats[FIXED_BIN] == 113
    ensures Run(m, ds).stats[FIXED_BIN] == 113
    decreases |ds|
  {
    FixedBinIsFixed();
    if ds != [] {
      FixedBinStays(m.Step(ds[0]), ds[1..]);
    }
  }

  /** Where the encoder is after the MCUs of the open interval. */
  ghost function IntervalModel(cfg: Config, mcus: seq<Mcu>): (m: Model)
    requires cfg.Valid() && AreMcus(cfg, mcus)
    ensures m.Valid() && |m.stats| == STATS_SIZE && m.stats[FIXED_BIN] == 113
  {
    var ds := McusDecisions(cfg, FreshPrediction(cfg), mcus);
    McusAreUsable(cfg, FreshPrediction(cfg), mcus);
    FixedBinStays(FreshModel(), ds);
    Run(FreshModel(), ds)
  }

  /** The arithmetic entropy encoder for one scan. */
  class ScanEncoder {
    const cfg: Config
    const enc: Encoder
    var lastDc: seq<int>
    var context: seq<nat>
    var restartsToGo: nat     // MCUs left in this restart interval
    var nextRestartNum: nat   // next restart number to write

    ghost var mcus: seq<Mcu>  // everything encoded so far

    ghost function Open(): seq<Mcu>
      reads this
    {
      OpenMcus(cfg.interval, mcus)
    }

    /** The arithmetic encoder and the predictions are where the MCUs of open have put them. */
    ghost predicate Coding(open: seq<Mcu>)
      reads `lastDc, `context, enc, enc.stats
    {
      && cfg.Valid() && AreMcus(cfg, open)
      && enc.Valid() && enc.stats.Length == STATS_SIZE
      && Prediction(lastDc, context) == AfterMcus(cfg, FreshPrediction(cfg), open)
      && enc.Now() == IntervalModel(cfg, open)
    }

    ghost predicate Valid()
      reads this, enc, enc.stats
    {
      && AreMcus(cfg, mcus) && Coding(Open())
      && enc.base == ClosedBytes(cfg, mcus, 0)
      && nextRestartNum == NextNum(cfg.interval, |mcus|, 0)
      && (cfg.interval > 0 ==> restartsToGo == cfg.interval - |Open()|)
    }

    /** start_pass */
    constructor (cfg: Config)
      requires cfg.Valid()
      ensures Valid() && mcus == [] && this.cfg == cfg
      ensures fresh(enc) && fresh(enc.stats)
    {
      hide IntervalModel, IntervalCode, OpenMcus, ClosedBytes, NextNum, AfterMcus, FreshStats, FreshModel;
      NothingCoded(cfg);
      NoBytesClosed(cfg, [], 0);
      this.cfg := cfg;
      enc := new Encoder(STATS_SIZE - 1);
      var fp := FreshPrediction(cfg);
      lastDc, context := fp.lastDc, fp.context;
      restartsToGo, nextRestartNum := cfg.interval, 0;
      mcus := [];
      new;
      FreshIs(enc.Now());
    }

    /** emit_restart */
    method EmitRestart()
      requires Valid()
      modifies `lastDc, `context, enc, enc.stats
      ensures Coding([])
      ensures enc.base == old(enc.base + Stuff(IntervalCode(cfg, Open())) + [0xFF, 0xD0 + nextRestartNum])
    {
      hide IntervalModel, IntervalCode, CodeStringOf, OpenMcus, ClosedBytes, NextNum, AfterMcus;
      NothingCoded(cfg);
      ghost var iv := enc.Current();
      IntervalCodeIs(cfg, Open());
      assert enc.stats[FIXED_BIN] == enc.Now().stats[FIXED_BIN];
      ghost var e := enc.Restart(nextRestartNum);
      CodeStringIsThis(e, iv);
      assert enc.Now().stats == FreshStats();
      var fp := FreshPrediction(cfg);
      lastDc, context := fp.lastDc, fp.context;
    }

    /** Codes the blocks of an MCU. */
    method CodeBlocks(mcu: Mcu, ghost rest: seq<Decision>)
      requires cfg.Valid() && Prediction(lastDc, context).For(cfg) && IsMcu(cfg, mcu)
      requires CanCode(enc, BlocksDecisions(cfg, Prediction(lastDc, context), mcu, 0) + rest)
      modifies `lastDc, `context, enc, enc.stats
      ensures CanCode(enc, rest) && enc.base == old(enc.base)
      ensures Coded(enc, rest)
           == old(Coded(enc, BlocksDecisions(cfg, Prediction(lastDc, context), mcu, 0) + rest))
      ensures Prediction(lastDc, context) == old(AfterBlocks(cfg, Prediction(lastDc, context), mcu, 0))
    {
      hide CanCode, Coded, DcDecisions, AcDecisions, ToZigZag, DcContextAfter;
      ghost var p0 := Prediction(lastDc, context);
      ghost var goal := Coded(enc, BlocksDecisions(cfg, p0, mcu, 0) + rest);
      for b := 0 to |mcu|
        invariant Prediction(lastDc, context).For(cfg)
        invariant AfterBlocks(cfg, Prediction(lastDc, context), mcu, b) == AfterBlocks(cfg, p0, mcu, 0)
        invariant CanCode(enc, BlocksDecisions(cfg, Prediction(lastDc, context), mcu, b) + rest)
        invariant Coded(enc, BlocksDecisions(cfg, Prediction(lastDc, context), mcu, b) + rest) == goal
        invariant enc.base == old(enc.base)
      {
        ghost var p := Prediction(lastDc, context);
        var block, ci := mcu[b], cfg.membership[b];
        var comp, cond := cfg.comps[ci], cfg.Cond(ci);
        ghost var more := BlocksDecisions(cfg, AfterBlock(cfg, p, ci, block), mcu, b + 1) + rest;
        BlockUnfolds(cfg, p, ci, block, more);
        assert BlocksDecisions(cfg, p, mcu, b) + rest == BlockDecisions(cfg, p, ci, block) + more;
        ghost var z := ToZigZag(block);
        ghost var ac := AcDecisions(AcBins(comp.acTbl), cond.acK, z, 1, EndOfBlock(z, 63), false) + more;
        var next := CodeDc(enc, DcBins(comp.dcTbl), context[ci], block[0] - lastDc[ci], cond, ac);
        if block[0] - lastDc[ci] != 0 {
          lastDc := lastDc[ci := block[0]];
        }
        context := context[ci := next];
        CodeAc(enc, AcBins(comp.acTbl), cond.acK, block, more);
        assert Prediction(lastDc, context) == AfterBlock(cfg, p, ci, block);
      }
      assert [] + rest == rest;
    }

    /** The MCUs of the interval that the next MCU joins. */
    ghost function Joined(): (open: seq<Mcu>)
      reads this
    {
      if Full(cfg.interval, |mcus|) then [] else Open()
    }

    /** The restart marker, if one is due before the next MCU. */
    method CountDown()
      requires Valid()
      modifies `lastDc, `context, `restartsToGo, `nextRestartNum, enc, enc.stats
      ensures Coding(Joined())
      ensures cfg.interval > 0 ==> restartsToGo == cfg.interval - |Joined()| - 1
      ensures nextRestartNum
           == if Full(cfg.interval, |mcus|) then (NextNum(cfg.interval, |mcus|, 0) + 1) % 8
               else NextNum(cfg.interval, |mcus|, 0)
      ensures enc.base
           == if Full(cfg.interval, |mcus|) then
                ClosedBytes(cfg, mcus, 0) + Stuff(IntervalCode(cfg, Open()))
                    + [0xFF, 0xD0 + NextNum(cfg.interval, |mcus|, 0)]
              else ClosedBytes(cfg, mcus, 0)
    {
      hide IntervalModel, IntervalCode, OpenMcus, ClosedBytes, NextNum, AfterMcus;
      if cfg.interval > 0 {
        if restartsToGo == 0 {
          EmitRestart();
          restartsToGo := cfg.interval;
          nextRestartNum := (nextRestartNum + 1) % 8;
        }
        restartsToGo := restartsToGo - 1;
      }
    }

    lemma AreCoded()
      requires Valid()
      ensures cfg.Valid() && AreMcus(cfg, mcus)
    {
    }

    /** encode_mcu */
    method EncodeMcu(mcu: Mcu)
      requires Valid() && IsMcu(cfg, mcu)
      modifies this, enc, enc.stats
      ensures Valid() && mcus == old(mcus) + [mcu]
    {
      hide IntervalModel, IntervalCode, OpenMcus, ClosedBytes, NextNum, AfterMcus, IsMcu, Coding;
      AreCoded();
      IntervalGrows(cfg, mcus, mcu);
      ghost var open := Joined();
      CountDown();
      EncodeInto(open, mcu);
      mcus := mcus + [mcu];
      assert Open() == open + [mcu];
    }

    /** The MCU data blocks, coded into the open interval. */
    method EncodeInto(ghost open: seq<Mcu>, mcu: Mcu)
      requires Coding(open) && IsMcu(cfg, mcu)
      modifies `lastDc, `context, enc, enc.stats
      ensures Coding(open + [mcu]) && enc.base == old(enc.base)
    {
      hide IntervalModel, AfterMcus, BlocksDecisions, AfterBlocks;
      ModelGrows(cfg, open, mcu);
      ghost var ds := BlocksDecisions(cfg, Prediction(lastDc, context), mcu, 0);
      assert ds + [] == ds;
      CodeBlocks(mcu, []);
    }

    /** finish_pass: everything encoded is then in the output, as a scan. */
    method FinishPass()
      requires Valid()
      modifies enc
      ensures enc.out == ScanBytes(cfg, mcus, 0)
    {
      hide IntervalModel, IntervalCode, CodeStringOf, OpenMcus, ClosedBytes, ScanBytes, NextNum, AfterMcus;
      ghost var iv := enc.Current();
      IntervalCodeIs(cfg, Open());
      ScanIsClosedAndOpen(cfg, mcus, 0);
      enc.Finish();
      CodeStringIsThis(enc.sent, iv);
    }
  }

  lemma FreshIs(m: Model)
    requires m.iv == UNIT && |m.stats| == STATS_SIZE
    requires forall i :: 0 <= i < STATS_SIZE ==> m.stats[i] == if i == FIXED_BIN then 113 else 0
    ensures m == FreshModel()
  {
  }

  lemma NothingCoded(cfg: Config)
    requires cfg.Valid()
    ensures AfterMcus(cfg, FreshPrediction(cfg), []) == FreshPrediction(cfg)
    ensures IntervalModel(cfg, []) == FreshModel()
  {
  }

  /** What one more MCU does to the division into intervals. */
  lemma IntervalGrows(cfg: Config, mcus: seq<Mcu>, mcu: Mcu)
    requires cfg.Valid() && AreMcus(cfg, mcus) && IsMcu(cfg, mcu)
    ensures AreMcus(cfg, mcus + [mcu])
    ensures OpenMcus(cfg.interval, mcus + [mcu]) == Joined(cfg.interval, mcus) + [mcu]
    ensures NextNum(cfg.interval, |mcus + [mcu]|, 0)
         == if Full(cfg.interval, |mcus|) then (NextNum(cfg.interval, |mcus|, 0) + 1) % 8
             else NextNum(cfg.interval, |mcus|, 0)
    ensures ClosedBytes(cfg, mcus + [mcu], 0)
         == if Full(cfg.interval, |mcus|) then
              ClosedBytes(cfg, mcus, 0) + Stuff(IntervalCode(cfg, OpenMcus(cfg.interval, mcus)))
              + [0xFF, 0xD0 + NextNum(cfg.interval, |mcus|, 0)]
            else ClosedBytes(cfg, mcus, 0)
  {
    hide ClosedBytes, OpenMcus, NextNum, IntervalCode;
    OneMoreMcu(cfg.interval, |mcus|, 0);
    OpenGrows(cfg.interval, mcus, mcu);
    ClosedSnoc(cfg, mcus, mcu, 0);
  }

  /** What one more MCU does to the interval it joins. */
  lemma ModelGrows(cfg: Config, open: seq<Mcu>, mcu: Mcu)
    requires cfg.Valid() && AreMcus(cfg, open) && IsMcu(cfg, mcu)
    ensures AreMcus(cfg, open + [mcu])
    ensures var p := AfterMcus(cfg, FreshPrediction(cfg), open);
            var ds := BlocksDecisions(cfg, p, mcu, 0);
            && AfterMcus(cfg, FreshPrediction(cfg), open + [mcu]) == AfterBlocks(cfg, p, mcu, 0)
            && Usable(ds)
            && IntervalModel(cfg, open + [mcu]) == Run(IntervalModel(cfg, open), ds)
  {
    hide McusDecisions, BlocksDecisions, AfterMcus, AfterBlocks, Run;
    var p := FreshPrediction(cfg);
    McusSnoc(cfg, p, open, mcu);
    McusAreUsable(cfg, p, open + [mcu]);
    var ds, es := McusDecisions(cfg, p, open), BlocksDecisions(cfg, AfterMcus(cfg, p, open), mcu, 0);
    SuffixIsUsable(ds, es);
    RunAppend(FreshModel(), ds, es);
  }

  lemma SuffixIsUsable(ds: seq<Decision>, es: seq<Decision>)
    requires Usable(ds + es)
    ensures Usable(ds) && Usable(es)
  {
    assert forall i :: 0 <= i < |ds| ==> ds[i] == (ds + es)[i];
    assert forall i :: 0 <= i < |es| ==> es[i] == (ds + es)[|ds| + i];
  }

  lemma BlockUnfolds(cfg: Config, p: Prediction, ci: nat, block: Block, more: seq<Decision>)
    requires cfg.Valid() && p.For(cfg) && ci < |cfg.comps|
    requires forall i :: 0 <= i < 64 ==> -32768 <= block[i] < 32768
    ensures var z, comp := ToZigZag(block), cfg.comps[ci];
            BlockDecisions(cfg, p, ci, block) + more
            == DcDecisions(DcBins(comp.dcTbl), p.context[ci], block[0] - p.lastDc[ci])
               + (AcDecisions(AcBins(comp.acTbl), cfg.Cond(ci).acK, z, 1, EndOfBlock(z, 63), false) + more)
  {
    hide DcDecisions, AcDecisions, ToZigZag;
    ZigZagFacts(block);
    var z, comp := ToZigZag(block), cfg.comps[ci];
    Reassociate(DcDecisions(DcBins(comp.dcTbl), p.context[ci], block[0] - p.lastDc[ci]),
                AcDecisions(AcBins(comp.acTbl), cfg.Cond(ci).acK, z, 1, EndOfBlock(z, 63), false), more);
  }

  lemma Reassociate(a: seq<Decision>, b: seq<Decision>, c: seq<Decision>)
    ensures a + b + c == a + (b + c)
  {
  }

  lemma IntervalCodeIs(cfg: Config, cur: seq<Mcu>)
    requires cfg.Valid() && AreMcus(cfg, cur)
    ensures IntervalCode(cfg, cur) == CodeStringOf(IntervalModel(cfg, cur).iv)
    ensures IntervalModel(cfg, cur).Valid() && |IntervalModel(cfg, cur).stats| == STATS_SIZE
    ensures IntervalModel(cfg, cur).stats[FIXED_BIN] == 113
  {
  }
}
