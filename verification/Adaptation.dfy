/**
 * What the probability estimator does (section D.1.5 of T.81 with Table D.2): decisions against
 * the sense of a bin raise the estimate until the sense switches, decisions with it lower the
 * estimate, and the two senses are treated alike.
 */
module Adaptation {
  import opened Aritab
  import opened EstimatorRows
  import opened EstimatorLaws
  import opened IntervalCoder

  // ---------- one decision ----------

  /** The sense of a bin: the more probable symbol. */
  function Sense(sv: nat): nat {
    sv / 128
  }

  /** A bin that adapts: not the fixed one. */
  ghost predicate Adapts(sv: nat) {
    IsStat(sv) && sv % 128 != FIXED_ROW
  }

  /** The less probable symbol switches the sense in ten rows, and in all others it strictly raises
      the estimate and brings the switch one nearer. */
  lemma LpsAdapts(sv: nat)
    requires Adapts(sv)
    ensures Adapts(AfterLps(sv))
    ensures Sense(AfterLps(sv)) == if Switches(sv % 128) then 1 - Sense(sv) else Sense(sv)
    ensures Switches(sv % 128) <==> Patience(sv % 128) == 1
    ensures !Switches(sv % 128) ==>
              && Qe(AfterLps(sv)) > Qe(sv)
              && Patience(AfterLps(sv) % 128) == Patience(sv % 128) - 1
  {
    hide JpegRow, Patience;
    var i := sv % 128;
    RowsAreLawful(i);
    PackingIsUndone(JpegRow(i));
    PackingIsUndone(JpegRow(JpegRow(i).nextLps));
  }

  /** The more probable symbol keeps the sense and strictly lowers the estimate, but for the row
      with the smallest one, which it does not leave. */
  lemma MpsAdapts(sv: nat)
    requires Adapts(sv)
    ensures Adapts(AfterMps(sv)) && Sense(AfterMps(sv)) == Sense(sv)
    ensures if sv % 128 == LAST_ROW then AfterMps(sv) == sv else Qe(AfterMps(sv)) < Qe(sv)
  {
    hide JpegRow, Patience;
    var i := sv % 128;
    RowsAreLawful(i);
    PackingIsUndone(JpegRow(i));
    PackingIsUndone(JpegRow(JpegRow(i).nextMps));
  }

  /** The state with the other sense has the same estimate and the mirrored successors. */
  lemma SensesAreAlike(sv: nat)
    requires IsStat(sv) && sv < 128
    ensures IsStat(sv + 128) && Qe(sv + 128) == Qe(sv)
    ensures AfterLps(sv + 128) == (AfterLps(sv) + 128) % 256
    ensures AfterMps(sv + 128) == (AfterMps(sv) + 128) % 256
  {
    hide JpegRow;
    PackingIsUndone(JpegRow(sv));
  }

  // ---------- runs of equal decisions ----------

  function Equal(d: Decision, n: nat): (ds: seq<Decision>)
    ensures |ds| == n && forall i :: 0 <= i < n ==> ds[i] == d
  {
    seq(n, _ => d)
  }

  /** How many decisions with this value it takes until it is the sense. */
  function Needed(sv: nat, val: nat): nat
    requires Adapts(sv)
  {
    if Sense(sv) == val then 0 else Patience(sv % 128)
  }

  /** One decision: its bin moves towards it, whatever the interval. */
  lemma StepLearns(m: Model, d: Decision)
    requires m.Valid() && Codable(d, m.stats) && Adapts(m.stats[d.bin])
    ensures var before, after := m.stats[d.bin], m.Step(d).stats[d.bin];
            && Adapts(after)
            && Needed(after, d.val) == (if Needed(before, d.val) == 0 then 0 else Needed(before, d.val) - 1)
  {
    hide Patience, Narrow, Switches;
    LpsAdapts(m.stats[d.bin]);
    MpsAdapts(m.stats[d.bin]);
  }

  /** A bin changes exactly when the interval is renormalised. */
  lemma AdaptsWithRenorm(m: Model, d: Decision)
    requires m.Valid() && Codable(d, m.stats) && Adapts(m.stats[d.bin])
    ensures var sv, n := m.stats[d.bin], m.Step(d);
            && (n.iv.shifts == m.iv.shifts ==> n.stats == m.stats)
            && (n.iv.shifts > m.iv.shifts ==>
                  n.stats == m.stats[d.bin := if d.val == Sense(sv) then AfterMps(sv) else AfterLps(sv)])
  {
    hide Qe, AfterLps, AfterMps;
    Shifts(Part(m.iv, Qe(m.stats[d.bin]), IsLps(m.stats[d.bin], d.val)));
  }

  lemma Shifts(iv: Interval)
    requires 0 < iv.a <= 0x10000
    ensures Renorm(iv).shifts > iv.shifts <==> iv.a < 0x8000
  {
  }

  /** After n equal decisions their value is the sense exactly if n were enough. */
  lemma {:induction false} BinLearns(m: Model, d: Decision, n: nat)
    requires m.Valid() && Codable(d, m.stats) && Adapts(m.stats[d.bin])
    ensures AllCodable(Equal(d, n), m.stats)
    ensures var after := Run(m, Equal(d, n)).stats[d.bin];
            Adapts(after) && (Sense(after) == d.val <==> n >= Needed(m.stats[d.bin], d.val))
    decreases n
  {
    hide Patience, Narrow, Adapt;
    if n > 0 {
      StepLearns(m, d);
      BinLearns(m.Step(d), d, n - 1);
      assert Equal(d, n)[1..] == Equal(d, n - 1);
    }
  }

  /** From every state, 29 equal decisions make the bin expect them. */
  lemma AnyBinLearns(m: Model, d: Decision, n: nat)
    requires m.Valid() && Codable(d, m.stats) && Adapts(m.stats[d.bin]) && n >= 29
    ensures AllCodable(Equal(d, n), m.stats) && Sense(Run(m, Equal(d, n)).stats[d.bin]) == d.val
  {
    hide Run;
    BinLearns(m, d, n);
  }

  /** And fewer are not enough for the bin that has learned the other value best. */
  lemma LastRowIsSlow(m: Model, d: Decision, n: nat)
    requires m.Valid() && Codable(d, m.stats) && n < 29
    requires m.stats[d.bin] % 128 == LAST_ROW && Sense(m.stats[d.bin]) != d.val
    ensures AllCodable(Equal(d, n), m.stats) && Sense(Run(m, Equal(d, n)).stats[d.bin]) != d.val
  {
    hide Run;
    assert Patience(LAST_ROW) == 29;
    BinLearns(m, d, n);
  }

  /** Decisions leave all bins but their own alone, and the fixed bin has no sense to learn. */
  lemma OtherBinsStay(m: Model, d: Decision, b: nat)
    requires m.Valid() && Codable(d, m.stats) && b < |m.stats|
    ensures b != d.bin || m.stats[b] == FIXED_ROW ==> m.Step(d).stats[b] == m.stats[b]
  {
    FixedBinIsFixed();
    var sv := m.stats[b];
    assert sv == FIXED_ROW ==> Adapt(m.iv, sv, d.val) == sv;
  }

  /** A fresh bin that codes 1 twice: the sense switches at once, and then the decision is free of
      renormalisation. */
  lemma TwoOnes(m: Model, bin: nat)
    requires m.Valid() && bin < |m.stats| && m.stats[bin] == 0 && m.iv == UNIT
    ensures AllCodable([Decision(bin, 1), Decision(bin, 1)], m.stats)
    ensures Run(m, [Decision(bin, 1), Decision(bin, 1)])
         == Model(Interval(2 * 0xa5e3, 0x8eb4, 1), m.stats[bin := 0x81])
  {
    hide Qe, AfterLps, AfterMps, Renorm;
    var d, after := Decision(bin, 1), m.stats[bin := 0x81];
    FirstRows();
    Doubled(Interval(0xa5e3, 0x5a1d, 0));
    Doubled(Interval(2 * 0xa5e3, 0x8eb4, 1));
    assert m.Step(d) == Model(Interval(2 * 0xa5e3, 0xb43a, 1), after);
    assert after[bin := 0x81] == after;
    assert m.Step(d).Step(d) == Model(Interval(2 * 0xa5e3, 0x8eb4, 1), after);
    assert [d, d][1..] == [d] && [d][1..] == [];
    assert Run(m, [d, d]) == Run(m.Step(d), [d]) == Run(m.Step(d).Step(d), []);
  }

  lemma Doubled(iv: Interval)
    requires 0x4000 <= iv.a <= 0x10000
    ensures Renorm(iv) == if iv.a >= 0x8000 then iv else Interval(2 * iv.low, 2 * iv.a, iv.shifts + 1)
  {
  }

  lemma FirstRows()
    ensures Qe(0) == 0x5a1d && AfterLps(0) == 0x81 && Qe(0x81) == 0x2586
  {
    PackingIsUndone(JpegRow(0));
    PackingIsUndone(JpegRow(1));
    assert JpegRow(0) == Row(0x5a1d, 1, 1, 1) && JpegRow(1) == Row(0x2586, 14, 2, 0);
  }
}
