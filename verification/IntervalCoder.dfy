/**
 * The binary arithmetic coder as an exact interval subdivision: no registers, no carries, no
 * bytes. Both finite machines are measured against it.
 */
module IntervalCoder {
  import opened Powers
  import opened Aritab
  import opened CodeBytes

  /** The half-open interval from low to low + a, in units of 2 to the power -(16 + shifts). */
  datatype Interval = Interval(low: nat, a: nat, shifts: nat) {

    ghost predicate Normalized() {
      0x8000 <= a <= 0x10000
    }

    /** The interval lies between 0 and 1. */
    ghost predicate InUnit() {
      low + a <= Pow2(16 + shifts)
    }

    ghost predicate Has(x: int) {
      low <= x < low + a
    }
  }

  const UNIT := Interval(0, 0x10000, 0)

  lemma UnitIsValid()
    ensures UNIT.Normalized() && UNIT.InUnit()
  {
    Constants();
  }

  /** A binary decision and the statistics bin it is coded with. */
  datatype Decision = Decision(bin: nat, val: nat)

  type Stats = seq<nat>

  ghost predicate ValidStats(stats: Stats) {
    forall i :: 0 <= i < |stats| ==> IsStat(stats[i])
  }

  ghost predicate Codable(d: Decision, stats: Stats) {
    d.bin < |stats| && d.val < 2
  }

  /** The part of the interval that codes the less (lps) or the more probable symbol: normally
      the more probable symbol takes the lower a - qe, but whenever that is the smaller part
      the two are exchanged. */
  function Part(iv: Interval, qe: nat, lps: bool): (part: Interval)
    requires 0 < qe < 0x8000 <= iv.a
  {
    var rest := iv.a - qe;
    if lps == (rest >= qe) then Interval(iv.low + rest, qe, iv.shifts)
    else Interval(iv.low, rest, iv.shifts)
  }

  /** Doubling until the size is at least one half again. */
  function Renorm(iv: Interval): (r: Interval)
    requires 0 < iv.a <= 0x10000
    ensures r.Normalized() && r.shifts >= iv.shifts
    ensures iv.InUnit() ==> r.InUnit()
    decreases 0x10000 - iv.a
  {
    if iv.a >= 0x8000 then iv else Renorm(Interval(2 * iv.low, 2 * iv.a, iv.shifts + 1))
  }

  /** The statistics change only when the interval had to be renormalized. */
  function Estimate(sv: nat, lps: bool, rest: int): (next: nat)
    requires IsStat(sv)
    ensures IsStat(next)
  {
    if lps then AfterLps(sv) else if rest >= 0x8000 then sv else AfterMps(sv)
  }

  predicate IsLps(sv: nat, val: nat) {
    val != sv / 128
  }

  /** One coded decision. */
  function Narrow(iv: Interval, sv: nat, val: nat): (r: Interval)
    requires iv.Normalized() && IsStat(sv)
    ensures r.Normalized() && r.shifts >= iv.shifts
    ensures iv.InUnit() ==> r.InUnit()
  {
    Renorm(Part(iv, Qe(sv), IsLps(sv, val)))
  }

  function Adapt(iv: Interval, sv: nat, val: nat): (next: nat)
    requires iv.Normalized() && IsStat(sv)
    ensures IsStat(next)
  {
    Estimate(sv, IsLps(sv, val), iv.a - Qe(sv))
  }

  datatype Model = Model(iv: Interval, stats: Stats) {

    ghost predicate Valid() {
      iv.Normalized() && iv.InUnit() && ValidStats(stats)
    }

    function Step(d: Decision): (m: Model)
      requires Valid() && Codable(d, stats)
      ensures m.Valid() && |m.stats| == |stats|
    {
      var sv := stats[d.bin];
      Model(Narrow(iv, sv, d.val), stats[d.bin := Adapt(iv, sv, d.val)])
    }
  }

  /** The two parts are nonempty, disjoint and together the whole interval, exchange or not,
      and the more probable symbol never gets the smaller one. The upper part always has the size of
      the estimate; only when that is more than half does the more probable symbol take it. */
  lemma PartsPartition(iv: Interval, qe: nat)
    requires 0 < qe < 0x8000 <= iv.a
    ensures var m, l := Part(iv, qe, false), Part(iv, qe, true);
            && (2 * qe <= iv.a ==> m.low == iv.low && l.a == qe)
            && (2 * qe > iv.a ==> l.low == iv.low && m.a == qe)
    ensures var m, l := Part(iv, qe, false), Part(iv, qe, true);
            && 0 < l.a <= m.a
            && l.a + m.a == iv.a
            && forall x :: (iv.Has(x) <==> m.Has(x) || l.Has(x)) && !(m.Has(x) && l.Has(x))
  {
  }

  ghost predicate AllCodable(ds: seq<Decision>, stats: Stats) {
    forall i :: 0 <= i < |ds| ==> Codable(ds[i], stats)
  }

  /** A run of decisions. */
  function Run(m: Model, ds: seq<Decision>): (r: Model)
    requires m.Valid() && AllCodable(ds, m.stats)
    ensures r.Valid() && |r.stats| == |m.stats|
    decreases |ds|
  {
    if ds == [] then m else Run(m.Step(ds[0]), ds[1..])
  }

  lemma {:induction false} RunAppend(m: Model, ds: seq<Decision>, es: seq<Decision>)
    requires m.Valid() && AllCodable(ds, m.stats) && AllCodable(es, m.stats)
    ensures Run(m, ds + es) == Run(Run(m, ds), es)
    decreases |ds|
  {
    if ds == [] {
      assert ds + es == es;
    } else {
      assert (ds + es)[1..] == ds[1..] + es;
      RunAppend(m.Step(ds[0]), ds[1..], es);
    }
  }

  /** The code string e, followed by zeros without end and read as a fraction, lies in the
      interval: its first r bytes do, for every r fine enough to resolve the interval. */
  ghost predicate CodeIn(e: seq<nat>, iv: Interval) {
    forall r: nat :: 8 * r >= 16 + iv.shifts ==> PrefixIn(e, r, iv)
  }

  ghost predicate PrefixIn(e: seq<nat>, r: nat, iv: Interval)
    requires 8 * r >= 16 + iv.shifts
  {
    var unit := Pow2(8 * r - 16 - iv.shifts);
    iv.low * unit <= Prefix(e, r) < (iv.low + iv.a) * unit
  }

  lemma PartIsInside(e: seq<nat>, iv: Interval, qe: nat, lps: bool)
    requires 0 < qe < 0x8000 <= iv.a
    requires CodeIn(e, Part(iv, qe, lps))
    ensures CodeIn(e, iv)
  {
    var part := Part(iv, qe, lps);
    forall r: nat | 8 * r >= 16 + iv.shifts
      ensures PrefixIn(e, r, iv)
    {
      var unit := Pow2(8 * r - 16 - iv.shifts);
      assert PrefixIn(e, r, part);
      MulMonotonic(iv.low, part.low, unit);
      MulMonotonic(part.low + part.a, iv.low + iv.a, unit);
    }
  }

  lemma Rescale(x: nat, half: nat, unit: nat)
    requires 2 * half == 256 * unit
    ensures (2 * x) * half == 256 * (x * unit)
    ensures x * (256 * unit) == 256 * (x * unit)
  {
    assert half == 128 * unit;
    assert x * (128 * unit) == 128 * (x * unit);
    assert x * (256 * unit) == 256 * (x * unit);
  }

  lemma DoublingIsInside(e: seq<nat>, iv: Interval)
    requires IsBytes(e)
    requires CodeIn(e, Interval(2 * iv.low, 2 * iv.a, iv.shifts + 1))
    ensures CodeIn(e, iv)
  {
    var twice := Interval(2 * iv.low, 2 * iv.a, iv.shifts + 1);
    forall r: nat | 8 * r >= 16 + iv.shifts
      ensures PrefixIn(e, r, iv)
    {
      // the next byte makes the prefix fine enough for the doubled interval
      var unit := Pow2(8 * r - 16 - iv.shifts);
      assert PrefixIn(e, r + 1, twice);
      var half := Pow2(8 * (r + 1) - 16 - twice.shifts);
      Pow2Byte(8 * r - 16 - iv.shifts);
      assert 2 * half == 256 * unit;
      Rescale(iv.low, half, unit);
      Rescale(iv.low + iv.a, half, unit);
      assert Prefix(e, r + 1) == 256 * Prefix(e, r) + At(e, r);
    }
  }

  lemma {:induction false} RenormIsInside(e: seq<nat>, iv: Interval)
    requires IsBytes(e)
    requires 0 < iv.a <= 0x10000
    requires CodeIn(e, Renorm(iv))
    ensures CodeIn(e, iv)
    decreases 0x10000 - iv.a
  {
    if iv.a < 0x8000 {
      RenormIsInside(e, Interval(2 * iv.low, 2 * iv.a, iv.shifts + 1));
      DoublingIsInside(e, iv);
    }
  }

  /** A code string for a whole run lies in the interval of every part of the run. */
  lemma {:induction false} RunIsInside(e: seq<nat>, m: Model, ds: seq<Decision>)
    requires IsBytes(e)
    requires m.Valid() && AllCodable(ds, m.stats)
    requires CodeIn(e, Run(m, ds).iv)
    ensures CodeIn(e, m.iv)
    decreases |ds|
  {
    if ds != [] {
      var sv, val := m.stats[ds[0].bin], ds[0].val;
      RunIsInside(e, m.Step(ds[0]), ds[1..]);
      RenormIsInside(e, Part(m.iv, Qe(sv), IsLps(sv, val)));
      PartIsInside(e, m.iv, Qe(sv), IsLps(sv, val));
    }
  }

  /** It is enough to look at one prefix that contains the whole code string. */
  lemma ExactPrefixDecides(e: seq<nat>, m: nat, iv: Interval)
    requires IsBytes(e) && |e| <= m
    requires 8 * m >= 16 + iv.shifts && PrefixIn(e, m, iv)
    ensures CodeIn(e, iv)
  {
    forall r: nat | 8 * r >= 16 + iv.shifts
      ensures PrefixIn(e, r, iv)
    {
      if r <= m {
        ShorterPrefixIn(e, r, m, iv);
      } else {
        LongerPrefixIn(e, m, r, iv);
      }
    }
  }

  lemma {:induction false} ShorterPrefixIn(e: seq<nat>, r: nat, m: nat, iv: Interval)
    requires IsBytes(e) && r <= m && 8 * r >= 16 + iv.shifts && PrefixIn(e, m, iv)
    ensures PrefixIn(e, r, iv)
    decreases m - r
  {
    if r < m {
      ShorterPrefixIn(e, r + 1, m, iv);
      var unit := Pow2(8 * r - 16 - iv.shifts);
      NextUnit(r, iv);
      Rescale(iv.low, 128 * unit, unit);
      Rescale(iv.low + iv.a, 128 * unit, unit);
      assert Prefix(e, r + 1) == 256 * Prefix(e, r) + At(e, r);
    }
  }

  lemma {:induction false} LongerPrefixIn(e: seq<nat>, m: nat, r: nat, iv: Interval)
    requires |e| <= m <= r && 8 * m >= 16 + iv.shifts && PrefixIn(e, m, iv)
    ensures PrefixIn(e, r, iv)
    decreases r - m
  {
    if m < r {
      LongerPrefixIn(e, m, r - 1, iv);
      var unit := Pow2(8 * (r - 1) - 16 - iv.shifts);
      NextUnit(r - 1, iv);
      Rescale(iv.low, 128 * unit, unit);
      Rescale(iv.low + iv.a, 128 * unit, unit);
      assert Prefix(e, r) == 256 * Prefix(e, r - 1) + At(e, r - 1);
    }
  }

  lemma NextUnit(r: nat, iv: Interval)
    requires 8 * r >= 16 + iv.shifts
    ensures Pow2(8 * (r + 1) - 16 - iv.shifts) == 256 * Pow2(8 * r - 16 - iv.shifts)
  {
    Pow2Byte(8 * r - 16 - iv.shifts);
  }
}
