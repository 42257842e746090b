/**
 * How sequential arithmetic coding turns coefficients into binary decisions (encode_mcu in
 * jcarith.c, section F.1.4 of T.81), and how the decoder reads them back (decode_mcu in
 * jdarith.c, section F.2.4).
 */
module Binarization {
  import opened Powers
  import opened IntervalCoder
  import opened ArithDecoder
  import opened ZigZag

  /** All statistics bins in one area: 16 DC tables of 64 bins, 16 AC tables of 256 bins and
      the bin with the fixed estimate. */
  const AC_AREA := 16 * 64
  const FIXED_BIN := AC_AREA + 16 * 256
  const STATS_SIZE := FIXED_BIN + 1

  function DcBins(tbl: nat): (bin: nat)
    requires tbl < 16
    ensures bin + 64 <= AC_AREA
  {
    64 * tbl
  }

  function AcBins(tbl: nat): (bin: nat)
    requires tbl < 16
    ensures AC_AREA <= bin && bin + 256 <= FIXED_BIN
  {
    AC_AREA + 256 * tbl
  }

  /** Conditioning parameters of a component's tables. */
  datatype Conditioning = Conditioning(dcL: nat, dcU: nat, acK: nat)

  function Sign(v: int): nat {
    if v < 0 then 1 else 0
  }

  /** The exponent of the highest one bit. */
  function Log2(w: nat): (j: nat)
    requires w > 0
    ensures Pow2(j) <= w < 2 * Pow2(j)
  {
    if w < 2 then 0 else 1 + Log2(w / 2)
  }

  lemma {:induction false} Log2Bound(w: nat, n: nat)
    requires 0 < w < Pow2(n)
    ensures Log2(w) < n
  {
    if w >= 2 {
      Log2Bound(w / 2, n - 1);
    }
  }

  /** Figure F.8: one decision for each doubling up to the magnitude, then a stop. */
  function CategoryDecisions(st: nat, w: nat): seq<Decision>
    requires w > 0
    decreases w
  {
    if w < 2 then [Decision(st, 0)] else [Decision(st, 1)] + CategoryDecisions(st + 1, w / 2)
  }

  /** (m & w) != 0 for a power of two m. */
  function Bit(w: nat, m: nat): (b: nat)
    requires m > 0
    ensures b < 2
  {
    w / m % 2
  }

  /** Figure F.9: the bits of w below bit j. */
  function PatternDecisions(st: nat, j: nat, w: nat): seq<Decision> {
    if j == 0 then [] else [Decision(st, Bit(w, Pow2(j - 1)))] + PatternDecisions(st, j - 1, w)
  }

  /** A magnitude category from v2 on with its X bins at x, and then all the bits of w below
      its highest with the M bin 14 above the last X bin. */
  function MagnitudeDecisions(x: nat, v2: nat, w: nat): seq<Decision>
    requires v2 > 0 && w > 0
  {
    CategoryDecisions(x, v2) + PatternDecisions(x + Log2(v2) + 14, Log2(w), w)
  }

  /** The highest one bit of w as a number; 0 for 0. */
  function Extent(w: nat): nat {
    if w == 0 then 0 else Pow2(Log2(w))
  }

  /** Section F.1.4.4.1.2: the context for the next difference of the component. */
  function DcContext(sign: nat, m: nat, cond: Conditioning): (context: nat)
    requires sign < 2
    ensures context <= 16
  {
    if m < Pow2(cond.dcL) / 2 then 0
    else if m > Pow2(cond.dcU) / 2 then 12 + 4 * sign
    else 4 + 4 * sign
  }

  function DcContextAfter(diff: int, cond: Conditioning): (context: nat)
    ensures context <= 16
  {
    if diff == 0 then 0 else DcContext(Sign(diff), Extent(Abs(diff) - 1), cond)
  }

  /** Figures F.4 to F.9 for a DC difference. */
  function DcDecisions(base: nat, context: nat, diff: int): seq<Decision> {
    var st := base + context;
    if diff == 0 then [Decision(st, 0)]
    else
      var w := Abs(diff) - 1;
      [Decision(st, 1), Decision(st + 1, Sign(diff))] +
      (if w == 0 then [Decision(st + 2 + Sign(diff), 0)]
       else [Decision(st + 2 + Sign(diff), 1)] + MagnitudeDecisions(base + 20, w, w))
  }

  /** Figures F.8 and F.9 for an AC magnitude: the first two bins are the same, the X and M
      bins start at x. */
  function SizeDecisions(st: nat, x: nat, w: nat): seq<Decision> {
    if w == 0 then [Decision(st, 0)]
    else [Decision(st, 1)] + (if w < 2 then [Decision(st, 0)]
                              else [Decision(st, 1)] + MagnitudeDecisions(x, w / 2, w))
  }

  function AcX(base: nat, k: nat, acK: nat): (x: nat)
    ensures x <= base + 217
  {
    base + (if k <= acK then 189 else 217)
  }

  /** Figures F.6 to F.9 for a nonzero AC coefficient at zig-zag position k. */
  function CoefDecisions(base: nat, k: nat, acK: nat, v: int): seq<Decision>
    requires k > 0 && v != 0
  {
    var st := base + 3 * (k - 1);
    [Decision(st + 1, 1)] + ([Decision(FIXED_BIN, Sign(v))]
                             + SizeDecisions(st + 2, AcX(base, k, acK), Abs(v) - 1))
  }

  /** The last nonzero coefficient at or before ke, 0 if there is none. */
  function EndOfBlock(z: seq<int>, ke: nat): (e: nat)
    requires |z| == 64 && ke < 64
    ensures e <= ke && (e > 0 ==> z[e] != 0)
    ensures forall i :: e < i <= ke ==> z[i] == 0
  {
    if ke > 0 && z[ke] == 0 then EndOfBlock(z, ke - 1) else ke
  }

  /** Figure F.5 from position k on; inRun means the end-of-block decision was already coded. */
  function AcDecisions(base: nat, acK: nat, z: seq<int>, k: nat, ke: nat, inRun: bool): seq<Decision>
    requires |z| == 64 && 0 < k <= ke + 1 <= 64
    requires inRun ==> k <= ke && z[ke] != 0
    requires ke > 0 ==> z[ke] != 0
    decreases 64 - k, if inRun then 0 else 1
  {
    var st := base + 3 * (k - 1);
    if inRun then
      if z[k] == 0 then [Decision(st + 1, 0)] + AcDecisions(base, acK, z, k + 1, ke, true)
      else CoefDecisions(base, k, acK, z[k]) + AcDecisions(base, acK, z, k + 1, ke, false)
    else if k <= ke then [Decision(st, 0)] + AcDecisions(base, acK, z, k, ke, true)
    else if k <= 63 then [Decision(st, 1)]
    else []
  }

  // ---------- the decoder ----------

  /** What was read, or nothing; and where the decoder is then. */
  datatype Read<T> = Bad(d: Decoder) | Read(val: T, d: Decoder)

  ghost predicate Ready(d: Decoder) {
    d.Shaped() && |d.stats| == STATS_SIZE
  }

  /** Figure F.23 from the X bins on: the exponent of the highest bit, at most 14. */
  function ReadCategory(d: Decoder, st: nat, j: nat): (r: Read<nat>)
    requires Ready(d) && j < 15 && st + 15 - j <= STATS_SIZE
    ensures Ready(r.d) && (r.Read? ==> j <= r.val < 15)
    decreases 15 - j
  {
    var (b, d') := d.Decode(st);
    if b == 0 then Read(j, d')
    else if j + 1 == 15 then Bad(d')
    else ReadCategory(d', st + 1, j + 1)
  }

  /** Figure F.24: the bits below bit j, added to v. */
  function ReadPattern(d: Decoder, st: nat, j: nat, v: nat): (r: (nat, Decoder))
    requires Ready(d) && st < STATS_SIZE
    ensures Ready(r.1)
    decreases j
  {
    if j == 0 then (v, d)
    else
      var (b, d') := d.Decode(st);
      ReadPattern(d', st, j - 1, if b == 1 then v + Pow2(j - 1) else v)
  }

  /** Figures F.23 and F.24 from exponent j on. */
  function ReadMagnitude(d: Decoder, x: nat, j: nat): (r: Read<nat>)
    requires Ready(d) && j < 15 && x + 29 - j <= STATS_SIZE
    ensures Ready(r.d)
  {
    match ReadCategory(d, x, j)
    case Bad(d') => Bad(d')
    case Read(n, d') =>
      var (w, d'') := ReadPattern(d', x + (n - j) + 14, n, Pow2(n));
      Read(w, d'')
  }

  /** Figures F.19 and F.21 to F.24: a DC difference. */
  function ReadDc(d: Decoder, base: nat, context: nat): (r: Read<int>)
    requires Ready(d) && base + 64 <= STATS_SIZE && context <= 16
    ensures Ready(r.d)
  {
    var st := base + context;
    var (nonzero, d1) := d.Decode(st);
    if nonzero == 0 then Read(0, d1)
    else
      var (sign, d2) := d1.Decode(st + 1);
      var (more, d3) := d2.Decode(st + 2 + sign);
      if more == 0 then Read(if sign == 1 then -1 else 1, d3)
      else
        match ReadMagnitude(d3, base + 20, 0)
        case Bad(d4) => Bad(d4)
        case Read(w, d4) => Read(if sign == 1 then -(w + 1) else w + 1, d4)
  }

  function ReadSize(d: Decoder, st: nat, x: nat): (r: Read<nat>)
    requires Ready(d) && st < STATS_SIZE && x + 28 <= STATS_SIZE
    ensures Ready(r.d)
  {
    var (more, d1) := d.Decode(st);
    if more == 0 then Read(0, d1)
    else
      var (most, d2) := d1.Decode(st);
      if most == 0 then Read(1, d2) else ReadMagnitude(d2, x, 1)
  }

  /** Figures F.21 to F.24: a nonzero AC coefficient after its nonzero decision. */
  function ReadCoef(d: Decoder, base: nat, k: nat, acK: nat): (r: Read<int>)
    requires Ready(d) && base + 256 <= STATS_SIZE && 0 < k < 64
    ensures Ready(r.d)
  {
    var (sign, d1) := d.Decode(FIXED_BIN);
    match ReadSize(d1, base + 3 * (k - 1) + 2, AcX(base, k, acK))
    case Bad(d2) => Bad(d2)
    case Read(w, d2) => Read(if sign == 1 then -(w + 1) else w + 1, d2)
  }

  /** Figure F.20 from position k on; z holds the coefficients read so far. */
  function ReadAc(d: Decoder, base: nat, acK: nat, z: seq<int>, k: nat, inRun: bool): (r: Read<seq<int>>)
    requires Ready(d) && base + 256 <= STATS_SIZE && |z| == 64 && 0 < k <= 64 && (inRun ==> k < 64)
    ensures Ready(r.d) && (r.Read? ==> |r.val| == 64)
    decreases 64 - k, if inRun then 0 else 1
  {
    var st := base + 3 * (k - 1);
    if inRun then
      var (nonzero, d1) := d.Decode(st + 1);
      if nonzero == 0 then
        if k + 1 > 63 then Bad(d1) else ReadAc(d1, base, acK, z, k + 1, true)
      else
        match ReadCoef(d1, base, k, acK)
        case Bad(d2) => Bad(d2)
        case Read(v, d2) => ReadAc(d2, base, acK, z[k := v], k + 1, false)
    else if k > 63 then Read(z, d)
    else
      var (end, d1) := d.Decode(st);
      if end == 1 then Read(z, d1) else ReadAc(d1, base, acK, z, k, true)
  }

  // ---------- reading undoes binarisation ----------

  /** One decision of a list is decoded and the rest is left. */
  lemma DecodeOne(d: Decoder, seg: Segment, x: Decision, rest: seq<Decision>)
    requires Tracks(d, seg, [x] + rest)
    ensures d.Decode(x.bin).0 == x.val && Tracks(d.Decode(x.bin).1, seg, rest)
  {
    hide Decoder.Decode;
    DecodeTracks(d, seg, [x] + rest);
    assert ([x] + rest)[1..] == rest;
  }

  lemma {:induction false} CategoryIsRead(d: Decoder, seg: Segment, st: nat, w: nat, j: nat,
                                          rest: seq<Decision>)
    requires w > 0 && j + Log2(w) < 15
    requires Ready(d) && st + 15 - j <= STATS_SIZE
    requires Tracks(d, seg, CategoryDecisions(st, w) + rest)
    ensures var r := ReadCategory(d, st, j);
            r.Read? && r.val == j + Log2(w) && Tracks(r.d, seg, rest)
    decreases w
  {
    hide Tracks, Decoder.Decode;
    if w < 2 {
      DecodeOne(d, seg, Decision(st, 0), rest);
    } else {
      var more := CategoryDecisions(st + 1, w / 2) + rest;
      assert CategoryDecisions(st, w) + rest == [Decision(st, 1)] + more;
      DecodeOne(d, seg, Decision(st, 1), more);
      CategoryIsRead(d.Decode(st).1, seg, st + 1, w / 2, j + 1, rest);
    }
  }

  lemma {:induction false} PatternIsRead(d: Decoder, seg: Segment, st: nat, j: nat, w: nat,
                                         rest: seq<Decision>)
    requires Ready(d) && st < STATS_SIZE
    requires Tracks(d, seg, PatternDecisions(st, j, w) + rest)
    ensures var (v, d') := ReadPattern(d, st, j, High(w, j));
            v == w && Tracks(d', seg, rest)
    decreases j
  {
    hide Tracks, Decoder.Decode;
    if j == 0 {
      assert PatternDecisions(st, j, w) + rest == rest;
    } else {
      var m := Pow2(j - 1);
      var x := Decision(st, Bit(w, m));
      var more := PatternDecisions(st, j - 1, w) + rest;
      assert PatternDecisions(st, j, w) + rest == [x] + more;
      DecodeOne(d, seg, x, more);
      NextBit(w, j);
      var (b, d') := d.Decode(st);
      assert ReadPattern(d, st, j, High(w, j)) == ReadPattern(d', st, j - 1, High(w, j - 1));
      PatternIsRead(d', seg, st, j - 1, w, rest);
    }
  }

  /** w with its bits below bit j cleared. */
  function High(w: nat, j: nat): nat {
    ShiftLeft(ShiftRight(w, j), j)
  }

  lemma NextBit(w: nat, j: nat)
    requires j > 0
    ensures High(w, j - 1) == High(w, j) + (if Bit(w, Pow2(j - 1)) == 1 then Pow2(j - 1) else 0)
  {
    var m := Pow2(j - 1);
    DivTwice(w, m);
    var q := w / m;
    assert w / Pow2(j) == q / 2;
    MulAssociative(q / 2, 2, m);
    MulDistributes(q / 2 * 2, q % 2, m);
  }

  lemma HighestBit(w: nat)
    requires w > 0
    ensures High(w, Log2(w)) == Pow2(Log2(w))
  {
    DivideUnique(w, Pow2(Log2(w)), 1, w - Pow2(Log2(w)));
  }

  lemma DivTwice(w: nat, m: nat)
    requires m > 0
    ensures w / (2 * m) == w / m / 2
  {
    var q, r := w / m, w % m;
    var h, b := q / 2, q % 2;
    var low := if b == 1 then m + r else r;
    assert w == h * (2 * m) + low by {
      MulAssociative(h, 2, m);
      MulDistributes(h * 2, b, m);
    }
    DivideUnique(w, 2 * m, h, low);
  }

  lemma MagnitudeIsRead(d: Decoder, seg: Segment, x: nat, v2: nat, j: nat, w: nat,
                        rest: seq<Decision>)
    requires v2 > 0 && w > 0 && j + Log2(v2) == Log2(w) < 15
    requires Ready(d) && x + 29 - j <= STATS_SIZE
    requires Tracks(d, seg, MagnitudeDecisions(x, v2, w) + rest)
    ensures var r := ReadMagnitude(d, x, j);
            r.Read? && r.val == w && Tracks(r.d, seg, rest)
  {
    hide Tracks, Decoder.Decode;
    var n := Log2(w);
    var st := x + Log2(v2) + 14;
    var pattern := PatternDecisions(st, n, w);
    assert MagnitudeDecisions(x, v2, w) + rest == CategoryDecisions(x, v2) + (pattern + rest);
    CategoryIsRead(d, seg, x, v2, j, pattern + rest);
    HighestBit(w);
    PatternIsRead(ReadCategory(d, x, j).d, seg, st, n, w, rest);
  }

  /** Beyond 15 bits the encoder still codes, but the decoder gives up, inside the segment. */
  lemma {:induction false} CategoryOverflows(d: Decoder, seg: Segment, st: nat, w: nat, j: nat,
                                             rest: seq<Decision>)
    requires w > 0 && j < 15 <= j + Log2(w)
    requires Ready(d) && st + 15 - j <= STATS_SIZE
    requires Tracks(d, seg, CategoryDecisions(st, w) + rest)
    ensures var r := ReadCategory(d, st, j);
            r.Bad? && StaysIn(r.d, seg)
    decreases w
  {
    hide Tracks, Decoder.Decode;
    var more := CategoryDecisions(st + 1, w / 2) + rest;
    assert CategoryDecisions(st, w) + rest == [Decision(st, 1)] + more;
    DecodeOne(d, seg, Decision(st, 1), more);
    if j + 1 == 15 {
      TracksStays(d.Decode(st).1, seg, more);
    } else {
      CategoryOverflows(d.Decode(st).1, seg, st + 1, w / 2, j + 1, rest);
    }
  }

  ghost function AfterSign(base: nat, context: nat, diff: int): seq<Decision>
    requires diff != 0
  {
    var w := Abs(diff) - 1;
    if w == 0 then [Decision(base + context + 2 + Sign(diff), 0)]
    else [Decision(base + context + 2 + Sign(diff), 1)] + MagnitudeDecisions(base + 20, w, w)
  }

  lemma SignIsRead(d: Decoder, seg: Segment, base: nat, context: nat, diff: int,
                   rest: seq<Decision>)
    requires diff != 0 && Ready(d) && base + 64 <= STATS_SIZE && context <= 16
    requires Tracks(d, seg, DcDecisions(base, context, diff) + rest)
    ensures var (nonzero, d1) := d.Decode(base + context);
            var (sign, d2) := d1.Decode(base + context + 1);
            && nonzero == 1 && sign == Sign(diff)
            && Tracks(d2, seg, AfterSign(base, context, diff) + rest)
  {
    hide Tracks, Decoder.Decode;
    var st := base + context;
    var tail := AfterSign(base, context, diff) + rest;
    assert DcDecisions(base, context, diff) + rest
        == [Decision(st, 1)] + ([Decision(st + 1, Sign(diff))] + tail);
    DecodeOne(d, seg, Decision(st, 1), [Decision(st + 1, Sign(diff))] + tail);
    DecodeOne(d.Decode(st).1, seg, Decision(st + 1, Sign(diff)), tail);
  }

  /** A DC difference is read back, and what follows it is untouched, exactly when its
      magnitude is at most 32768. */
  lemma DcIsRead(d: Decoder, seg: Segment, base: nat, context: nat, diff: int,
                 rest: seq<Decision>)
    requires Ready(d) && base + 64 <= STATS_SIZE && context <= 16
    requires Tracks(d, seg, DcDecisions(base, context, diff) + rest)
    ensures var r := ReadDc(d, base, context);
            && (r.Read? <==> Abs(diff) <= 32768)
            && (r.Read? ==> r.val == diff && Tracks(r.d, seg, rest))
            && StaysIn(r.d, seg)
  {
    hide Tracks, Decoder.Decode, StaysIn, ReadMagnitude, MagnitudeDecisions;
    var st := base + context;
    if diff == 0 {
      DecodeOne(d, seg, Decision(st, 0), rest);
      TracksStays(d.Decode(st).1, seg, rest);
    } else {
      SignIsRead(d, seg, base, context, diff, rest);
      var d2 := d.Decode(st).1.Decode(st + 1).1;
      var w, x := Abs(diff) - 1, st + 2 + Sign(diff);
      if w == 0 {
        DecodeOne(d2, seg, Decision(x, 0), rest);
        TracksStays(d2.Decode(x).1, seg, rest);
      } else {
        var tail := MagnitudeDecisions(base + 20, w, w) + rest;
        assert AfterSign(base, context, diff) + rest == [Decision(x, 1)] + tail;
        DecodeOne(d2, seg, Decision(x, 1), tail);
        LongMagnitudeIsRead(d2.Decode(x).1, seg, base + 20, w, rest);
      }
    }
  }

  lemma LongMagnitudeIsRead(d: Decoder, seg: Segment, x: nat, w: nat, rest: seq<Decision>)
    requires w > 0 && Ready(d) && x + 29 <= STATS_SIZE
    requires Tracks(d, seg, MagnitudeDecisions(x, w, w) + rest)
    ensures var r := ReadMagnitude(d, x, 0);
            && (r.Read? <==> w < 32768)
            && (r.Read? ==> r.val == w && Tracks(r.d, seg, rest))
            && StaysIn(r.d, seg)
  {
    hide Tracks, Decoder.Decode, StaysIn;
    assert Pow2(15) == 32768 by { Constants(); }
    if w < 32768 {
      Log2Bound(w, 15);
      MagnitudeIsRead(d, seg, x, w, 0, w, rest);
      TracksStays(ReadMagnitude(d, x, 0).d, seg, rest);
    } else {
      if Log2(w) < 15 {
        Pow2Monotonic(Log2(w) + 1, 15);
      }
      var more := PatternDecisions(x + Log2(w) + 14, Log2(w), w) + rest;
      assert MagnitudeDecisions(x, w, w) + rest == CategoryDecisions(x, w) + more;
      CategoryOverflows(d, seg, x, w, 0, more);
    }
  }

  /** A nonzero AC coefficient is read back after its nonzero decision. */
  lemma CoefIsRead(d: Decoder, seg: Segment, base: nat, k: nat, acK: nat, v: int,
                   rest: seq<Decision>)
    requires Ready(d) && base + 256 <= STATS_SIZE && 0 < k < 64
    requires v != 0 && Abs(v) <= 32768
    requires Tracks(d, seg, CoefDecisions(base, k, acK, v) + rest)
    ensures var (nonzero, d1) := d.Decode(base + 3 * (k - 1) + 1);
            var r := ReadCoef(d1, base, k, acK);
            nonzero == 1 && r.Read? && r.val == v && Tracks(r.d, seg, rest)
  {
    hide Tracks, Decoder.Decode;
    var st := base + 3 * (k - 1);
    var size := SizeDecisions(st + 2, AcX(base, k, acK), Abs(v) - 1) + rest;
    var sign := Decision(FIXED_BIN, Sign(v));
    assert CoefDecisions(base, k, acK, v) + rest == [Decision(st + 1, 1)] + ([sign] + size);
    DecodeOne(d, seg, Decision(st + 1, 1), [sign] + size);
    var d1 := d.Decode(st + 1).1;
    DecodeOne(d1, seg, sign, size);
    SizeIsRead(d1.Decode(FIXED_BIN).1, seg, st + 2, AcX(base, k, acK), Abs(v) - 1, rest);
  }

  lemma LogRange(w: nat)
    requires 2 <= w < 32768
    ensures Log2(w / 2) + 1 == Log2(w) <= 14
  {
    assert Pow2(15) == 32768 by { Constants(); }
    Log2Bound(w, 15);
  }

  lemma SizeIsRead(d: Decoder, seg: Segment, st: nat, x: nat, w: nat, rest: seq<Decision>)
    requires Ready(d) && st < STATS_SIZE && x + 28 <= STATS_SIZE && w < 32768
    requires Tracks(d, seg, SizeDecisions(st, x, w) + rest)
    ensures var r := ReadSize(d, st, x);
            r.Read? && r.val == w && Tracks(r.d, seg, rest)
  {
    hide Tracks, Decoder.Decode, ReadMagnitude, MagnitudeDecisions, Log2, Pow2;
    var one, zero := Decision(st, 1), Decision(st, 0);
    if w == 0 {
      DecodeOne(d, seg, zero, rest);
    } else if w < 2 {
      assert SizeDecisions(st, x, w) + rest == [one] + ([zero] + rest);
      DecodeOne(d, seg, one, [zero] + rest);
      DecodeOne(d.Decode(st).1, seg, zero, rest);
    } else {
      var tail := MagnitudeDecisions(x, w / 2, w) + rest;
      assert SizeDecisions(st, x, w) + rest == [one] + ([one] + tail);
      DecodeOne(d, seg, one, [one] + tail);
      DecodeOne(d.Decode(st).1, seg, one, tail);
      LogRange(w);
      MagnitudeIsRead(d.Decode(st).1.Decode(st).1, seg, x, w / 2, 1, w, rest);
    }
  }

  ghost predicate AcBlock(z: seq<int>, k: nat, ke: nat) {
    && |z| == 64 && 0 < k <= ke + 1 <= 64
    && (ke > 0 ==> z[ke] != 0)
    && (forall i :: ke < i < 64 ==> z[i] == 0)
    && forall i :: 0 <= i < 64 ==> Abs(z[i]) <= 32768
  }

  /** The AC coefficients are read back from position k on. */
  lemma {:induction false} AcIsRead(d: Decoder, seg: Segment, base: nat, acK: nat, z: seq<int>,
                                    k: nat, ke: nat, rest: seq<Decision>)
    requires Ready(d) && base + 256 <= STATS_SIZE && AcBlock(z, k, ke)
    requires Tracks(d, seg, AcDecisions(base, acK, z, k, ke, false) + rest)
    ensures var r := ReadAc(d, base, acK, Upto(z, k), k, false);
            r.Read? && r.val == z && Tracks(r.d, seg, rest)
    decreases 64 - k, 1
  {
    hide Tracks, Decoder.Decode, Upto, ReadCoef, CoefDecisions;
    var st := base + 3 * (k - 1);
    UptoNext(z, k);
    if k <= ke {
      var more := AcDecisions(base, acK, z, k, ke, true) + rest;
      assert AcDecisions(base, acK, z, k, ke, false) + rest == [Decision(st, 0)] + more;
      DecodeOne(d, seg, Decision(st, 0), more);
      AcRunIsRead(d.Decode(st).1, seg, base, acK, z, k, ke, rest);
    } else if k <= 63 {
      DecodeOne(d, seg, Decision(st, 1), rest);
    } else {
      assert AcDecisions(base, acK, z, k, ke, false) + rest == rest;
    }
  }

  lemma {:induction false} AcRunIsRead(d: Decoder, seg: Segment, base: nat, acK: nat, z: seq<int>,
                                       k: nat, ke: nat, rest: seq<Decision>)
    requires Ready(d) && base + 256 <= STATS_SIZE && AcBlock(z, k, ke) && k <= ke
    requires Tracks(d, seg, AcDecisions(base, acK, z, k, ke, true) + rest)
    ensures var r := ReadAc(d, base, acK, Upto(z, k), k, true);
            r.Read? && r.val == z && Tracks(r.d, seg, rest)
    decreases 64 - k, 0
  {
    hide Tracks, Decoder.Decode, ReadCoef, CoefDecisions, Upto;
    var st := base + 3 * (k - 1);
    UptoNext(z, k);
    if z[k] == 0 {
      var more := AcDecisions(base, acK, z, k + 1, ke, true) + rest;
      assert AcDecisions(base, acK, z, k, ke, true) + rest == [Decision(st + 1, 0)] + more;
      DecodeOne(d, seg, Decision(st + 1, 0), more);
      AcRunIsRead(d.Decode(st + 1).1, seg, base, acK, z, k + 1, ke, rest);
    } else {
      var more := AcDecisions(base, acK, z, k + 1, ke, false) + rest;
      assert AcDecisions(base, acK, z, k, ke, true) + rest == CoefDecisions(base, k, acK, z[k]) + more;
      CoefIsRead(d, seg, base, k, acK, z[k], more);
      AcIsRead(ReadCoef(d.Decode(st + 1).1, base, k, acK).d, seg, base, acK, z, k + 1, ke, rest);
    }
  }

  // ---------- which bins are used ----------

  ghost predicate Within(ds: seq<Decision>, lo: nat, hi: nat) {
    forall i :: 0 <= i < |ds| ==> ds[i].val < 2 && lo <= ds[i].bin <= hi
  }

  lemma {:induction false} CategoryBins(st: nat, w: nat)
    requires w > 0
    ensures |CategoryDecisions(st, w)| == Log2(w) + 1
    ensures Within(CategoryDecisions(st, w), st, st + Log2(w))
    decreases w
  {
    if w >= 2 {
      CategoryBins(st + 1, w / 2);
    }
  }

  lemma {:induction false} PatternBins(st: nat, j: nat, w: nat)
    ensures |PatternDecisions(st, j, w)| == j
    ensures Within(PatternDecisions(st, j, w), st, st)
  {
    if j > 0 {
      PatternBins(st, j - 1, w);
    }
  }

  /** The two regions of a magnitude. */
  lemma MagnitudeBins(x: nat, v2: nat, w: nat)
    requires v2 > 0 && w > 0
    ensures var ds, n := MagnitudeDecisions(x, v2, w), Log2(v2) + 1;
            && |ds| == n + Log2(w)
            && Within(ds[..n], x, x + Log2(v2))
            && Within(ds[n..], x + Log2(v2) + 14, x + Log2(v2) + 14)
  {
    hide CategoryDecisions, PatternDecisions;
    CategoryBins(x, v2);
    PatternBins(x + Log2(v2) + 14, Log2(w), w);
    var cat, pat := CategoryDecisions(x, v2), PatternDecisions(x + Log2(v2) + 14, Log2(w), w);
    assert (cat + pat)[..|cat|] == cat && (cat + pat)[|cat|..] == pat;
  }

  lemma WithinWider(ds: seq<Decision>, lo: nat, hi: nat, lo': nat, hi': nat)
    requires Within(ds, lo, hi) && (ds != [] ==> lo' <= lo && hi <= hi')
    ensures Within(ds, lo', hi')
  {
  }

  lemma Glue(head: seq<Decision>, tail: seq<Decision>, c: nat)
    requires c <= |tail|
    ensures var ds, h := head + tail, |head|;
            ds[..h] == head && ds[h..h + c] == tail[..c] && ds[h + c..] == tail[c..]
  {
  }

  lemma WithinParts(ds: seq<Decision>, n: nat, lo: nat, hi: nat)
    requires n <= |ds| && Within(ds[..n], lo, hi) && Within(ds[n..], lo, hi)
    ensures Within(ds, lo, hi)
  {
    forall i | 0 <= i < |ds|
      ensures ds[i].val < 2 && lo <= ds[i].bin <= hi
    {
      if i < n { assert ds[i] == ds[..n][i]; } else { assert ds[i] == ds[n..][i - n]; }
    }
  }

  /** The first decisions of a DC difference: zero or not, sign, and whether it is larger
      than one, all in the bins of its context. */
  function DcHead(base: nat, context: nat, diff: int): seq<Decision>
    requires diff != 0
  {
    [Decision(base + context, 1), Decision(base + context + 1, Sign(diff)),
     Decision(base + context + 2 + Sign(diff), if Abs(diff) == 1 then 0 else 1)]
  }

  lemma DcParts(base: nat, context: nat, diff: int)
    requires diff != 0
    ensures var w := Abs(diff) - 1;
            DcDecisions(base, context, diff) ==
            DcHead(base, context, diff) + (if w == 0 then [] else MagnitudeDecisions(base + 20, w, w))
  {
  }

  lemma NoneWithin(lo: nat, hi: nat)
    ensures Within([], lo, hi)
  {
  }

  lemma TwiceWithin(st: nat)
    ensures Within([Decision(st, 0)], st, st)
    ensures Within([Decision(st, 1), Decision(st, 0)], st, st)
    ensures Within([Decision(st, 1), Decision(st, 1)], st, st)
  {
  }

  lemma DcHeadBins(base: nat, context: nat, diff: int)
    requires context <= 16 && diff != 0
    ensures |DcHead(base, context, diff)| == 3
    ensures Within(DcHead(base, context, diff), base + context, base + 19)
  {
  }

  /** A DC difference uses the four bins of its context, then X bins 20 to 34, then M bins
      35 to 48: three disjoint regions. */
  lemma DcRegions(base: nat, context: nat, diff: int)
    requires context <= 16 && diff != 0 && Abs(diff) <= 32768
    ensures var ds, n := DcDecisions(base, context, diff),
                         if Abs(diff) == 1 then 0 else Log2(Abs(diff) - 1) + 1;
            && 3 + n <= |ds|
            && Within(ds[..3], base + context, base + 19)
            && Within(ds[3..3 + n], base + 20, base + 34)
            && Within(ds[3 + n..], base + 35, base + 48)
  {
    hide MagnitudeDecisions, DcDecisions, DcHead, Within, Log2, Pow2;
    DcParts(base, context, diff);
    DcHeadBins(base, context, diff);
    var ds, w, head := DcDecisions(base, context, diff), Abs(diff) - 1, DcHead(base, context, diff);
    if w == 0 {
      Glue(head, [], 0);
      NoneWithin(base + 20, base + 34);
      NoneWithin(base + 35, base + 48);
    } else {
      assert Pow2(15) == 32768 by { Constants(); }
      Log2Bound(w, 15);
      var md, n := MagnitudeDecisions(base + 20, w, w), Log2(w) + 1;
      MagnitudeBins(base + 20, w, w);
      Glue(head, md, n);
      WithinWider(md[..n], base + 20, base + 20 + Log2(w), base + 20, base + 34);
      WithinWider(md[n..], base + 34 + Log2(w), base + 34 + Log2(w), base + 35, base + 48);
    }
  }

  /** Every DC difference of 16-bit coefficients stays within the 64 bins of its table. */
  lemma DcBinsSuffice(base: nat, context: nat, diff: int)
    requires context <= 16 && Abs(diff) <= 0x10000
    ensures Within(DcDecisions(base, context, diff), base, base + 63)
  {
    hide MagnitudeDecisions, Log2, Pow2;
    if Abs(diff) > 1 {
      var w := Abs(diff) - 1;
      DcParts(base, context, diff);
      Constants();
      Log2Bound(w, 16);
      MagnitudeBins(base + 20, w, w);
      var md, n := MagnitudeDecisions(base + 20, w, w), Log2(w) + 1;
      WithinWider(md[..n], base + 20, base + 20 + Log2(w), base, base + 63);
      WithinWider(md[n..], base + 34 + Log2(w), base + 34 + Log2(w), base, base + 63);
      WithinParts(md, n, base, base + 63);
    }
  }

  lemma LargeSizeRegions(st: nat, x: nat, w: nat)
    requires 2 <= w < 32768
    ensures var ds, n := SizeDecisions(st, x, w), 2 + Log2(w);
            && n <= |ds|
            && Within(ds[..2], st, st)
            && Within(ds[2..n], x, x + 13)
            && Within(ds[n..], x + 14, x + 27)
  {
    hide MagnitudeDecisions, Within, Log2, Pow2;
    LogRange(w);
    var md, c := MagnitudeDecisions(x, w / 2, w), Log2(w);
    MagnitudeBins(x, w / 2, w);
    var head := [Decision(st, 1), Decision(st, 1)];
    TwiceWithin(st);
    assert SizeDecisions(st, x, w) == head + md;
    Glue(head, md, c);
    WithinWider(md[..c], x, x + c - 1, x, x + 13);
    WithinWider(md[c..], x + c + 13, x + c + 13, x + 14, x + 27);
  }

  /** An AC magnitude uses its own bin twice at most, and then X bins x to x + 13 and M bins
      x + 14 to x + 27. */
  lemma SizeRegions(st: nat, x: nat, w: nat)
    requires w < 32768
    ensures var ds, m := SizeDecisions(st, x, w), if w == 0 then 1 else 2;
            var n := if w < 2 then m else m + Log2(w);
            && m <= n <= |ds|
            && Within(ds[..m], st, st)
            && Within(ds[m..n], x, x + 13)
            && Within(ds[n..], x + 14, x + 27)
  {
    hide MagnitudeDecisions, Within;
    if w >= 2 {
      LargeSizeRegions(st, x, w);
    } else {
      NoneWithin(x, x + 13);
      NoneWithin(x + 14, x + 27);
      TwiceWithin(st);
      var ds := SizeDecisions(st, x, w);
      assert ds == if w == 0 then [Decision(st, 0)] else [Decision(st, 1), Decision(st, 0)];
      assert ds + [] == ds;
      Glue(ds, [], 0);
      assert ds[|ds|..] == [];
    }
  }

  ghost predicate AcWithin(ds: seq<Decision>, base: nat) {
    forall i :: 0 <= i < |ds| ==>
      ds[i].val < 2 && (base <= ds[i].bin <= base + 244 || ds[i].bin == FIXED_BIN)
  }

  lemma CoefBins(base: nat, k: nat, acK: nat, v: int)
    requires 0 < k < 64 && v != 0 && Abs(v) <= 32768
    ensures AcWithin(CoefDecisions(base, k, acK, v), base)
  {
    hide SizeDecisions;
    var st, x, w := base + 3 * (k - 1) + 2, AcX(base, k, acK), Abs(v) - 1;
    SizeRegions(st, x, w);
    var ds, m := SizeDecisions(st, x, w), if w == 0 then 1 else 2;
    var n := if w < 2 then m else m + Log2(w);
    WithinWider(ds[..m], st, st, base, base + 244);
    WithinWider(ds[m..n], x, x + 13, base, base + 244);
    WithinWider(ds[n..], x + 14, x + 27, base, base + 244);
    assert ds[..n][..m] == ds[..m] && ds[..n][m..] == ds[m..n];
    WithinParts(ds[..n], m, base, base + 244);
    WithinParts(ds, n, base, base + 244);
  }

  /** The AC coefficients of a block use only bins 0 to 244 of their table and the fixed bin. */
  lemma {:induction false} AcBinsUsed(base: nat, acK: nat, z: seq<int>, k: nat, ke: nat, inRun: bool)
    requires AcBlock(z, k, ke) && (inRun ==> k <= ke)
    ensures AcWithin(AcDecisions(base, acK, z, k, ke, inRun), base)
    decreases 64 - k, if inRun then 0 else 1
  {
    hide CoefDecisions;
    if inRun {
      if z[k] == 0 {
        AcBinsUsed(base, acK, z, k + 1, ke, true);
      } else {
        CoefBins(base, k, acK, z[k]);
        AcBinsUsed(base, acK, z, k + 1, ke, false);
      }
    } else if k <= ke {
      AcBinsUsed(base, acK, z, k, ke, true);
    }
  }
}
