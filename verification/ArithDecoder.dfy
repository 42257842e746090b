/**
 * The arithmetic decoder of jdarith.c as a function of its state, and the proof that it follows
 * the interval coder decision by decision.
 */
module ArithDecoder {
  import opened Powers
  import opened Aritab
  import opened CodeBytes
  import opened IntervalCoder

  /** The compressed data, the read position, and the marker code that stopped reading
      (0 while there is none). */
  datatype Source = Source(data: seq<nat>, pos: nat, marker: nat) {

    /** Where the run of 0xFF bytes starting at p ends. */
    function SkipFill(p: nat): (q: nat)
      ensures p <= q
      ensures q < |data| ==> data[q] != 0xFF
      decreases |data| - p
    {
      if p < |data| && data[p] == 0xFF then SkipFill(p + 1) else p
    }

    /** The next data byte, or zero once a marker was met. Data that ends without a marker
        reads as if an EOI marker followed. */
    function Next(): (r: (nat, Source))
      ensures r.1.data == data
    {
      if marker != 0 then (0, this)
      else if pos >= |data| then (0, this.(marker := 0xD9))
      else if data[pos] != 0xFF then (data[pos], this.(pos := pos + 1))
      else
        var q := SkipFill(pos + 1);
        if q >= |data| then (0, this.(pos := q, marker := 0xD9))
        else if data[q] == 0 then (0xFF, this.(pos := q + 1))
        else (0, this.(pos := q + 1, marker := data[q]))
    }
  }

  datatype Decoder = Decoder(c: nat, a: nat, ct: int, src: Source, stats: Stats) {

    /** Either still to read the two initial bytes, or running. */
    ghost predicate Shaped() {
      && ((a == 0 && (ct == -16 || ct == -8)) || (0 < a <= 0x10000 && 0 <= ct <= 7))
      && ValidStats(stats)
    }

    /** The renormalization loop at the start of a decode: shifts in data until the interval
        is large enough. */
    function Refill(): (d: Decoder)
      requires Shaped()
      ensures d.Shaped() && d.a >= 0x8000 && d.stats == stats
      decreases if a == 0 then 0x10000 - ct else 0x10000 - a
    {
      if a >= 0x8000 then this
      else if ct > 0 then Decoder(c, 2 * a, ct - 1, src, stats).Refill()
      else
        var (data, rest) := src.Next();
        var fed := 0x100 * c + data;
        var bits := ct - 1 + 8;
        if bits >= 0 then Decoder(fed, 2 * a, bits, rest, stats).Refill()
        else if bits + 1 == 0 then Decoder(fed, 2 * 0x8000, 0, rest, stats).Refill()
        else Decoder(fed, 2 * a, bits + 1, rest, stats).Refill()
    }

    /** Compares the code with the lower part of the interval, exchanging the symbols and
        adapting the bin as the encoder did. */
    function Decide(bin: nat): (r: (nat, Decoder))
      requires Shaped() && a >= 0x8000 && bin < |stats|
      ensures r.0 < 2 && r.1.Shaped() && |r.1.stats| == |stats|
    {
      var sv := stats[bin];
      var qe := Qe(sv);
      var rest := a - qe;
      var temp := ShiftLeft(rest, ct);
      if c >= temp then
        if rest < qe then
          (sv / 128, Decoder(c - temp, qe, ct, src, stats[bin := AfterMps(sv)]))
        else
          (1 - sv / 128, Decoder(c - temp, qe, ct, src, stats[bin := AfterLps(sv)]))
      else if rest >= 0x8000 then
        (sv / 128, Decoder(c, rest, ct, src, stats))
      else if rest < qe then
        (1 - sv / 128, Decoder(c, rest, ct, src, stats[bin := AfterLps(sv)]))
      else
        (sv / 128, Decoder(c, rest, ct, src, stats[bin := AfterMps(sv)]))
    }

    /** Decodes one binary decision with the given bin. */
    function Decode(bin: nat): (r: (nat, Decoder))
      requires Shaped() && bin < |stats|
      ensures r.0 < 2 && r.1.Shaped() && |r.1.stats| == |stats|
    {
      Refill().Decide(bin)
    }

    /** The outcome depends only on which part the code is in. */
    lemma DecideByPart(bin: nat, upper: bool)
      requires Shaped() && a >= 0x8000 && bin < |stats|
      requires upper == (c >= ShiftLeft(a - Qe(stats[bin]), ct))
      ensures var sv := stats[bin]; var rest := a - Qe(sv);
              var lps := upper == (rest >= Qe(sv));
              Decide(bin) == (if lps then 1 - sv / 128 else sv / 128,
                              Decoder(if upper then c - ShiftLeft(rest, ct) else c,
                                      if upper then Qe(sv) else rest, ct, src,
                                      stats[bin := Estimate(sv, lps, rest)]))
    {
      assert stats[bin := stats[bin]] == stats;
    }
  }

  /** The state in which a segment that starts at pos is decoded. */
  function Start(data: seq<nat>, pos: nat, stats: Stats): Decoder {
    Decoder(0, 0, -16, Source(data, pos, 0), stats)
  }

  /** Marker codes that can follow a segment: 0xFF alone is fill, 0x00 is stuffing. */
  ghost predicate StartsWithMarker(tail: seq<nat>) {
    |tail| >= 2 && tail[0] == 0xFF && tail[1] != 0x00 && tail[1] != 0xFF
  }

  /** The segment with code string e lies at offset at of the data, and a marker follows. */
  ghost predicate SegmentAt(data: seq<nat>, at: nat, e: seq<nat>) {
    && IsBytes(e)
    && at + |Stuff(e)| <= |data|
    && data[at..at + |Stuff(e)|] == Stuff(e)
    && StartsWithMarker(data[at + |Stuff(e)|..])
  }

  /** The source has handed out r bytes of the segment. */
  ghost predicate HasRead(src: Source, at: nat, e: seq<nat>, r: nat) {
    if r <= |e| then src.pos == at + |Stuff(e[..r])| && src.marker == 0
    else
      var end := at + |Stuff(e)| + 2;
      src.pos == end <= |src.data| && src.marker == src.data[end - 1] != 0
  }

  ghost predicate InSegment(src: Source, at: nat, e: seq<nat>) {
    SegmentAt(src.data, at, e) && exists r: nat :: HasRead(src, at, e, r)
  }

  function StuffByte(b: nat): (t: seq<nat>) {
    if b == 0xFF then [0xFF, 0x00] else [b]
  }

  /** Where byte r of the segment is found in the stuffed data. */
  lemma StuffedByte(e: seq<nat>, r: nat)
    requires r < |e|
    ensures var p, t := |Stuff(e[..r])|, StuffByte(e[r]);
            && p + |t| == |Stuff(e[..r + 1])| <= |Stuff(e)|
            && Stuff(e)[p..p + |t|] == t
  {
    var rest := Stuff(e[r + 1..]);
    assert e[..r + 1] == e[..r] + [e[r]];
    StuffSnoc(e[..r], e[r]);
    assert e == e[..r + 1] + e[r + 1..];
    StuffAppend(e[..r + 1], e[r + 1..]);
    assert Stuff(e) == Stuff(e[..r]) + StuffByte(e[r]) + rest;
  }

  lemma StuffedByteInData(data: seq<nat>, at: nat, e: seq<nat>, r: nat)
    requires SegmentAt(data, at, e) && r < |e|
    ensures var p := at + |Stuff(e[..r])|;
            && p + |StuffByte(e[r])| == at + |Stuff(e[..r + 1])| <= |data|
            && data[p] == e[r]
            && (e[r] == 0xFF ==> data[p + 1] == 0x00)
  {
    StuffedByte(e, r);
    var q, t := |Stuff(e[..r])|, StuffByte(e[r]);
    var d := data[at..at + |Stuff(e)|];
    assert d[q..q + |t|] == t;
    assert data[at + q] == d[q] == d[q..q + |t|][0];
    if e[r] == 0xFF {
      assert data[at + q + 1] == d[q + 1] == d[q..q + |t|][1];
    }
  }

  /** Reading on returns the segment's bytes without the stuffing, and then zeros. */
  lemma NextReads(src: Source, at: nat, e: seq<nat>, r: nat)
    requires SegmentAt(src.data, at, e) && HasRead(src, at, e, r)
    ensures src.Next().0 == At(e, r)
    ensures HasRead(src.Next().1, at, e, r + 1)
  {
    var n := at + |Stuff(e)|;
    if r < |e| {
      StuffedByteInData(src.data, at, e, r);
      if e[r] == 0xFF {
        assert src.SkipFill(src.pos + 1) == src.pos + 1;
      }
    } else if r == |e| {
      assert e[..r] == e;
      assert src.data[n..][0] == src.data[n] && src.data[n..][1] == src.data[n + 1];
      assert src.SkipFill(src.pos + 1) == src.pos + 1;
    }
  }

  /** The decoder has read r bytes of the segment, and its C register holds how far the code
      lies above the low end of the interval. */
  ghost predicate InStep(d: Decoder, at: nat, e: seq<nat>, iv: Interval, r: nat) {
    && d.Shaped() && d.a > 0
    && SegmentAt(d.src.data, at, e) && HasRead(d.src, at, e, r)
    && d.a == iv.a
    && 8 * r == 16 + iv.shifts + d.ct
    && d.c + ShiftLeft(iv.low, d.ct) == Prefix(e, r)
  }

  lemma {:induction false} RefillInStep(d: Decoder, at: nat, e: seq<nat>, iv: Interval, r: nat)
    requires InStep(d, at, e, iv, r)
    ensures exists q: nat :: InStep(d.Refill(), at, e, Renorm(iv), q)
    decreases 0x10000 - d.a
  {
    if d.a >= 0x8000 {
      assert InStep(d.Refill(), at, e, Renorm(iv), r);
    } else {
      var twice := Interval(2 * iv.low, 2 * iv.a, iv.shifts + 1);
      assert Renorm(iv) == Renorm(twice);
      if d.ct > 0 {
        ShiftDoubled(iv.low, d.ct - 1);
        var next := Decoder(d.c, 2 * d.a, d.ct - 1, d.src, d.stats);
        RefillInStep(next, at, e, twice, r);
        assert d.Refill() == next.Refill();
      } else {
        NextReads(d.src, at, e, r);
        var (data, rest) := d.src.Next();
        ShiftByByte(iv.low);
        assert Prefix(e, r + 1) == 256 * Prefix(e, r) + At(e, r);
        var next := Decoder(0x100 * d.c + data, 2 * d.a, 7, rest, d.stats);
        RefillInStep(next, at, e, twice, r + 1);
        assert d.Refill() == next.Refill();
      }
    }
  }

  lemma {:induction false} RefillKeepsData(d: Decoder)
    requires d.Shaped()
    ensures d.Refill().src.data == d.src.data
    decreases if d.a == 0 then 0x10000 - d.ct else 0x10000 - d.a
  {
    if d.a < 0x8000 {
      if d.ct > 0 {
        RefillKeepsData(Decoder(d.c, 2 * d.a, d.ct - 1, d.src, d.stats));
      } else {
        var (data, rest) := d.src.Next();
        var bits := d.ct - 1 + 8;
        var next := Decoder(0x100 * d.c + data, if bits == -1 then 0x10000 else 2 * d.a,
                            if bits >= 0 then bits else bits + 1, rest, d.stats);
        RefillKeepsData(next);
      }
    }
  }

  lemma ShiftDoubled(x: nat, n: nat)
    ensures ShiftLeft(2 * x, n) == ShiftLeft(x, n + 1)
  {
    MulAssociative(2, x, Pow2(n));
    MulAssociative(x, 2, Pow2(n));
    assert (2 * x) * Pow2(n) == (x * 2) * Pow2(n);
  }

  lemma ShiftByByte(x: nat)
    ensures ShiftLeft(x, 0) == x && ShiftLeft(2 * x, 7) == 256 * x
  {
    ShiftDoubled(x, 7);
    Constants();
  }

  /** A segment with code string e at offset at of the data. */
  datatype Segment = Segment(data: seq<nat>, at: nat, e: seq<nat>)

  /** The decoder is where the encoder was when it still had to code ds. */
  ghost predicate Tracks(d: Decoder, seg: Segment, ds: seq<Decision>) {
    && d.Shaped() && IsBytes(seg.e) && AllCodable(ds, d.stats)
    && d.src.data == seg.data && InSegment(d.src, seg.at, seg.e)
    && exists iv: Interval, r: nat :: Ahead(d, seg, ds, iv, r)
  }

  ghost predicate Ahead(d: Decoder, seg: Segment, ds: seq<Decision>, iv: Interval, r: nat)
    requires d.Shaped() && AllCodable(ds, d.stats)
  {
    && iv.Normalized() && iv.InUnit()
    && InStep(d.Refill(), seg.at, seg.e, iv, r)
    && CodeIn(seg.e, Run(Model(iv, d.stats), ds).iv)
  }

  /** The decoder is somewhere in the segment, whatever it has made of it. */
  ghost predicate StaysIn(d: Decoder, seg: Segment) {
    d.src.data == seg.data && InSegment(d.src, seg.at, seg.e)
  }

  lemma TracksStays(d: Decoder, seg: Segment, ds: seq<Decision>)
    requires Tracks(d, seg, ds)
    ensures StaysIn(d, seg)
  {
  }

  /** The first decode reads two bytes and then holds a full interval. */
  lemma StartRefills(data: seq<nat>, at: nat, e: seq<nat>, stats: Stats)
    requires SegmentAt(data, at, e) && ValidStats(stats)
    ensures InStep(Start(data, at, stats).Refill(), at, e, UNIT, 2)
  {
    var d := Start(data, at, stats);
    assert HasRead(d.src, at, e, 0) by { assert e[..0] == []; }
    NextReads(d.src, at, e, 0);
    var (b0, s1) := d.src.Next();
    NextReads(s1, at, e, 1);
    var (b1, s2) := s1.Next();
    var d1 := Decoder(b0, 0, -8, s1, stats);
    assert d.Refill() == d1.Refill();
    assert d1.Refill() == Decoder(0x100 * b0 + b1, 0x10000, 0, s2, stats);
    assert Prefix(e, 1) == At(e, 0) && Prefix(e, 2) == 256 * Prefix(e, 1) + At(e, 1);
    ShiftByByte(UNIT.low);
  }

  lemma StartTracks(seg: Segment, stats: Stats, ds: seq<Decision>)
    requires SegmentAt(seg.data, seg.at, seg.e)
    requires ValidStats(stats) && AllCodable(ds, stats)
    requires (UnitIsValid(); CodeIn(seg.e, Run(Model(UNIT, stats), ds).iv))
    ensures Tracks(Start(seg.data, seg.at, stats), seg, ds)
  {
    UnitIsValid();
    StartRefills(seg.data, seg.at, seg.e, stats);
    assert HasRead(Source(seg.data, seg.at, 0), seg.at, seg.e, 0) by { assert seg.e[..0] == []; }
    assert Ahead(Start(seg.data, seg.at, stats), seg, ds, UNIT, 2);
  }

  /** Comparing the C register with the lower part's size finds the part the code is in. */
  lemma PartIsFound(f: Decoder, at: nat, e: seq<nat>, iv: Interval, r: nat, qe: nat, lps: bool)
    requires InStep(f, at, e, iv, r) && 0 < qe < 0x8000 <= iv.a
    requires CodeIn(e, Part(iv, qe, lps))
    ensures var rest := iv.a - qe; var upper := lps == (rest >= qe);
            && (f.c >= ShiftLeft(rest, f.ct)) == upper
            && ShiftLeft(iv.low + rest, f.ct) == ShiftLeft(iv.low, f.ct) + ShiftLeft(rest, f.ct)
  {
    var part, rest := Part(iv, qe, lps), iv.a - qe;
    assert PrefixIn(e, r, part);
    MulDistributes(iv.low, rest, Pow2(f.ct));
  }

  lemma DecideStays(f: Decoder, at: nat, e: seq<nat>, iv: Interval, r: nat, bin: nat, val: nat)
    requires InStep(f, at, e, iv, r) && iv.Normalized()
    requires bin < |f.stats| && val < 2
    requires CodeIn(e, Part(iv, Qe(f.stats[bin]), IsLps(f.stats[bin], val)))
    ensures var (got, next) := f.Decide(bin);
            && got == val
            && next.stats == f.stats[bin := Adapt(iv, f.stats[bin], val)]
            && next.src == f.src
            && InStep(next, at, e, Part(iv, Qe(f.stats[bin]), IsLps(f.stats[bin], val)), r)
  {
    var sv := f.stats[bin];
    var qe, lps, rest := Qe(sv), IsLps(sv, val), iv.a - Qe(sv);
    var upper := lps == (rest >= qe);
    PartIsFound(f, at, e, iv, r, qe, lps);
    f.DecideByPart(bin, upper);
  }

  /** The key step: the next decision is decoded correctly, and the decoder stays in step. */
  lemma DecodeTracks(d: Decoder, seg: Segment, ds: seq<Decision>)
    requires Tracks(d, seg, ds) && ds != []
    ensures var (val, next) := d.Decode(ds[0].bin);
            val == ds[0].val && Tracks(next, seg, ds[1..])
  {
    var (at, e) := (seg.at, seg.e);
    var iv, r: nat :| Ahead(d, seg, ds, iv, r);
    var (bin, val) := (ds[0].bin, ds[0].val);
    var m := Model(iv, d.stats);
    var part := Part(iv, Qe(d.stats[bin]), IsLps(d.stats[bin], val));
    RunIsInside(e, m.Step(ds[0]), ds[1..]);
    RenormIsInside(e, part);
    DecideStays(d.Refill(), at, e, iv, r, bin, val);
    var (got, next) := d.Decode(bin);
    RefillKeepsData(d);
    RefillInStep(next, at, e, part, r);
    var q: nat :| InStep(next.Refill(), at, e, Renorm(part), q);
    assert HasRead(next.src, at, e, r);
    assert Ahead(next, seg, ds[1..], Renorm(part), q);
  }

  /** next_marker of jdmarker.c: the next marker code at or after pos, and where it ends. */
  function NextMarker(src: Source): (r: Source)
    ensures r.data == src.data && r.marker != 0
    decreases |src.data| - src.pos
  {
    if src.pos >= |src.data| then src.(marker := 0xD9)
    else if src.data[src.pos] != 0xFF then NextMarker(src.(pos := src.pos + 1))
    else
      var q := src.SkipFill(src.pos + 1);
      if q >= |src.data| then src.(pos := q, marker := 0xD9)
      else if src.data[q] == 0 then NextMarker(src.(pos := q + 1))
      else src.(pos := q + 1, marker := src.data[q])
  }

  /** The marker that ends the segment is found from wherever the decoder stopped reading. */
  lemma {:induction false} MarkerIsFound(src: Source, at: nat, e: seq<nat>, r: nat)
    requires SegmentAt(src.data, at, e) && r <= |e| && HasRead(src, at, e, r)
    ensures HasRead(NextMarker(src), at, e, |e| + 1)
    decreases |e| - r
  {
    NextReads(src, at, e, r);
    if r < |e| {
      StuffedByteInData(src.data, at, e, r);
      MarkerIsFound(src.Next().1, at, e, r + 1);
    } else {
      assert e[..r] == e;
      var n := at + |Stuff(e)|;
      assert src.data[n..][0] == src.data[n] && src.data[n..][1] == src.data[n + 1];
      assert src.SkipFill(src.pos + 1) == src.pos + 1;
    }
  }
}
