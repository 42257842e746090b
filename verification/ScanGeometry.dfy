/** Component dimensions in blocks and the MCU layout of a scan (initial_setup and per_scan_setup
    in jcmaster.c). */
module ScanGeometry {
  import opened Products

  const DCTSIZE := 8

  datatype Sampling = Sampling(h: nat, v: nat)

  /** The image in samples, the largest sampling factors, and the components' factors. */
  datatype Image = Image(width: nat, height: nat, maxH: nat, maxV: nat, comps: seq<Sampling>) {

    ghost predicate Valid() {
      && width > 0 && height > 0 && maxH > 0 && maxV > 0
      && forall i :: 0 <= i < |comps| ==> comps[i].h > 0 && comps[i].v > 0
    }
  }

  /** jdiv_round_up */
  function DivUp(a: nat, b: nat): (q: nat)
    requires b > 0
  {
    (a + b - 1) / b
  }

  function BlocksAcross(im: Image, ci: nat): nat
    requires im.Valid() && ci < |im.comps|
  {
    DivUp(im.width * im.comps[ci].h, im.maxH * DCTSIZE)
  }

  function BlocksDown(im: Image, ci: nat): nat
    requires im.Valid() && ci < |im.comps|
  {
    DivUp(im.height * im.comps[ci].v, im.maxV * DCTSIZE)
  }

  function ImcuRows(im: Image): nat
    requires im.Valid()
  {
    DivUp(im.height, im.maxV * DCTSIZE)
  }

  lemma DivUpIs(a: nat, b: nat, q: int)
    requires b > 0
    ensures DivUp(a, b) == q <==> Prod(q - 1, b) < a <= Prod(q, b)
  {
    ProdSum(q, -1, b);
    ProdIsTimes(-1, b);
    if q >= 0 {
      BetweenMultiples(a + b - 1, b, q);
    } else {
      ProdMonotonic(q, -1, b);
    }
  }

  /** Rounding up to blocks and then to MCUs is rounding up to MCUs at once: every component has
      the same number of MCUs across and down. */
  lemma RoundedTwice(size: nat, h: nat, maxH: nat)
    requires size > 0 && h > 0 && maxH > 0
    ensures DivUp(DivUp(size * h, maxH * DCTSIZE), h) == DivUp(size, maxH * DCTSIZE) > 0
  {
    hide Prod, DivUp;
    var b := maxH * DCTSIZE;
    ProdIsTimes(size, h);
    var blocks: int := DivUp(size * h, b);
    var q: int := DivUp(blocks, h);
    DivUpIs(size * h, b, blocks);
    DivUpIs(blocks, h, q);
    // size * h <= blocks * b <= q * h * b, and (q - 1) * h * b <= (blocks - 1) * b < size * h
    ProdMonotonic(blocks, Prod(q, h), b);
    ProdMonotonic(Prod(q - 1, h), blocks - 1, b);
    ProdGroup(q, h, b);
    ProdGroup(q - 1, h, b);
    Unscale(size, Prod(q, b), h);
    Unscale(Prod(q - 1, b), size - 1, h);
    ProdSum(size, -1, h);
    ProdIsTimes(-1, h);
    OneLess(Prod(q - 1, b), size, h);
    DivUpIs(size, b, q);
    if q <= 0 {
      ProdMonotonic(q, 0, b);
      ProdIsTimes(0, b);
    }
  }

  /** A component's size in samples (section A.1.1). */
  function SamplesAcross(im: Image, ci: nat): nat
    requires im.Valid() && ci < |im.comps|
  {
    DivUp(im.width * im.comps[ci].h, im.maxH)
  }

  function SamplesDown(im: Image, ci: nat): nat
    requires im.Valid() && ci < |im.comps|
  {
    DivUp(im.height * im.comps[ci].v, im.maxV)
  }

  /** A component has just the blocks that its samples need, DCTSIZE by DCTSIZE of them each: every
      sample lies in a block, and every block has a sample. */
  lemma BlocksCoverSamples(im: Image, ci: nat)
    requires im.Valid() && ci < |im.comps|
    ensures forall x: nat :: x < SamplesAcross(im, ci) ==> x / DCTSIZE < BlocksAcross(im, ci)
    ensures forall c: nat :: c < BlocksAcross(im, ci) ==> c * DCTSIZE < SamplesAcross(im, ci)
    ensures forall y: nat :: y < SamplesDown(im, ci) ==> y / DCTSIZE < BlocksDown(im, ci)
    ensures forall r: nat :: r < BlocksDown(im, ci) ==> r * DCTSIZE < SamplesDown(im, ci)
  {
    hide DivUp;
    BlocksOfSamples(im.width * im.comps[ci].h, im.maxH);
    BlocksOfSamples(im.height * im.comps[ci].v, im.maxV);
  }

  lemma BlocksOfSamples(a: nat, m: nat)
    requires m > 0
    ensures DivUp(a, m * DCTSIZE) == DivUp(DivUp(a, m), DCTSIZE)
    ensures DCTSIZE * (DivUp(a, m * DCTSIZE) - 1) < DivUp(a, m) <= DCTSIZE * DivUp(a, m * DCTSIZE)
  {
    hide Prod, DivUp;
    var samples: int := DivUp(a, m);
    var blocks: int := DivUp(samples, DCTSIZE);
    DivUpIs(a, m, samples);
    DivUpIs(samples, DCTSIZE, blocks);
    // (blocks - 1) * 8 * m <= (samples - 1) * m < a <= samples * m <= blocks * 8 * m
    ProdMonotonic(samples, Prod(blocks, DCTSIZE), m);
    ProdMonotonic(Prod(blocks - 1, DCTSIZE), samples - 1, m);
    ProdGroup(blocks, DCTSIZE, m);
    ProdGroup(blocks - 1, DCTSIZE, m);
    ProdIsTimes(DCTSIZE, m);
    DivUpIs(a, m * DCTSIZE, blocks);
    ProdIsTimes(blocks, DCTSIZE);
    ProdIsTimes(blocks - 1, DCTSIZE);
  }

  lemma Unscale(x: int, y: int, h: nat)
    requires h > 0
    ensures Prod(x, h) <= Prod(y, h) ==> x <= y
  {
    if x > y {
      ProdMonotonic(y, x, h);
    }
  }

  lemma OneLess(x: int, y: int, h: nat)
    requires h > 0
    ensures Prod(x, h) < Prod(y, h) ==> x < y
  {
    if x >= y {
      ProdMonotonic(y, x, h);
    }
  }

  // ---------- the scan ----------

  /** A component of the scan, as per_scan_setup leaves it. */
  datatype ScanComp = ScanComp(index: nat, h: nat, v: nat, width: nat, height: nat,
                               mcuWidth: nat, mcuHeight: nat, lastColWidth: nat, lastRowHeight: nat)

  datatype Scan = Scan(comps: seq<ScanComp>, perRow: nat, imcuRows: nat)

  function LastPart(size: nat, unit: nat): nat
    requires unit > 0
  {
    if size % unit == 0 then unit else size % unit
  }

  /** A component of an interleaved scan. */
  function Interleaved(im: Image, ci: nat): ScanComp
    requires im.Valid() && ci < |im.comps|
  {
    var c, w, h := im.comps[ci], BlocksAcross(im, ci), BlocksDown(im, ci);
    ScanComp(ci, c.h, c.v, w, h, c.h, c.v, LastPart(w, c.h), LastPart(h, c.v))
  }

  /** The component of a scan that has only one: an MCU is one block. */
  function Alone(im: Image, ci: nat): ScanComp
    requires im.Valid() && ci < |im.comps|
  {
    var c, w, h := im.comps[ci], BlocksAcross(im, ci), BlocksDown(im, ci);
    ScanComp(ci, c.h, c.v, w, h, 1, 1, 1, LastPart(h, c.v))
  }

  /** Components of the image, selected for a scan. */
  ghost predicate IsSelection(im: Image, sel: seq<nat>) {
    im.Valid() && sel != [] && forall i :: 0 <= i < |sel| ==> sel[i] < |im.comps|
  }

  /** per_scan_setup for the selected components. */
  function PerScanSetup(im: Image, sel: seq<nat>): Scan
    requires IsSelection(im, sel)
  {
    if |sel| == 1 then Scan([Alone(im, sel[0])], BlocksAcross(im, sel[0]), ImcuRows(im))
    else Scan(seq(|sel|, i requires 0 <= i < |sel| => Interleaved(im, sel[i])),
              DivUp(im.width, im.maxH * DCTSIZE), ImcuRows(im))
  }

  /** size blocks make up count units, the last of which may be partial. */
  ghost predicate Covers(count: nat, unit: nat, last: nat, size: nat) {
    && count > 0 && 1 <= last <= unit
    && size == Prod(count - 1, unit) + last
  }

  /** What a component must have, whatever the scan. */
  ghost predicate IsComp(c: ScanComp, imcuRows: nat) {
    c.width > 0 && c.height > 0 && c.h > 0 && Covers(imcuRows, c.v, c.lastRowHeight, c.height)
  }

  ghost predicate CompFits(c: ScanComp, perRow: nat, imcuRows: nat, alone: bool) {
    && IsComp(c, imcuRows)
    && (alone ==> c.mcuWidth == c.mcuHeight == c.lastColWidth == 1 && perRow == c.width)
    && (!alone ==> c.mcuWidth == c.h && c.mcuHeight == c.v && Covers(perRow, c.h, c.lastColWidth, c.width))
  }

  ghost predicate ScanFits(s: Scan) {
    && s.comps != []
    && forall i :: 0 <= i < |s.comps| ==> CompFits(s.comps[i], s.perRow, s.imcuRows, |s.comps| == 1)
  }

  lemma LastPartCovers(size: nat, unit: nat)
    requires size > 0 && unit > 0
    ensures Covers(DivUp(size, unit), unit, LastPart(size, unit), size)
  {
    hide Prod;
    DivisionIs(size, unit);
    var q, r := size / unit, size % unit;
    ProdSum(q, -1, unit);
    ProdSum(q, 1, unit);
    ProdIsTimes(-1, unit);
    ProdIsTimes(1, unit);
    if r == 0 {
      DivUpIs(size, unit, q);
      if q == 0 {
        ProdIsTimes(0, unit);
      }
    } else {
      DivUpIs(size, unit, q + 1);
    }
  }

  /** initial_setup gives every component the same number of iMCU rows, and columns. */
  lemma ComponentFits(im: Image, ci: nat)
    requires im.Valid() && ci < |im.comps|
    ensures IsComp(Interleaved(im, ci), ImcuRows(im))
    ensures var c := Interleaved(im, ci);
            Covers(DivUp(im.width, im.maxH * DCTSIZE), c.h, c.lastColWidth, c.width)
  {
    hide DivUp, Covers, LastPart;
    var c := im.comps[ci];
    RoundedTwice(im.width, c.h, im.maxH);
    RoundedTwice(im.height, c.v, im.maxV);
    SomeBlocks(im.width, c.h, im.maxH);
    SomeBlocks(im.height, c.v, im.maxV);
    LastPartCovers(BlocksAcross(im, ci), c.h);
    LastPartCovers(BlocksDown(im, ci), c.v);
  }

  /** What per_scan_setup computes fits together, for any scan of any image. */
  lemma SetupFits(im: Image, sel: seq<nat>)
    requires IsSelection(im, sel)
    ensures ScanFits(PerScanSetup(im, sel))
  {
    hide DivUp, Covers, LastPart;
    var s := PerScanSetup(im, sel);
    forall i | 0 <= i < |sel|
      ensures CompFits(s.comps[i], s.perRow, s.imcuRows, |sel| == 1)
    {
      ComponentFits(im, sel[i]);
    }
  }

  lemma SomeBlocks(size: nat, h: nat, maxH: nat)
    requires size > 0 && h > 0 && maxH > 0
    ensures DivUp(size * h, maxH * DCTSIZE) > 0
  {
    hide Prod;
    ProdIsTimes(size, h);
    ProdMonotonic(1, size, h);
    ProdIsTimes(0, maxH * DCTSIZE);
    DivUpIs(size * h, maxH * DCTSIZE, 0);
  }
}
