/**
 * What a scan of the image holds (section A.2 of T.81): the number of its MCUs, and where in them
 * every block goes. In a scan of one component an MCU is one block, and blocks come row by row; in
 * an interleaved scan every block of the padded grid of every component has one place of its own.
 */
module ScanOrder {
  import opened Products
  import opened ScanGeometry
  import opened ZigZag
  import opened CoefController

  // ---------- the blocks of an MCU ----------

  lemma {:induction false} RowAt(dct: Transform, c: ScanComp, row: nat, col: nat, n: nat, x: nat)
    requires c.width > 0 && c.height > 0 && c.h > 0
    ensures |Row(dct, c, row, col, n)| == n
    ensures x < n ==> Row(dct, c, row, col, n)[x] == Padded(dct, c, row, col + x)
  {
    hide Padded;
    if n > 0 {
      RowAt(dct, c, row, col, n - 1, x);
    }
  }

  lemma {:induction false} CompAt(dct: Transform, c: ScanComp, row: nat, col: nat, n: nat, y: nat, x: nat)
    requires c.width > 0 && c.height > 0 && c.h > 0
    ensures |CompBlocks(dct, c, row, col, n)| == Prod(n, c.mcuWidth)
    ensures y < n && x < c.mcuWidth ==>
              && 0 <= Prod(y, c.mcuWidth) + x < Prod(n, c.mcuWidth)
              && CompBlocks(dct, c, row, col, n)[Prod(y, c.mcuWidth) + x] == Padded(dct, c, row + y, col + x)
  {
    hide Prod, Padded, Row;
    ProdIsTimes(0, c.mcuWidth);
    ProdNatural(y, c.mcuWidth);
    if n > 0 {
      CompAt(dct, c, row, col, n - 1, y, x);
      RowAt(dct, c, row + n - 1, col, c.mcuWidth, x);
      NextMultiple(n - 1, c.mcuWidth);
    }
  }

  lemma {:induction false} McuBlocksAt(dct: Transform, s: Scan, imcu: nat, y: nat, col: nat, n: nat, ci: nat,
                                       yindex: nat, xindex: nat)
    requires ScanFits(s) && n <= |s.comps|
    ensures |McuBlocks(dct, s, imcu, y, col, n)| == BlockCount(s, n)
    ensures ci < n && yindex < s.comps[ci].mcuHeight && xindex < s.comps[ci].mcuWidth ==>
              var c := s.comps[ci];
              var place := BlockCount(s, ci) + Prod(yindex, c.mcuWidth) + xindex;
              && c.width > 0 && c.height > 0 && c.h > 0
              && Prod(imcu, c.v) >= 0 && Prod(col, c.mcuWidth) >= 0 && 0 <= place < BlockCount(s, n)
              && McuBlocks(dct, s, imcu, y, col, n)[place]
                 == Padded(dct, c, Prod(imcu, c.v) + y + yindex, Prod(col, c.mcuWidth) + xindex)
  {
    hide Prod, Padded, CompBlocks;
    if n > 0 {
      McuBlocksAt(dct, s, imcu, y, col, n - 1, ci, yindex, xindex);
      var c := s.comps[n - 1];
      assert CompFits(c, s.perRow, s.imcuRows, |s.comps| == 1);
      ProdNatural(imcu, c.v);
      ProdNatural(col, c.mcuWidth);
      ProdNatural(c.mcuHeight, c.mcuWidth);
      ProdNatural(yindex, c.mcuWidth);
      CompAt(dct, c, Prod(imcu, c.v) + y, Prod(col, c.mcuWidth), c.mcuHeight, yindex, xindex);
    }
  }

  // ---------- the MCUs of a scan ----------

  lemma {:induction false} McuRowAt(dct: Transform, s: Scan, imcu: nat, y: nat, n: nat, col: nat)
    requires ScanFits(s)
    ensures |McuRow(dct, s, imcu, y, n)| == n
    ensures col < n ==> McuRow(dct, s, imcu, y, n)[col] == McuAt(dct, s, imcu, y, col)
  {
    hide McuAt;
    if n > 0 {
      McuRowAt(dct, s, imcu, y, n - 1, col);
    }
  }

  lemma {:induction false} McuRowsAt(dct: Transform, s: Scan, imcu: nat, n: nat, y: nat, col: nat)
    requires ScanFits(s)
    ensures |McuRows(dct, s, imcu, n)| == Prod(n, s.perRow)
    ensures y < n && col < s.perRow ==>
              && 0 <= Prod(y, s.perRow) + col < Prod(n, s.perRow)
              && McuRows(dct, s, imcu, n)[Prod(y, s.perRow) + col] == McuAt(dct, s, imcu, y, col)
  {
    hide Prod, McuAt, McuRow;
    ProdIsTimes(0, s.perRow);
    ProdNatural(y, s.perRow);
    if n > 0 {
      McuRowsAt(dct, s, imcu, n - 1, y, col);
      McuRowAt(dct, s, imcu, n - 1, s.perRow, col);
      NextMultiple(n - 1, s.perRow);
    }
  }

  /** The MCU rows of the first n iMCU rows. */
  function RowsBefore(s: Scan, n: nat): nat
    requires ScanFits(s)
  {
    if n == 0 then 0 else RowsBefore(s, n - 1) + RowsIn(s, n - 1)
  }

  lemma {:induction false} ImcuRowsAt(dct: Transform, s: Scan, n: nat, imcu: nat, y: nat, col: nat)
    requires ScanFits(s)
    ensures |ImcuRowsUpTo(dct, s, n)| == Prod(RowsBefore(s, n), s.perRow)
    ensures imcu < n && y < RowsIn(s, imcu) && col < s.perRow ==>
              && 0 <= Prod(RowsBefore(s, imcu) + y, s.perRow) + col < Prod(RowsBefore(s, n), s.perRow)
              && ImcuRowsUpTo(dct, s, n)[Prod(RowsBefore(s, imcu) + y, s.perRow) + col] == McuAt(dct, s, imcu, y, col)
  {
    hide Prod, McuAt, McuRows, RowsIn;
    ProdIsTimes(0, s.perRow);
    if n > 0 {
      ImcuRowsAt(dct, s, n - 1, imcu, y, col);
      McuRowsAt(dct, s, n - 1, RowsIn(s, n - 1), y, col);
      ProdSum(RowsBefore(s, n - 1), RowsIn(s, n - 1), s.perRow);
      ProdSum(RowsBefore(s, imcu), y, s.perRow);
      ProdNatural(RowsBefore(s, imcu) + y, s.perRow);
    }
  }

  /** A block holds as many values as DCTSIZE rows of DCTSIZE samples. */
  lemma BlockIsSquare(block: Block)
    ensures |block| == DCTSIZE * DCTSIZE
  {
  }

  // ---------- a scan of one component ----------

  lemma {:induction false} RowsOfOne(s: Scan, n: nat)
    requires ScanFits(s) && |s.comps| == 1 && n <= s.imcuRows
    ensures RowsBefore(s, n) == if n < s.imcuRows then Prod(n, s.comps[0].v) else s.comps[0].height
  {
    hide Prod;
    var c := s.comps[0];
    assert CompFits(c, s.perRow, s.imcuRows, true);
    ProdIsTimes(0, c.v);
    if n > 0 {
      RowsOfOne(s, n - 1);
      NextMultiple(n - 1, c.v);
    }
  }

  lemma BlockInRaster(dct: Transform, s: Scan, r: nat, c: nat)
    requires ScanFits(s) && |s.comps| == 1
    ensures var comp, mcus := s.comps[0], ImcuRowsUpTo(dct, s, s.imcuRows);
            && |mcus| == Prod(comp.height, comp.width)
            && (r < comp.height && c < comp.width ==>
                  0 <= Prod(r, comp.width) + c < |mcus| && mcus[Prod(r, comp.width) + c] == [dct(comp.index, r, c)])
  {
    hide Prod, McuAt, ImcuRowsUpTo, RowsBefore, RowsIn;
    var comp := s.comps[0];
    assert CompFits(comp, s.perRow, s.imcuRows, true);
    RowsOfOne(s, s.imcuRows);
    ImcuRowsAt(dct, s, s.imcuRows, 0, 0, 0);
    if r < comp.height && c < comp.width {
      var imcu, y := r / comp.v, r % comp.v;
      RowInImcu(s, r, imcu, y);
      RowsOfOne(s, imcu);
      DivisionIs(r, comp.v);
      ImcuRowsAt(dct, s, s.imcuRows, imcu, y, c);
      OneBlock(dct, s, imcu, y, c);
    }
  }

  /** Its MCUs are the blocks of the image, every one of them once, row by row. */
  lemma OneComponentIsRaster(dct: Transform, im: Image, ci: nat, r: nat, c: nat)
    requires im.Valid() && ci < |im.comps|
    ensures IsSelection(im, [ci])
    ensures var w, h, mcus := BlocksAcross(im, ci), BlocksDown(im, ci), ScanMcus(dct, im, [ci]);
            && |mcus| == h * w
            && (r < h && c < w ==> 0 <= r * w + c < |mcus| && mcus[r * w + c] == [dct(ci, r, c)])
  {
    hide Prod, ImcuRowsUpTo, DivUp, BlocksAcross, BlocksDown;
    SetupFits(im, [ci]);
    BlockInRaster(dct, PerScanSetup(im, [ci]), r, c);
    ProdIsTimes(BlocksDown(im, ci), BlocksAcross(im, ci));
    ProdIsTimes(r, BlocksAcross(im, ci));
  }

  lemma RowInImcu(s: Scan, r: nat, imcu: nat, y: nat)
    requires ScanFits(s) && |s.comps| == 1 && r < s.comps[0].height && s.comps[0].v > 0
    requires imcu == r / s.comps[0].v && y == r % s.comps[0].v
    ensures imcu < s.imcuRows && y < RowsIn(s, imcu)
  {
    hide Prod;
    var c := s.comps[0];
    assert CompFits(c, s.perRow, s.imcuRows, true);
    DivisionIs(r, c.v);
    NextMultiple(s.imcuRows - 1, c.v);
    if imcu >= s.imcuRows {
      ProdMonotonic(s.imcuRows, imcu, c.v);
    }
  }

  lemma OneBlock(dct: Transform, s: Scan, imcu: nat, y: nat, col: nat)
    requires ScanFits(s) && |s.comps| == 1 && col < s.comps[0].width
    requires Prod(imcu, s.comps[0].v) + y < s.comps[0].height && Prod(imcu, s.comps[0].v) >= 0
    ensures McuAt(dct, s, imcu, y, col) == [dct(s.comps[0].index, Prod(imcu, s.comps[0].v) + y, col)]
  {
    hide Prod;
    var c := s.comps[0];
    assert CompFits(c, s.perRow, s.imcuRows, true);
    McuBlocksAt(dct, s, imcu, y, col, 1, 0, 0, 0);
    ProdIsTimes(0, 1);
    ProdIsTimes(1, 1);
    ProdIsTimes(col, 1);
    assert BlockCount(s, 0) == 0 && BlockCount(s, 1) == 1;
    InImage(dct, c, Prod(imcu, c.v) + y, col);
  }

  // ---------- an interleaved scan ----------

  /** A block of the padded grid of a component of the scan. */
  datatype Address = Address(comp: nat, row: nat, column: nat)

  /** A place in the scan: an MCU, and a block in it. */
  datatype Slot = Slot(mcu: nat, place: nat)

  ghost predicate InGrid(s: Scan, a: Address)
    requires ScanFits(s)
  {
    && a.comp < |s.comps|
    && a.row < Prod(s.imcuRows, s.comps[a.comp].v) && a.column < Prod(s.perRow, s.comps[a.comp].h)
  }

  /** Where it goes: MCUs lie side by side in rows, each with v x h blocks of the component, those
      of one component behind those of the ones before. */
  function SlotOf(s: Scan, a: Address): Slot
    requires a.comp < |s.comps| && s.comps[a.comp].v > 0 && s.comps[a.comp].h > 0
  {
    hide Prod, BlockCount;
    var c := s.comps[a.comp];
    ProdNatural(a.row / c.v, s.perRow);
    ProdNatural(a.row % c.v, c.h);
    Slot(Prod(a.row / c.v, s.perRow) + a.column / c.h,
         BlockCount(s, a.comp) + Prod(a.row % c.v, c.h) + a.column % c.h)
  }

  lemma {:induction false} RowsOfSeveral(s: Scan, n: nat)
    requires ScanFits(s) && |s.comps| > 1
    ensures RowsBefore(s, n) == n
  {
    if n > 0 {
      RowsOfSeveral(s, n - 1);
    }
  }

  lemma GridFits(s: Scan, ci: nat)
    requires ScanFits(s) && |s.comps| > 1 && ci < |s.comps|
    ensures var c := s.comps[ci];
            c.v > 0 && c.h > 0 && c.width > 0 && c.height > 0 && c.mcuWidth == c.h && c.mcuHeight == c.v && s.perRow > 0
  {
    assert CompFits(s.comps[ci], s.perRow, s.imcuRows, false);
  }

  /** n is less than a product exactly if its quotient is less than the factor. */
  lemma QuotientBelow(n: nat, m: nat, d: nat)
    requires d > 0
    ensures n < Prod(m, d) <==> n / d < m
  {
    hide Prod;
    DivisionIs(n, d);
    if n / d < m {
      ProdMonotonic(n / d, m, d);
    } else {
      ProdMonotonic(m, n / d, d);
    }
  }

  /** Every block of every padded grid is sent, in its slot. */
  lemma BlockHasSlot(dct: Transform, s: Scan, a: Address)
    requires ScanFits(s) && |s.comps| > 1 && InGrid(s, a)
    ensures var c, mcus := s.comps[a.comp], ImcuRowsUpTo(dct, s, s.imcuRows);
            && c.v > 0 && c.h > 0 && c.width > 0 && c.height > 0
            && |mcus| == Prod(s.imcuRows, s.perRow)
            && SlotOf(s, a).mcu < |mcus| && |mcus[SlotOf(s, a).mcu]| == BlockCount(s, |s.comps|)
            && SlotOf(s, a).place < BlockCount(s, |s.comps|)
            && mcus[SlotOf(s, a).mcu][SlotOf(s, a).place] == Padded(dct, c, a.row, a.column)
  {
    hide Prod, McuBlocks, ImcuRowsUpTo, Padded, RowsBefore, BlockCount;
    GridFits(s, a.comp);
    var c := s.comps[a.comp];
    var imcu, y, col, x := a.row / c.v, a.row % c.v, a.column / c.h, a.column % c.h;
    QuotientBelow(a.row, s.imcuRows, c.v);
    QuotientBelow(a.column, s.perRow, c.h);
    RowsOfSeveral(s, imcu);
    RowsOfSeveral(s, s.imcuRows);
    ImcuRowsAt(dct, s, s.imcuRows, imcu, 0, col);
    McuBlocksAt(dct, s, imcu, 0, col, |s.comps|, a.comp, y, x);
    DivisionIs(a.row, c.v);
    DivisionIs(a.column, c.h);
  }

  lemma SameSplit(p: nat, x: nat, q: nat, y: nat, d: nat)
    requires x < d && y < d && Prod(p, d) + x == Prod(q, d) + y
    ensures p == q && x == y
  {
    hide Prod;
    if p < q {
      ProdMonotonic(p, q, d);
    } else if q < p {
      ProdMonotonic(q, p, d);
    }
  }

  /** The places of a component's blocks lie between those of its neighbours. */
  lemma PlaceInComponent(s: Scan, a: Address)
    requires ScanFits(s) && |s.comps| > 1 && InGrid(s, a)
    ensures s.comps[a.comp].v > 0 && s.comps[a.comp].h > 0
    ensures BlockCount(s, a.comp) <= SlotOf(s, a).place < BlockCount(s, a.comp + 1)
  {
    hide Prod;
    GridFits(s, a.comp);
    var c := s.comps[a.comp];
    ProdNatural(a.row % c.v, c.h);
    ProdMonotonic(a.row % c.v, c.v, c.h);
  }

  /** And nowhere else: two blocks never go to the same slot. */
  lemma SlotsDiffer(s: Scan, a: Address, b: Address)
    requires ScanFits(s) && |s.comps| > 1 && InGrid(s, a) && InGrid(s, b)
    ensures s.comps[a.comp].v > 0 && s.comps[a.comp].h > 0 && s.comps[b.comp].v > 0 && s.comps[b.comp].h > 0
    ensures SlotOf(s, a) == SlotOf(s, b) ==> a == b
  {
    hide Prod, BlockCount, ScanFits, SlotOf;
    PlaceInComponent(s, a);
    PlaceInComponent(s, b);
    if SlotOf(s, a) == SlotOf(s, b) {
      if a.comp < b.comp {
        BlockCountGrows(s, a.comp + 1, b.comp);
      } else if b.comp < a.comp {
        BlockCountGrows(s, b.comp + 1, a.comp);
      }
      SlotsOfOneComponent(s, a, b);
    }
  }

  lemma SlotsOfOneComponent(s: Scan, a: Address, b: Address)
    requires ScanFits(s) && |s.comps| > 1 && InGrid(s, a) && InGrid(s, b) && a.comp == b.comp
    requires s.comps[a.comp].v > 0 && s.comps[a.comp].h > 0 && SlotOf(s, a) == SlotOf(s, b)
    ensures a == b
  {
    hide Prod, BlockCount, ScanFits;
    var c := s.comps[a.comp];
    ColumnInRow(s, a);
    ColumnInRow(s, b);
    SameSplit(a.row % c.v, a.column % c.h, b.row % c.v, b.column % c.h, c.h);
    SameSplit(a.row / c.v, a.column / c.h, b.row / c.v, b.column / c.h, s.perRow);
    DivisionIs(a.row, c.v);
    DivisionIs(b.row, c.v);
    DivisionIs(a.column, c.h);
    DivisionIs(b.column, c.h);
  }

  lemma ColumnInRow(s: Scan, a: Address)
    requires ScanFits(s) && |s.comps| > 1 && InGrid(s, a) && s.comps[a.comp].h > 0
    ensures a.column / s.comps[a.comp].h < s.perRow
  {
    QuotientBelow(a.column, s.perRow, s.comps[a.comp].h);
  }

  /** The component that place belongs to. */
  lemma {:induction false} ComponentOfPlace(s: Scan, n: nat, place: nat) returns (ci: nat)
    requires n <= |s.comps| && place < BlockCount(s, n)
    ensures ci < n && BlockCount(s, ci) <= place < BlockCount(s, ci + 1)
  {
    if place < BlockCount(s, n - 1) {
      ci := ComponentOfPlace(s, n - 1, place);
    } else {
      ci := n - 1;
    }
  }

  /** Nothing else is sent: every slot is that of a block of some padded grid. */
  lemma SlotHasBlock(s: Scan, slot: Slot) returns (a: Address)
    requires ScanFits(s) && |s.comps| > 1
    requires slot.mcu < Prod(s.imcuRows, s.perRow) && slot.place < BlockCount(s, |s.comps|)
    ensures InGrid(s, a) && s.comps[a.comp].v > 0 && s.comps[a.comp].h > 0 && SlotOf(s, a) == slot
  {
    hide Prod;
    var ci := ComponentOfPlace(s, |s.comps|, slot.place);
    GridFits(s, ci);
    var c := s.comps[ci];
    var p, imcu, col := slot.place - BlockCount(s, ci), slot.mcu / s.perRow, slot.mcu % s.perRow;
    QuotientBelow(slot.mcu, s.imcuRows, s.perRow);
    QuotientBelow(p, c.v, c.h);
    DivisionIs(slot.mcu, s.perRow);
    DivisionIs(p, c.h);
    ProdNatural(imcu, c.v);
    ProdNatural(col, c.h);
    a := Address(ci, Prod(imcu, c.v) + p / c.h, Prod(col, c.h) + p % c.h);
    SplitIs(imcu, p / c.h, c.v);
    SplitIs(col, p % c.h, c.h);
    ProdMonotonic(imcu, s.imcuRows, c.v);
    ProdMonotonic(col, s.perRow, c.h);
  }

  lemma SplitIs(q: nat, r: nat, d: nat)
    requires r < d
    ensures Prod(q, d) >= 0 && (Prod(q, d) + r) / d == q && (Prod(q, d) + r) % d == r
  {
    hide Prod;
    ProdNatural(q, d);
    var n := Prod(q, d) + r;
    BetweenMultiples(n, d, q);
    DivisionIs(n, d);
  }

  /**
   * An interleaved scan of the image: as many MCUs as the image has iMCU rows and columns, and the
   * block in row r and column c of a component's grid, padding included, is in MCU number
   * (r / v) * perRow + c / h, at place (r % v) * h + c % h of that component's blocks.
   */
  lemma InterleavedIsGrid(dct: Transform, im: Image, sel: seq<nat>, i: nat, r: nat, c: nat)
    requires IsSelection(im, sel) && |sel| > 1 && i < |sel|
    requires var comp := im.comps[sel[i]];
             r < ImcuRows(im) * comp.v && c < DivUp(im.width, im.maxH * DCTSIZE) * comp.h
    ensures var s, mcus := PerScanSetup(im, sel), ScanMcus(dct, im, sel);
            var comp, perRow := s.comps[i], DivUp(im.width, im.maxH * DCTSIZE);
            && comp.index == sel[i] && comp.h > 0 && comp.v > 0 && comp.width > 0 && comp.height > 0
            && |mcus| == ImcuRows(im) * perRow
            && 0 <= r / comp.v * perRow + c / comp.h < |mcus|
            && var mcu, place := mcus[r / comp.v * perRow + c / comp.h], r % comp.v * comp.h + c % comp.h;
               && 0 <= BlockCount(s, i) + place < |mcu|
               && mcu[BlockCount(s, i) + place] == Padded(dct, comp, r, c)
  {
    hide Prod, ImcuRowsUpTo, DivUp, BlockCount, Padded, ScanFits, InGrid;
    SetupFits(im, sel);
    var s, comp := PerScanSetup(im, sel), im.comps[sel[i]];
    GridFits(s, i);
    AddressInGrid(s, i, r, c);
    BlockHasSlot(dct, s, Address(i, r, c));
    ProdIsTimes(s.imcuRows, s.perRow);
    ProdIsTimes(r / comp.v, s.perRow);
    ProdIsTimes(r % comp.v, comp.h);
  }

  lemma AddressInGrid(s: Scan, i: nat, r: nat, c: nat)
    requires ScanFits(s) && i < |s.comps| && r < s.imcuRows * s.comps[i].v && c < s.perRow * s.comps[i].h
    ensures InGrid(s, Address(i, r, c))
  {
    ProdIsTimes(s.imcuRows, s.comps[i].v);
    ProdIsTimes(s.perRow, s.comps[i].h);
  }

  // ---------- padding ----------

  /** Inside the image padding changes nothing. Every dummy block has only a DC value, and that is
      the one of the block of the same component sent just before it in the MCU, so that the DC
      difference coded for it is zero. */
  lemma DummiesRepeat(dct: Transform, c: ScanComp, mcuRow: nat, mcuCol: nat, y: nat, x: nat)
    requires c.width > 0 && c.height > 0 && y < c.v && x < c.h
    requires Prod(mcuRow, c.v) < c.height && 0 <= Prod(mcuCol, c.h) < c.width && Prod(mcuRow, c.v) >= 0
    ensures var row, col := Prod(mcuRow, c.v) + y, Prod(mcuCol, c.h) + x;
            && (row < c.height && col < c.width ==> Padded(dct, c, row, col) == dct(c.index, row, col))
            && (row >= c.height || col >= c.width ==>
                  && x + y > 0
                  && var before := if x > 0 then Padded(dct, c, row, col - 1)
                                   else Padded(dct, c, row - 1, Prod(mcuCol, c.h) + c.h - 1);
                     Padded(dct, c, row, col) == DcOnly(before[0]))
  {
    hide Prod, LastOfMcu;
    LastInMcu(mcuCol, x, c.h);
    LastInMcu(mcuCol, if x > 0 then x - 1 else 0, c.h);
    LastInMcu(mcuCol, c.h - 1, c.h);
  }
}
