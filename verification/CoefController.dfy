/**
 * The coefficient controller (jccoefct.c). The single-pass path makes up the blocks of each MCU
 * when they are needed; the full-buffer path transforms whole rows of blocks into padded arrays
 * first and sends MCUs from there. Both must hand the entropy encoder the same MCUs, dummy
 * blocks at the right and lower edges included, and take up again where they were suspended.
 */
module CoefController {
  import opened Products
  import opened ScanGeometry
  import opened ZigZag
  import opened Mcus

  /** The forward DCT and quantisation: a function of component, block row and block column. */
  type Transform = (nat, nat, nat) -> Block

  // ---------- what is to be sent ----------

  /** The last block column of the MCU that column col lies in, for MCUs h blocks wide. */
  function LastOfMcu(col: nat, h: nat): nat
    requires h > 0
  {
    col - col % h + (h - 1)
  }

  /** A component's blocks, padded to whole MCUs (section A.2.4): to the right with the DC value
      of the last block of the row, below with that of the last block above in the same MCU. */
  function Padded(dct: Transform, c: ScanComp, row: nat, col: nat): Block
    requires c.width > 0 && c.height > 0 && c.h > 0
  {
    if row >= c.height then DcOnly(PaddedRight(dct, c, c.height - 1, LastOfMcu(col, c.h))[0])
    else PaddedRight(dct, c, row, col)
  }

  function PaddedRight(dct: Transform, c: ScanComp, row: nat, col: nat): Block
    requires c.width > 0
  {
    if col < c.width then dct(c.index, row, col) else DcOnly(dct(c.index, row, c.width - 1)[0])
  }

  /** n blocks side by side. */
  function Row(dct: Transform, c: ScanComp, row: nat, col: nat, n: nat): seq<Block>
    requires c.width > 0 && c.height > 0 && c.h > 0
  {
    if n == 0 then [] else Row(dct, c, row, col, n - 1) + [Padded(dct, c, row, col + n - 1)]
  }

  /** The first n rows of a component's blocks in an MCU whose upper left block is given. */
  function CompBlocks(dct: Transform, c: ScanComp, row: nat, col: nat, n: nat): seq<Block>
    requires c.width > 0 && c.height > 0 && c.h > 0
  {
    if n == 0 then [] else CompBlocks(dct, c, row, col, n - 1) + Row(dct, c, row + n - 1, col, c.mcuWidth)
  }

  /** The blocks of the first n components in MCU number col of MCU row y of an iMCU row. */
  function McuBlocks(dct: Transform, s: Scan, imcu: nat, y: nat, col: nat, n: nat): Mcu
    requires ScanFits(s) && n <= |s.comps|
  {
    if n == 0 then []
    else
      var c := s.comps[n - 1];
      ProdNatural(imcu, c.v);
      ProdNatural(col, c.mcuWidth);
      McuBlocks(dct, s, imcu, y, col, n - 1)
      + CompBlocks(dct, c, Prod(imcu, c.v) + y, Prod(col, c.mcuWidth), c.mcuHeight)
  }

  function McuAt(dct: Transform, s: Scan, imcu: nat, y: nat, col: nat): Mcu
    requires ScanFits(s)
  {
    McuBlocks(dct, s, imcu, y, col, |s.comps|)
  }

  /** The first n MCUs of an MCU row. */
  function McuRow(dct: Transform, s: Scan, imcu: nat, y: nat, n: nat): seq<Mcu>
    requires ScanFits(s)
  {
    if n == 0 then [] else McuRow(dct, s, imcu, y, n - 1) + [McuAt(dct, s, imcu, y, n - 1)]
  }

  /** The number of MCU rows in an iMCU row. */
  function RowsIn(s: Scan, imcu: nat): nat
    requires ScanFits(s)
  {
    if |s.comps| > 1 then 1
    else if imcu < s.imcuRows - 1 then s.comps[0].v
    else s.comps[0].lastRowHeight
  }

  function McuRows(dct: Transform, s: Scan, imcu: nat, n: nat): seq<Mcu>
    requires ScanFits(s)
  {
    if n == 0 then [] else McuRows(dct, s, imcu, n - 1) + McuRow(dct, s, imcu, n - 1, s.perRow)
  }

  /** The MCUs of the first n iMCU rows, in raster order. */
  function ImcuRowsUpTo(dct: Transform, s: Scan, n: nat): seq<Mcu>
    requires ScanFits(s)
  {
    if n == 0 then [] else ImcuRowsUpTo(dct, s, n - 1) + McuRows(dct, s, n - 1, RowsIn(s, n - 1))
  }

  /** All that comes before MCU number col of MCU row y of an iMCU row. */
  function SentBefore(dct: Transform, s: Scan, imcu: nat, y: nat, col: nat): seq<Mcu>
    requires ScanFits(s)
  {
    ImcuRowsUpTo(dct, s, imcu) + McuRows(dct, s, imcu, y) + McuRow(dct, s, imcu, y, col)
  }

  lemma SentNext(dct: Transform, s: Scan, imcu: nat, y: nat, col: nat)
    requires ScanFits(s)
    ensures SentBefore(dct, s, imcu, y, col + 1) == SentBefore(dct, s, imcu, y, col) + [McuAt(dct, s, imcu, y, col)]
    ensures SentBefore(dct, s, imcu, y + 1, 0) == SentBefore(dct, s, imcu, y, s.perRow)
    ensures SentBefore(dct, s, imcu + 1, 0, 0) == SentBefore(dct, s, imcu, RowsIn(s, imcu), 0)
  {
  }

  // ---------- the entropy encoder's side ----------

  /** An entropy encoder that takes or refuses each MCU, as its destination has room. */
  class Sink {
    var answers: seq<bool>  // what it will say; when they run out it takes everything
    var mcus: seq<Mcu>      // what it has taken

    constructor (answers: seq<bool>)
      ensures mcus == [] && this.answers == answers
    {
      this.answers, mcus := answers, [];
    }

    /** encode_mcu: a refused MCU leaves no trace. */
    method EncodeMcu(mcu: Mcu) returns (ok: bool)
      modifies this
      ensures ok ==> mcus == old(mcus) + [mcu] && |answers| <= |old(answers)|
      ensures !ok ==> mcus == old(mcus) && |answers| < |old(answers)|
    {
      ok := answers == [] || answers[0];
      if answers != [] {
        answers := answers[1..];
      }
      if ok {
        mcus := mcus + [mcu];
      }
    }
  }

  // ---------- geometry of one MCU ----------

  /** Row i of an MCU is a row of dummies exactly if it lies below the component. */
  lemma RowPlace(s: Scan, c: ScanComp, imcu: nat, y: nat, i: nat)
    requires s.imcuRows > 0 && Covers(s.imcuRows, c.v, c.lastRowHeight, c.height) && imcu < s.imcuRows && y + i < c.v
    ensures Prod(imcu, c.v) >= 0
    ensures imcu < s.imcuRows - 1 || y + i < c.lastRowHeight <==> Prod(imcu, c.v) + y + i < c.height
  {
    hide Prod;
    ProdNatural(imcu, c.v);
    if imcu < s.imcuRows - 1 {
      ProdMonotonic(imcu, s.imcuRows - 1, c.v);
    } else {
      assert imcu == s.imcuRows - 1;
    }
  }

  /** Column x of an MCU holds dummies exactly if it lies to the right of the component. */
  lemma ColumnPlace(c: ScanComp, perRow: nat, imcuRows: nat, alone: bool, col: nat, x: nat)
    requires CompFits(c, perRow, imcuRows, alone) && col < perRow && x < c.mcuWidth
    ensures Prod(col, c.mcuWidth) >= 0
    ensures x < (if col < perRow - 1 then c.mcuWidth else c.lastColWidth) <==> Prod(col, c.mcuWidth) + x < c.width
    ensures !alone ==> LastOfMcu(Prod(col, c.h) + x, c.h) == Prod(col, c.h) + c.h - 1
  {
    hide Prod, LastOfMcu;
    ProdNatural(col, c.mcuWidth);
    if alone {
      ProdMonotonic(0, 1, col);
    } else {
      LastInMcu(col, x, c.h);
      if col < perRow - 1 {
        ProdMonotonic(col, perRow - 1, c.h);
      } else {
        assert col == perRow - 1;
      }
    }
  }

  lemma LastInMcu(m: nat, x: nat, h: nat)
    requires x < h
    ensures Prod(m, h) >= 0 && LastOfMcu(Prod(m, h) + x, h) == Prod(m, h) + h - 1
  {
    hide Prod;
    ProdNatural(m, h);
    var n := Prod(m, h) + x;
    BetweenMultiples(n, h, m);
    DivisionIs(n, h);
  }

  /** The number of blocks that the first n components contribute to an MCU. */
  function BlockCount(s: Scan, n: nat): nat
    requires n <= |s.comps|
  {
    if n == 0 then 0
    else
      ProdNatural(s.comps[n - 1].mcuHeight, s.comps[n - 1].mcuWidth);
      BlockCount(s, n - 1) + Prod(s.comps[n - 1].mcuHeight, s.comps[n - 1].mcuWidth)
  }

  lemma {:induction false} BlockCountGrows(s: Scan, m: nat, n: nat)
    requires m <= n <= |s.comps|
    ensures BlockCount(s, m) <= BlockCount(s, n)
    decreases n
  {
    hide Prod;
    if m < n {
      BlockCountGrows(s, m, n - 1);
      ProdNatural(s.comps[n - 1].mcuHeight, s.comps[n - 1].mcuWidth);
    }
  }

  lemma {:induction false} RowLength(dct: Transform, c: ScanComp, row: nat, col: nat, n: nat)
    requires c.width > 0 && c.height > 0 && c.h > 0
    ensures |Row(dct, c, row, col, n)| == n
    ensures n > 0 ==> Row(dct, c, row, col, n)[n - 1] == Padded(dct, c, row, col + n - 1)
  {
    if n > 0 {
      RowLength(dct, c, row, col, n - 1);
    }
  }

  const C_MAX_BLOCKS_IN_MCU := 10

  /** forward_DCT on n blocks side by side. */
  method ForwardDct(dct: Transform, c: ScanComp, row: nat, col: nat, n: nat, buffer: array<Block>, at: nat)
    requires c.width > 0 && c.h > 0 && row < c.height && col + n <= c.width && at + n <= buffer.Length
    modifies buffer
    ensures buffer[at..at + n] == Row(dct, c, row, col, n)
    ensures buffer[..at] == old(buffer[..at])
  {
    var bi := 0;
    while bi < n
      invariant 0 <= bi <= n && buffer[at..at + bi] == Row(dct, c, row, col, bi)
      invariant buffer[..at] == old(buffer[..at])
    {
      ghost var before := buffer[at..at + bi];
      buffer[at + bi] := dct(c.index, row, col + bi);
      bi := bi + 1;
      assert buffer[at..at + bi] == before + [dct(c.index, row, col + bi - 1)];
    }
  }

  /** The dummy blocks at the right edge: each takes its DC value from the block before. */
  method FillRight(dct: Transform, c: ScanComp, row: nat, col: nat, blockCnt: nat, n: nat, buffer: array<Block>,
                   at: nat)
    requires c.width > 0 && c.h > 0 && row < c.height && 0 < blockCnt <= n && at + n <= buffer.Length
    requires blockCnt < n ==> col + blockCnt == c.width
    requires col + blockCnt <= c.width && buffer[at..at + blockCnt] == Row(dct, c, row, col, blockCnt)
    modifies buffer
    ensures buffer[at..at + n] == Row(dct, c, row, col, n)
    ensures buffer[..at] == old(buffer[..at])
  {
    hide Padded, DcOnly;
    RowLength(dct, c, row, col, blockCnt);
    ghost var dc := dct(c.index, row, c.width - 1)[0];
    InImage(dct, c, row, col + blockCnt - 1);
    assert buffer[at + blockCnt - 1] == buffer[at..at + blockCnt][blockCnt - 1];
    var bi := blockCnt;
    while bi < n
      invariant blockCnt <= bi <= n && buffer[at..at + bi] == Row(dct, c, row, col, bi)
      invariant bi < n ==> buffer[at + bi - 1][0] == dc
      invariant buffer[..at] == old(buffer[..at])
    {
      ghost var before := buffer[at..at + bi];
      RightOfImage(dct, c, row, col + bi);
      buffer[at + bi] := DcOnly(buffer[at + bi - 1][0]);
      bi := bi + 1;
      assert buffer[at..at + bi] == before + [DcOnly(dc)];
    }
  }

  lemma InImage(dct: Transform, c: ScanComp, row: nat, col: nat)
    requires c.h > 0 && row < c.height && col < c.width
    ensures Padded(dct, c, row, col) == dct(c.index, row, col)
  {
  }

  lemma RightOfImage(dct: Transform, c: ScanComp, row: nat, col: nat)
    requires c.h > 0 && row < c.height && c.width > 0 && col >= c.width
    ensures var dc := dct(c.index, row, c.width - 1)[0];
            Padded(dct, c, row, col) == DcOnly(dc) && DcOnly(dc)[0] == dc
  {
  }

  /** A row of dummy blocks below the image: they take the DC value of the last block above. */
  method FillBelow(dct: Transform, c: ScanComp, row: nat, col: nat, buffer: array<Block>, at: nat)
    requires c.width > 0 && c.height > 0 && c.h > 0 && c.mcuWidth == c.h
    requires row >= c.height && 0 < at && at + c.h <= buffer.Length
    requires forall x :: col <= x < col + c.h ==> LastOfMcu(x, c.h) == col + c.h - 1
    requires buffer[at - 1] == Padded(dct, c, row - 1, col + c.h - 1)
    modifies buffer
    ensures buffer[at..at + c.h] == Row(dct, c, row, col, c.h)
    ensures buffer[..at] == old(buffer[..at])
  {
    hide LastOfMcu;
    var dc := PaddedRight(dct, c, c.height - 1, col + c.h - 1)[0];
    assert LastOfMcu(col + c.h - 1, c.h) == col + c.h - 1;
    assert buffer[at - 1][0] == dc;
    var bi := 0;
    while bi < c.h
      invariant 0 <= bi <= c.h && buffer[at..at + bi] == Row(dct, c, row, col, bi)
      invariant buffer[..at] == old(buffer[..at]) && buffer[at - 1][0] == dc
    {
      ghost var before := buffer[at..at + bi];
      buffer[at + bi] := DcOnly(buffer[at - 1][0]);
      assert LastOfMcu(col + bi, c.h) == col + c.h - 1;
      bi := bi + 1;
      assert buffer[at..at + bi] == before + [DcOnly(dc)];
    }
  }

  // ---------- one MCU of the single-pass path ----------

  /** A place in the scan: an MCU row of an iMCU row, and an MCU in it. */
  ghost predicate InScan(s: Scan, imcu: nat, y: nat, col: nat) {
    ScanFits(s) && imcu < s.imcuRows && y < RowsIn(s, imcu) && col < s.perRow
  }

  /** One row of a component's blocks in an MCU, real or made up. */
  method MakeRow(dct: Transform, s: Scan, ci: nat, imcu: nat, y: nat, col: nat, yindex: nat,
                 buffer: array<Block>, blkn: nat)
    requires InScan(s, imcu, y, col) && ci < |s.comps| && yindex < s.comps[ci].mcuHeight
    requires blkn + s.comps[ci].mcuWidth <= buffer.Length
    requires var c := s.comps[ci];
             yindex > 0 ==>
               && blkn > 0 && Prod(imcu, c.v) >= 0 && Prod(col, c.mcuWidth) >= 0
               && buffer[blkn - 1]
                   == Padded(dct, c, Prod(imcu, c.v) + y + yindex - 1, Prod(col, c.mcuWidth) + c.mcuWidth - 1)
    modifies buffer
    ensures var c := s.comps[ci];
            && Prod(imcu, c.v) >= 0 && Prod(col, c.mcuWidth) >= 0
            && buffer[..blkn + c.mcuWidth]
               == old(buffer[..blkn]) + Row(dct, c, Prod(imcu, c.v) + y + yindex, Prod(col, c.mcuWidth), c.mcuWidth)
            && c.mcuWidth > 0
            && buffer[blkn + c.mcuWidth - 1]
               == Padded(dct, c, Prod(imcu, c.v) + y + yindex, Prod(col, c.mcuWidth) + c.mcuWidth - 1)
  {
    hide Prod, Padded, Row, LastOfMcu;
    var c := s.comps[ci];
    assert CompFits(c, s.perRow, s.imcuRows, |s.comps| == 1);
    RowPlace(s, c, imcu, y, yindex);
    RowPlace(s, c, imcu, y, 0);
    ProdIsTimes(imcu, c.v);
    ProdIsTimes(col, c.mcuWidth);
    var row, xpos := imcu * c.v + y + yindex, col * c.mcuWidth;
    ColumnPlace(c, s.perRow, s.imcuRows, |s.comps| == 1, col, c.mcuWidth - 1);
    var blockCnt := if col < s.perRow - 1 then c.mcuWidth else c.lastColWidth;
    ColumnPlace(c, s.perRow, s.imcuRows, |s.comps| == 1, col, blockCnt - 1);
    if imcu < s.imcuRows - 1 || y + yindex < c.lastRowHeight {
      ForwardDct(dct, c, row, xpos, blockCnt, buffer, blkn);
      if blockCnt < c.mcuWidth {
        ColumnPlace(c, s.perRow, s.imcuRows, |s.comps| == 1, col, blockCnt);
        FillRight(dct, c, row, xpos, blockCnt, c.mcuWidth, buffer, blkn);
      }
    } else {
      forall x | xpos <= x < xpos + c.h
        ensures LastOfMcu(x, c.h) == xpos + c.h - 1
      {
        ColumnPlace(c, s.perRow, s.imcuRows, |s.comps| == 1, col, x - xpos);
      }
      FillBelow(dct, c, row, xpos, buffer, blkn);
    }
    RowLength(dct, c, row, xpos, c.mcuWidth);
    assert buffer[..blkn + c.mcuWidth] == buffer[..blkn] + buffer[blkn..blkn + c.mcuWidth];
    assert buffer[blkn + c.mcuWidth - 1] == buffer[blkn..blkn + c.mcuWidth][c.mcuWidth - 1];
  }

  /** A component's blocks of an MCU, row by row. */
  method MakeComponent(dct: Transform, s: Scan, ci: nat, imcu: nat, y: nat, col: nat, buffer: array<Block>, at: nat)
    returns (blkn: nat)
    requires InScan(s, imcu, y, col) && ci < |s.comps|
    requires at == BlockCount(s, ci) && BlockCount(s, ci + 1) <= buffer.Length
    requires buffer[..at] == McuBlocks(dct, s, imcu, y, col, ci)
    modifies buffer
    ensures blkn == BlockCount(s, ci + 1) && buffer[..blkn] == McuBlocks(dct, s, imcu, y, col, ci + 1)
  {
    hide Prod, Padded, Row, InScan;
    SomeFacts(s, ci, imcu, y, col);
    var c := s.comps[ci];
    ghost var row, xpos := Prod(imcu, c.v) + y, Prod(col, c.mcuWidth);
    ProdIsTimes(0, c.mcuWidth);
    ProdNatural(c.mcuHeight, c.mcuWidth);
    blkn := at;
    ghost var above := McuBlocks(dct, s, imcu, y, col, ci);
    var yindex := 0;
    while yindex < c.mcuHeight
      invariant 0 <= yindex <= c.mcuHeight && at <= blkn == at + Prod(yindex, c.mcuWidth) <= buffer.Length
      invariant buffer[..blkn] == above + CompBlocks(dct, c, row, xpos, yindex)
      invariant yindex > 0 ==> blkn > 0 && buffer[blkn - 1] == Padded(dct, c, row + yindex - 1, xpos + c.mcuWidth - 1)
    {
      ProdSum(yindex, 1, c.mcuWidth);
      ProdIsTimes(1, c.mcuWidth);
      ProdMonotonic(yindex + 1, c.mcuHeight, c.mcuWidth);
      MakeRow(dct, s, ci, imcu, y, col, yindex, buffer, blkn);
      Together(above, CompBlocks(dct, c, row, xpos, yindex), Row(dct, c, row + yindex, xpos, c.mcuWidth));
      yindex := yindex + 1;
      blkn := blkn + c.mcuWidth;
    }
  }

  lemma Together(a: seq<Block>, b: seq<Block>, c: seq<Block>)
    ensures a + b + c == a + (b + c)
  {
  }

  lemma SomeFacts(s: Scan, ci: nat, imcu: nat, y: nat, col: nat)
    requires InScan(s, imcu, y, col) && ci < |s.comps|
    ensures ScanFits(s)
    ensures var c := s.comps[ci];
            && c.width > 0 && c.height > 0 && c.h > 0 && c.mcuWidth > 0 && c.mcuHeight > 0
            && Prod(imcu, c.v) >= 0 && Prod(col, c.mcuWidth) >= 0
  {
    var c := s.comps[ci];
    assert CompFits(c, s.perRow, s.imcuRows, |s.comps| == 1);
    ProdNatural(imcu, c.v);
    ProdNatural(col, c.mcuWidth);
  }

  /** The blocks of one MCU, in the single-pass path. */
  method MakeMcu(dct: Transform, s: Scan, imcu: nat, y: nat, col: nat, buffer: array<Block>) returns (blkn: nat)
    requires InScan(s, imcu, y, col) && BlockCount(s, |s.comps|) <= buffer.Length
    modifies buffer
    ensures blkn <= buffer.Length && buffer[..blkn] == McuAt(dct, s, imcu, y, col)
  {
    hide InScan, ScanFits;
    ScanOf(s, imcu, y, col);
    blkn := 0;
    var ci := 0;
    while ci < |s.comps|
      invariant 0 <= ci <= |s.comps| && blkn == BlockCount(s, ci) <= buffer.Length
      invariant buffer[..blkn] == McuBlocks(dct, s, imcu, y, col, ci)
    {
      BlockCountGrows(s, ci + 1, |s.comps|);
      blkn := MakeComponent(dct, s, ci, imcu, y, col, buffer, blkn);
      ci := ci + 1;
    }
  }

  lemma ScanOf(s: Scan, imcu: nat, y: nat, col: nat)
    requires InScan(s, imcu, y, col)
    ensures ScanFits(s)
  {
  }

  // ---------- the full-buffer path: padded arrays ----------

  /** A component's width in blocks, padded to whole MCUs. */
  function PaddedWidth(c: ScanComp): nat
    requires c.h > 0
  {
    ProdNatural(DivUp(c.width, c.h), c.h);
    Prod(DivUp(c.width, c.h), c.h)
  }

  /** The padded block array has the right blocks in the given row, up to column n. */
  ghost predicate RowHolds(dct: Transform, c: ScanComp, whole: array2<Block>, row: nat, n: nat)
    requires c.width > 0 && c.height > 0 && c.h > 0
    reads whole
  {
    row < whole.Length0 && n <= whole.Length1 && forall col :: 0 <= col < n ==>
        whole[row, col] == Padded(dct, c, row, col)
  }

  /** One row of real blocks, with dummies at its right end. */
  method LoadRow(dct: Transform, c: ScanComp, row: nat, whole: array2<Block>)
    requires c.width > 0 && c.h > 0 && row < c.height
    requires row < whole.Length0 && whole.Length1 == PaddedWidth(c)
    modifies whole
    ensures RowHolds(dct, c, whole, row, whole.Length1)
    ensures forall r, col :: 0 <= r < whole.Length0 && 0 <= col < whole.Length1 && r != row ==>
            whole[r, col] == old(whole[r, col])
    ensures forall r :: 0 <= r && r != row && old(RowHolds(dct, c, whole, r, whole.Length1)) ==>
            RowHolds(dct, c, whole, r, whole.Length1)
  {
    hide Padded, DcOnly, Prod;
    DummyColumns(c);
    var ndummy := c.width % c.h;
    if ndummy > 0 {
      ndummy := c.h - ndummy;
    }
    var col := 0;
    while col < c.width
      invariant 0 <= col <= c.width && RowHolds(dct, c, whole, row, col)
      invariant forall r, k :: 0 <= r < whole.Length0 && 0 <= k < whole.Length1 && r != row ==>
              whole[r, k] == old(whole[r, k])
    {
      InImage(dct, c, row, col);
      whole[row, col] := dct(c.index, row, col);
      col := col + 1;
    }
    InImage(dct, c, row, c.width - 1);
    var lastDc := whole[row, c.width - 1][0];
    var bi := 0;
    while bi < ndummy
      invariant 0 <= bi <= ndummy && RowHolds(dct, c, whole, row, c.width + bi)
      invariant forall r, k :: 0 <= r < whole.Length0 && 0 <= k < whole.Length1 && r != row ==>
              whole[r, k] == old(whole[r, k])
    {
      RightOfImage(dct, c, row, c.width + bi);
      whole[row, c.width + bi] := DcOnly(lastDc);
      bi := bi + 1;
    }
  }

  lemma DummyColumns(c: ScanComp)
    requires c.width > 0 && c.h > 0
    ensures PaddedWidth(c) == c.width + (if c.width % c.h > 0 then c.h - c.width % c.h else 0)
  {
    hide Prod;
    DivisionIs(c.width, c.h);
    var q, r := c.width / c.h, c.width % c.h;
    ProdSum(q, 1, c.h);
    ProdSum(q, -1, c.h);
    ProdIsTimes(1, c.h);
    ProdIsTimes(-1, c.h);
    DivUpIs(c.width, c.h, if r == 0 then q else q + 1);
  }

  /** One row of dummy blocks below the image, MCU by MCU. */
  method LoadDummyRow(dct: Transform, c: ScanComp, row: nat, whole: array2<Block>)
    requires c.width > 0 && c.height > 0 && c.h > 0 && row >= c.height
    requires 0 < row < whole.Length0 && whole.Length1 == PaddedWidth(c)
    requires RowHolds(dct, c, whole, row - 1, whole.Length1)
    modifies whole
    ensures RowHolds(dct, c, whole, row, whole.Length1)
    ensures forall r, col :: 0 <= r < whole.Length0 && 0 <= col < whole.Length1 && r != row ==>
            whole[r, col] == old(whole[r, col])
    ensures forall r :: 0 <= r && r != row && old(RowHolds(dct, c, whole, r, whole.Length1)) ==>
            RowHolds(dct, c, whole, r, whole.Length1)
  {
    hide Padded, DcOnly, Prod;
    var mcusAcross := DivUp(c.width, c.h);
    var mcuIndex: nat, at: nat := 0, 0;
    ProdIsTimes(0, c.h);
    while mcuIndex < mcusAcross
      invariant 0 <= mcuIndex <= mcusAcross && at == Prod(mcuIndex, c.h) <= whole.Length1
      invariant RowHolds(dct, c, whole, row, at) && RowHolds(dct, c, whole, row - 1, whole.Length1)
      invariant forall r, k :: 0 <= r < whole.Length0 && 0 <= k < whole.Length1 && r != row ==>
              whole[r, k] == old(whole[r, k])
    {
      ProdMonotonic(mcuIndex + 1, mcusAcross, c.h);
      ProdSum(mcuIndex, 1, c.h);
      ProdIsTimes(1, c.h);
      var lastDc := whole[row - 1, at + c.h - 1][0];
      var bi := 0;
      while bi < c.h
        invariant 0 <= bi <= c.h && RowHolds(dct, c, whole, row, at + bi)
                && RowHolds(dct, c, whole, row - 1, whole.Length1)
        invariant forall r, k :: 0 <= r < whole.Length0 && 0 <= k < whole.Length1 && r != row ==>
                whole[r, k] == old(whole[r, k])
      {
        BelowImage(dct, c, row, mcuIndex, bi);
        whole[row, at + bi] := DcOnly(lastDc);
        bi := bi + 1;
      }
      mcuIndex, at := mcuIndex + 1, at + c.h;
    }
  }

  lemma BelowImage(dct: Transform, c: ScanComp, row: nat, m: nat, x: nat)
    requires c.width > 0 && c.height > 0 && c.h > 0 && row >= c.height && x < c.h
    ensures Prod(m, c.h) >= 0
    ensures Padded(dct, c, row, Prod(m, c.h) + x) == DcOnly(Padded(dct, c, row - 1, Prod(m, c.h) + c.h - 1)[0])
  {
    hide Prod, LastOfMcu;
    LastInMcu(m, x, c.h);
    LastInMcu(m, c.h - 1, c.h);
  }

  /** The rows of an iMCU row, padded: what compress_first_pass does for one component. */
  method LoadComponent(dct: Transform, c: ScanComp, imcu: nat, imcuRows: nat, whole: array2<Block>)
    requires IsComp(c, imcuRows) && imcu < imcuRows
    requires Prod(imcuRows, c.v) <= whole.Length0 && whole.Length1 == PaddedWidth(c)
    modifies whole
    ensures Prod(imcu, c.v) >= 0
    ensures forall r :: Prod(imcu, c.v) <= r < Prod(imcu, c.v) + c.v ==> RowHolds(dct, c, whole, r, whole.Length1)
    ensures forall r, col :: 0 <= r < Prod(imcu, c.v) && r < whole.Length0 && 0 <= col < whole.Length1 ==>
            whole[r, col] == old(whole[r, col])
  {
    hide Prod, Padded;
    ProdNatural(imcu, c.v);
    ProdIsTimes(imcu, c.v);
    ProdSum(imcu, 1, c.v);
    ProdIsTimes(1, c.v);
    ProdMonotonic(imcu + 1, imcuRows, c.v);
    var top := imcu * c.v;
    var blockRows := c.v;
    if imcu == imcuRows - 1 {
      LastRows(c, imcuRows);
      blockRows := c.height % c.v;
      if blockRows == 0 {
        blockRows := c.v;
      }
    } else {
      ProdMonotonic(imcu + 1, imcuRows - 1, c.v);
    }
    var blockRow := 0;
    while blockRow < blockRows
      invariant 0 <= blockRow <= blockRows
      invariant forall r :: top <= r < top + blockRow ==> RowHolds(dct, c, whole, r, whole.Length1)
      invariant forall r, col :: 0 <= r < top && 0 <= col < whole.Length1 ==> whole[r, col] == old(whole[r, col])
    {
      LoadRow(dct, c, top + blockRow, whole);
      blockRow := blockRow + 1;
    }
    while blockRow < c.v
      invariant blockRows <= blockRow <= c.v
      invariant forall r :: top <= r < top + blockRow ==> RowHolds(dct, c, whole, r, whole.Length1)
      invariant forall r, col :: 0 <= r < top && 0 <= col < whole.Length1 ==> whole[r, col] == old(whole[r, col])
    {
      LoadDummyRow(dct, c, top + blockRow, whole);
      blockRow := blockRow + 1;
    }
  }

  lemma LastRows(c: ScanComp, imcuRows: nat)
    requires IsComp(c, imcuRows)
    ensures c.lastRowHeight == LastPart(c.height, c.v)
  {
    hide Prod;
    DivisionIs(c.height, c.v);
    var n := imcuRows - 1;
    ProdNatural(n, c.v);
    if c.lastRowHeight < c.v {
      BetweenMultiples(c.height, c.v, n);
    } else {
      ProdSum(n, 1, c.v);
      ProdIsTimes(1, c.v);
      BetweenMultiples(c.height, c.v, n + 1);
    }
  }

  // ---------- one MCU of the full-buffer path ----------

  /** An array holds a component's first n iMCU rows, padded. */
  ghost predicate HoldsUpTo(dct: Transform, c: ScanComp, n: nat, whole: array2<Block>)
    requires c.width > 0 && c.height > 0 && c.h > 0
    reads whole
  {
    && whole.Length1 == PaddedWidth(c)
    && forall r :: 0 <= r < Prod(n, c.v) ==> RowHolds(dct, c, whole, r, whole.Length1)
  }

  /** whole_image: one array for each component of the image, as they are requested. */
  ghost predicate HasArrays(im: Image, whole: seq<array2<Block>>) {
    && im.Valid() && |whole| == |im.comps|
    && (forall ci :: 0 <= ci < |whole| ==> ArrayFits(im, ci, whole[ci]))
    && (forall i, j :: 0 <= i < j < |whole| ==> whole[i] != whole[j])
  }

  ghost predicate ArrayFits(im: Image, ci: nat, whole: array2<Block>)
    requires im.Valid() && ci < |im.comps|
  {
    var c := Interleaved(im, ci);
    c.h > 0 && whole.Length1 == PaddedWidth(c) && whole.Length0 >= Prod(ImcuRows(im), c.v)
  }

  /** They hold the first n iMCU rows of the padded image. */
  ghost predicate HoldImage(dct: Transform, im: Image, n: nat, whole: seq<array2<Block>>)
    requires im.Valid()
    reads whole
  {
    |whole| == |im.comps| && forall ci :: 0 <= ci < |whole| ==> HoldsComponent(dct, im, ci, n, whole[ci])
  }

  ghost predicate HoldsComponent(dct: Transform, im: Image, ci: nat, n: nat, whole: array2<Block>)
    requires im.Valid() && ci < |im.comps|
    reads whole
  {
    ComponentFits(im, ci);
    HoldsUpTo(dct, Interleaved(im, ci), n, whole)
  }

  /** What a scan needs of them to send its MCUs of an iMCU row. */
  ghost predicate Loaded(dct: Transform, s: Scan, imcu: nat, whole: seq<array2<Block>>)
    requires ScanFits(s)
    reads whole
  {
    forall i :: 0 <= i < |s.comps| ==>
      s.comps[i].index < |whole| && CompLoaded(dct, s, i, imcu, whole[s.comps[i].index])
  }

  ghost predicate CompLoaded(dct: Transform, s: Scan, i: nat, imcu: nat, whole: array2<Block>)
    requires ScanFits(s) && i < |s.comps|
    reads whole
  {
    assert CompFits(s.comps[i], s.perRow, s.imcuRows, |s.comps| == 1);
    HoldsUpTo(dct, s.comps[i], imcu + 1, whole)
  }

  /** Padding depends on the component and not on the scan, so any scan of the image can be sent
      from the arrays. */
  lemma AnyScanIsLoaded(dct: Transform, im: Image, sel: seq<nat>, n: nat, imcu: nat, whole: seq<array2<Block>>)
    requires IsSelection(im, sel) && HoldImage(dct, im, n, whole) && imcu < n
    ensures ScanFits(PerScanSetup(im, sel)) && Loaded(dct, PerScanSetup(im, sel), imcu, whole)
  {
    hide HoldsUpTo, ScanFits, CompFits;
    SetupFits(im, sel);
    var s := PerScanSetup(im, sel);
    forall i | 0 <= i < |sel|
      ensures s.comps[i].index < |whole| && CompLoaded(dct, s, i, imcu, whole[s.comps[i].index])
    {
      assert HoldsComponent(dct, im, sel[i], n, whole[sel[i]]);
      ComponentFits(im, sel[i]);
      assert s.comps[i].width > 0 && s.comps[i].height > 0 && s.comps[i].h > 0;
      SameComponent(dct, Interleaved(im, sel[i]), s.comps[i], n, imcu, whole[sel[i]]);
    }
  }

  lemma SameComponent(dct: Transform, c: ScanComp, d: ScanComp, n: nat, imcu: nat, whole: array2<Block>)
    requires c.width > 0 && c.height > 0 && c.h > 0 && HoldsUpTo(dct, c, n, whole) && imcu < n
    requires (c.index, c.h, c.v, c.width, c.height) == (d.index, d.h, d.v, d.width, d.height)
    ensures HoldsUpTo(dct, d, imcu + 1, whole)
  {
    hide Prod, Padded;
    ProdMonotonic(imcu + 1, n, c.v);
    forall r | 0 <= r < Prod(imcu + 1, c.v)
      ensures RowHolds(dct, d, whole, r, whole.Length1)
    {
      assert RowHolds(dct, c, whole, r, whole.Length1);
      forall col: nat
        ensures Padded(dct, c, r, col) == Padded(dct, d, r, col)
      {
        SamePadding(dct, c, d, r, col);
      }
    }
  }

  lemma SamePadding(dct: Transform, c: ScanComp, d: ScanComp, row: nat, col: nat)
    requires c.width > 0 && c.height > 0 && c.h > 0
    requires (c.index, c.h, c.width, c.height) == (d.index, d.h, d.width, d.height)
    ensures Padded(dct, c, row, col) == Padded(dct, d, row, col)
  {
  }

  /** Every column an MCU reaches lies in the padded array. */
  lemma ColumnIsPadded(s: Scan, ci: nat, col: nat, x: nat)
    requires ScanFits(s) && ci < |s.comps| && col < s.perRow && x < s.comps[ci].mcuWidth
    ensures Prod(col, s.comps[ci].mcuWidth) >= 0
    ensures Prod(col, s.comps[ci].mcuWidth) + x < PaddedWidth(s.comps[ci])
  {
    hide Prod;
    var c := s.comps[ci];
    assert CompFits(c, s.perRow, s.imcuRows, |s.comps| == 1);
    ProdNatural(col, c.mcuWidth);
    DummyColumns(c);
    if |s.comps| == 1 {
      ProdMonotonic(0, 1, col);
    } else {
      var n := s.perRow;
      ProdSum(n, -1, c.h);
      ProdIsTimes(-1, c.h);
      DivUpIs(c.width, c.h, n);
      ProdMonotonic(col, n, c.h);
    }
  }

  /** The blocks of an MCU, taken from the padded arrays. */
  method GatherMcu(dct: Transform, s: Scan, imcu: nat, y: nat, col: nat, whole: seq<array2<Block>>) returns (mcu: Mcu)
    requires InScan(s, imcu, y, col) && Loaded(dct, s, imcu, whole)
    ensures mcu == McuAt(dct, s, imcu, y, col)
  {
    hide InScan, Loaded, ScanFits;
    ScanOf(s, imcu, y, col);
    mcu := [];
    var ci := 0;
    while ci < |s.comps|
      invariant 0 <= ci <= |s.comps| && mcu == McuBlocks(dct, s, imcu, y, col, ci)
    {
      SomeFacts(s, ci, imcu, y, col);
      var blocks := GatherComponent(dct, s, ci, imcu, y, col, whole);
      mcu := mcu + blocks;
      ci := ci + 1;
    }
  }

  method GatherComponent(dct: Transform, s: Scan, ci: nat, imcu: nat, y: nat, col: nat, whole: seq<array2<Block>>)
    returns (blocks: seq<Block>)
    requires InScan(s, imcu, y, col) && Loaded(dct, s, imcu, whole) && ci < |s.comps|
    ensures var c := s.comps[ci];
            && c.width > 0 && c.height > 0 && c.h > 0 && Prod(imcu, c.v) >= 0 && Prod(col, c.mcuWidth) >= 0
            && blocks == CompBlocks(dct, c, Prod(imcu, c.v) + y, Prod(col, c.mcuWidth), c.mcuHeight)
  {
    hide Prod, Padded;
    SomeFacts(s, ci, imcu, y, col);
    var c := s.comps[ci];
    var blockRows := whole[c.index];
    assert CompFits(c, s.perRow, s.imcuRows, |s.comps| == 1) && CompLoaded(dct, s, ci, imcu, blockRows);
    ProdSum(imcu, 1, c.v);
    ProdIsTimes(1, c.v);
    ProdIsTimes(imcu, c.v);
    ProdIsTimes(col, c.mcuWidth);
    var row, startCol := imcu * c.v + y, col * c.mcuWidth;
    blocks := [];
    var yindex := 0;
    while yindex < c.mcuHeight
      invariant 0 <= yindex <= c.mcuHeight && blocks == CompBlocks(dct, c, row, startCol, yindex)
    {
      assert RowHolds(dct, c, blockRows, row + yindex, blockRows.Length1);
      ghost var above := blocks;
      var xindex := 0;
      while xindex < c.mcuWidth
        invariant 0 <= xindex <= c.mcuWidth && blocks == above + Row(dct, c, row + yindex, startCol, xindex)
      {
        ColumnIsPadded(s, ci, col, xindex);
        Together(above, Row(dct, c, row + yindex, startCol, xindex), [blockRows[row + yindex, startCol + xindex]]);
        blocks := blocks + [blockRows[row + yindex, startCol + xindex]];
        xindex := xindex + 1;
      }
      yindex := yindex + 1;
    }
  }

  // ---------- the controller ----------

  class Controller {
    const dct: Transform
    const image: Image
    const selected: seq<nat>              // the components of the scan
    const scan: Scan
    const sink: Sink
    const buffer: array<Block>            // MCU_buffer
    const whole: seq<array2<Block>>       // whole_image, in the full-buffer modes
    var iMcuRowNum: nat                   // iMCU row within the image
    var mcuCtr: nat                       // MCUs done in the current row
    var mcuVertOffset: nat                // MCU rows done in the iMCU row
    var mcuRowsPerImcuRow: nat

    /** Everything before the counters' place has been sent, and nothing else. */
    ghost predicate Valid()
      reads this, sink
    {
      && IsSelection(image, selected) && scan == PerScanSetup(image, selected)
      && ScanFits(scan) && BlockCount(scan, |scan.comps|) <= buffer.Length
      && iMcuRowNum <= scan.imcuRows && mcuRowsPerImcuRow == RowsIn(scan, iMcuRowNum)
      && mcuVertOffset < mcuRowsPerImcuRow && mcuCtr < scan.perRow
      && sink.mcus == SentBefore(dct, scan, iMcuRowNum, mcuVertOffset, mcuCtr)
    }

    /** start_pass_coef, after per_scan_setup has laid out the scan. */
    constructor (dct: Transform, image: Image, selected: seq<nat>, sink: Sink, whole: seq<array2<Block>>)
      requires IsSelection(image, selected) && sink.mcus == []
      requires var s := PerScanSetup(image, selected); BlockCount(s, |s.comps|) <= C_MAX_BLOCKS_IN_MCU
      ensures Valid() && this.dct == dct && this.image == image && this.selected == selected
      ensures this.sink == sink && this.whole == whole && fresh(buffer) && iMcuRowNum == 0
    {
      var s := PerScanSetup(image, selected);
      SetupFits(image, selected);
      this.dct, this.image, this.selected, this.scan, this.sink, this.whole := dct, image, selected, s, sink, whole;
      buffer := new Block[C_MAX_BLOCKS_IN_MCU](_ => DcOnly(0));
      iMcuRowNum, mcuCtr, mcuVertOffset := 0, 0, 0;
      mcuRowsPerImcuRow := RowsIn(s, 0);
      new;
      assert CompFits(scan.comps[0], scan.perRow, scan.imcuRows, |scan.comps| == 1);
    }

    /** start_iMCU_row */
    method StartImcuRow()
      requires ScanFits(scan)
      modifies `mcuRowsPerImcuRow, `mcuCtr, `mcuVertOffset
      ensures mcuRowsPerImcuRow == RowsIn(scan, iMcuRowNum) > 0 && mcuCtr == 0 && mcuVertOffset == 0
    {
      assert CompFits(scan.comps[0], scan.perRow, scan.imcuRows, |scan.comps| == 1);
      if |scan.comps| > 1 {
        mcuRowsPerImcuRow := 1;
      } else if iMcuRowNum < scan.imcuRows - 1 {
        mcuRowsPerImcuRow := scan.comps[0].v;
      } else {
        mcuRowsPerImcuRow := scan.comps[0].lastRowHeight;
      }
      mcuCtr, mcuVertOffset := 0, 0;
    }

    /** compress_data: one iMCU row, or what is left of it; false if the entropy encoder refused
        an MCU, which is then the next to be made and sent. */
    method CompressData() returns (ok: bool)
      requires Valid() && iMcuRowNum < scan.imcuRows
      modifies this, sink, buffer
      ensures Valid() && |sink.answers| <= old(|sink.answers|)
      ensures ok ==> iMcuRowNum == old(iMcuRowNum) + 1 && mcuCtr == mcuVertOffset == 0
      ensures !ok ==> iMcuRowNum == old(iMcuRowNum) && |sink.answers| < old(|sink.answers|)
    {
      hide SentBefore, ScanFits, McuAt, BlockCount;
      var yoffset := mcuVertOffset;
      while yoffset < mcuRowsPerImcuRow
        invariant Counting(old(iMcuRowNum)) && yoffset <= mcuRowsPerImcuRow && |sink.answers| <= old(|sink.answers|)
        invariant sink.mcus == SentBefore(dct, scan, iMcuRowNum, yoffset, mcuCtr)
        invariant yoffset == mcuRowsPerImcuRow ==> mcuCtr == 0
      {
        var mcuColNum := mcuCtr;
        while mcuColNum < scan.perRow
          invariant Counting(old(iMcuRowNum)) && mcuColNum <= scan.perRow && |sink.answers| <= old(|sink.answers|)
          invariant sink.mcus == SentBefore(dct, scan, iMcuRowNum, yoffset, mcuColNum)
        {
          var n := MakeMcu(dct, scan, iMcuRowNum, yoffset, mcuColNum, buffer);
          SentNext(dct, scan, iMcuRowNum, yoffset, mcuColNum);
          ok := sink.EncodeMcu(buffer[..n]);
          if !ok {
            mcuVertOffset, mcuCtr := yoffset, mcuColNum;
            return;
          }
          mcuColNum := mcuColNum + 1;
        }
        SentNext(dct, scan, iMcuRowNum, yoffset, 0);
        mcuCtr := 0;
        yoffset := yoffset + 1;
      }
      SentNext(dct, scan, iMcuRowNum, 0, 0);
      iMcuRowNum := iMcuRowNum + 1;
      StartImcuRow();
      ok := true;
    }

    /** What the loops over an iMCU row leave alone. */
    ghost predicate Counting(imcu: nat)
      reads this
    {
      && ScanFits(scan) && BlockCount(scan, |scan.comps|) <= buffer.Length
      && iMcuRowNum == imcu < scan.imcuRows && mcuRowsPerImcuRow == RowsIn(scan, imcu)
      && mcuCtr < scan.perRow
    }

    /** compress_output: the same from the padded arrays. */
    method CompressOutput() returns (ok: bool)
      requires Valid() && iMcuRowNum < scan.imcuRows && Loaded(dct, scan, iMcuRowNum, whole)
      modifies this, sink
      ensures Valid() && |sink.answers| <= old(|sink.answers|)
      ensures ok ==> iMcuRowNum == old(iMcuRowNum) + 1 && mcuCtr == mcuVertOffset == 0
      ensures !ok ==> iMcuRowNum == old(iMcuRowNum) && |sink.answers| < old(|sink.answers|)
    {
      hide SentBefore, ScanFits, McuAt, BlockCount, Loaded;
      var yoffset := mcuVertOffset;
      while yoffset < mcuRowsPerImcuRow
        invariant Counting(old(iMcuRowNum)) && yoffset <= mcuRowsPerImcuRow && |sink.answers| <= old(|sink.answers|)
        invariant sink.mcus == SentBefore(dct, scan, iMcuRowNum, yoffset, mcuCtr)
        invariant Loaded(dct, scan, iMcuRowNum, whole)
        invariant yoffset == mcuRowsPerImcuRow ==> mcuCtr == 0
      {
        var mcuColNum := mcuCtr;
        while mcuColNum < scan.perRow
          invariant Counting(old(iMcuRowNum)) && mcuColNum <= scan.perRow && |sink.answers| <= old(|sink.answers|)
          invariant sink.mcus == SentBefore(dct, scan, iMcuRowNum, yoffset, mcuColNum)
          invariant Loaded(dct, scan, iMcuRowNum, whole)
        {
          var mcu := GatherMcu(dct, scan, iMcuRowNum, yoffset, mcuColNum, whole);
          SentNext(dct, scan, iMcuRowNum, yoffset, mcuColNum);
          ok := sink.EncodeMcu(mcu);
          if !ok {
            mcuVertOffset, mcuCtr := yoffset, mcuColNum;
            return;
          }
          mcuColNum := mcuColNum + 1;
        }
        SentNext(dct, scan, iMcuRowNum, yoffset, 0);
        mcuCtr := 0;
        yoffset := yoffset + 1;
      }
      SentNext(dct, scan, iMcuRowNum, 0, 0);
      iMcuRowNum := iMcuRowNum + 1;
      StartImcuRow();
      ok := true;
    }

    /** compress_first_pass: transforms and pads an iMCU row of all components of the image, and
        sends those of the scan from there. After a suspension all of that is done again. */
    method CompressFirstPass() returns (ok: bool)
      requires Valid() && HasArrays(image, whole) && iMcuRowNum < scan.imcuRows
      requires HoldImage(dct, image, iMcuRowNum, whole)
      modifies this, sink, whole
      ensures Valid() && |sink.answers| <= old(|sink.answers|)
      ensures ok ==> iMcuRowNum == old(iMcuRowNum) + 1 && mcuCtr == mcuVertOffset == 0
      ensures !ok ==> iMcuRowNum == old(iMcuRowNum) && |sink.answers| < old(|sink.answers|)
      ensures HoldImage(dct, image, iMcuRowNum, whole)
    {
      hide SentBefore, HoldsUpTo, BlockCount, ScanFits;
      var ci := 0;
      while ci < |whole|
        invariant 0 <= ci <= |whole| && Valid() && iMcuRowNum == old(iMcuRowNum) && sink.answers == old(sink.answers)
        invariant forall j :: 0 <= j < ci ==> HoldsComponent(dct, image, j, iMcuRowNum + 1, whole[j])
        invariant forall j :: ci <= j < |whole| ==> HoldsComponent(dct, image, j, iMcuRowNum, whole[j])
      {
        assert ArrayFits(image, ci, whole[ci]);
        ComponentFits(image, ci);
        LoadRows(dct, Interleaved(image, ci), iMcuRowNum, scan.imcuRows, whole[ci]);
        ci := ci + 1;
      }
      AnyScanIsLoaded(dct, image, selected, iMcuRowNum + 1, iMcuRowNum, whole);
      ok := CompressOutput();
      if !ok {
        ShorterHolds(dct, image, iMcuRowNum, iMcuRowNum + 1, whole);
      }
    }
  }

  lemma ShorterHolds(dct: Transform, im: Image, m: nat, n: nat, whole: seq<array2<Block>>)
    requires im.Valid() && m <= n && HoldImage(dct, im, n, whole)
    ensures HoldImage(dct, im, m, whole)
  {
    hide Prod, RowHolds;
    forall ci | 0 <= ci < |whole|
      ensures HoldsComponent(dct, im, ci, m, whole[ci])
    {
      assert HoldsComponent(dct, im, ci, n, whole[ci]);
      ProdMonotonic(m, n, Interleaved(im, ci).v);
    }
  }

  /** One component's share of compress_first_pass; the rows above stay as they were. */
  method LoadRows(dct: Transform, c: ScanComp, imcu: nat, imcuRows: nat, whole: array2<Block>)
    requires IsComp(c, imcuRows) && imcu < imcuRows
    requires Prod(imcuRows, c.v) <= whole.Length0 && whole.Length1 == PaddedWidth(c)
    requires HoldsUpTo(dct, c, imcu, whole)
    modifies whole
    ensures HoldsUpTo(dct, c, imcu + 1, whole)
  {
    hide Prod, Padded;
    ProdSum(imcu, 1, c.v);
    ProdIsTimes(1, c.v);
    LoadComponent(dct, c, imcu, imcuRows, whole);
    forall r | 0 <= r < Prod(imcu, c.v)
      ensures RowHolds(dct, c, whole, r, whole.Length1)
    {
      assert old(RowHolds(dct, c, whole, r, whole.Length1));
    }
  }

  // ---------- whole passes ----------

  /** The MCUs of a scan of the image: those of the padded image, in raster order. */
  function ScanMcus(dct: Transform, im: Image, sel: seq<nat>): seq<Mcu>
    requires IsSelection(im, sel)
  {
    SetupFits(im, sel);
    ImcuRowsUpTo(dct, PerScanSetup(im, sel), ImcuRows(im))
  }

  /** A scan through the single-pass path, however often it is suspended. */
  method RunSinglePass(ctl: Controller)
    requires ctl.Valid() && ctl.iMcuRowNum == 0
    modifies ctl, ctl.sink, ctl.buffer
    ensures ctl.sink.mcus == ScanMcus(ctl.dct, ctl.image, ctl.selected)
  {
    while ctl.iMcuRowNum < ctl.scan.imcuRows
      invariant ctl.Valid() && (ctl.iMcuRowNum == ctl.scan.imcuRows ==> ctl.mcuCtr == ctl.mcuVertOffset == 0)
      decreases ctl.scan.imcuRows - ctl.iMcuRowNum, |ctl.sink.answers|
    {
      var ok := ctl.CompressData();
    }
  }

  /** The first scan through the full-buffer path: the same MCUs in the same order, and the arrays
      hold all of the padded image in the end, components outside the scan included. */
  method RunFullBuffer(ctl: Controller)
    requires ctl.Valid() && HasArrays(ctl.image, ctl.whole) && ctl.iMcuRowNum == 0
    modifies ctl, ctl.sink, ctl.whole
    ensures ctl.sink.mcus == ScanMcus(ctl.dct, ctl.image, ctl.selected)
    ensures HoldImage(ctl.dct, ctl.image, ImcuRows(ctl.image), ctl.whole)
  {
    NothingHeld(ctl.dct, ctl.image, ctl.whole);
    while ctl.iMcuRowNum < ctl.scan.imcuRows
      invariant ctl.Valid() && (ctl.iMcuRowNum == ctl.scan.imcuRows ==> ctl.mcuCtr == ctl.mcuVertOffset == 0)
      invariant HoldImage(ctl.dct, ctl.image, ctl.iMcuRowNum, ctl.whole)
      decreases ctl.scan.imcuRows - ctl.iMcuRowNum, |ctl.sink.answers|
    {
      var ok := ctl.CompressFirstPass();
    }
  }

  lemma NothingHeld(dct: Transform, im: Image, whole: seq<array2<Block>>)
    requires HasArrays(im, whole)
    ensures HoldImage(dct, im, 0, whole)
  {
    forall ci | 0 <= ci < |whole|
      ensures HoldsComponent(dct, im, ci, 0, whole[ci])
    {
      assert ArrayFits(im, ci, whole[ci]);
      ProdIsTimes(0, Interleaved(im, ci).v);
    }
  }

  /** A later scan, from the arrays alone. */
  method RunFromArrays(ctl: Controller)
    requires ctl.Valid() && HoldImage(ctl.dct, ctl.image, ImcuRows(ctl.image), ctl.whole) && ctl.iMcuRowNum == 0
    modifies ctl, ctl.sink
    ensures ctl.sink.mcus == ScanMcus(ctl.dct, ctl.image, ctl.selected)
  {
    while ctl.iMcuRowNum < ctl.scan.imcuRows
      invariant ctl.Valid() && (ctl.iMcuRowNum == ctl.scan.imcuRows ==> ctl.mcuCtr == ctl.mcuVertOffset == 0)
      decreases ctl.scan.imcuRows - ctl.iMcuRowNum, |ctl.sink.answers|
    {
      AnyScanIsLoaded(ctl.dct, ctl.image, ctl.selected, ImcuRows(ctl.image), ctl.iMcuRowNum, ctl.whole);
      var ok := ctl.CompressOutput();
    }
  }

  /** A pass can be run: its scan has components of the image and a legal MCU size. */
  ghost predicate IsPass(im: Image, sel: seq<nat>) {
    IsSelection(im, sel) && var s := PerScanSetup(im, sel); BlockCount(s, |s.comps|) <= C_MAX_BLOCKS_IN_MCU
  }

  /** A pass after the first, with an entropy encoder of its own. */
  method RunLaterPass(dct: Transform, im: Image, sel: seq<nat>, answers: seq<bool>, whole: seq<array2<Block>>)
    returns (sent: seq<Mcu>)
    requires IsPass(im, sel) && HoldImage(dct, im, ImcuRows(im), whole)
    ensures sent == ScanMcus(dct, im, sel)
  {
    hide HoldImage, ScanMcus, PerScanSetup, BlockCount;
    var sink := new Sink(answers);
    var ctl := new Controller(dct, im, sel, sink, whole);
    RunFromArrays(ctl);
    sent := sink.mcus;
  }

  /** All passes over an image, statistics and output passes of any scans: the first fills the
      arrays and the others send from them. Every pass sends just what the single-pass path
      would, however the entropy encoder suspends. */
  method RunPasses(dct: Transform, im: Image, passes: seq<seq<nat>>, answers: seq<seq<bool>>, whole: seq<array2<Block>>)
    returns (sent: seq<seq<Mcu>>)
    requires HasArrays(im, whole) && passes != [] && |answers| == |passes|
    requires forall k :: 0 <= k < |passes| ==> IsPass(im, passes[k])
    modifies whole
    ensures |sent| == |passes|
    ensures forall k :: 0 <= k < |passes| ==> IsSelection(im, passes[k]) && sent[k] == ScanMcus(dct, im, passes[k])
  {
    hide HoldImage, HasArrays, ScanMcus, PerScanSetup, BlockCount;
    assert IsPass(im, passes[0]);
    var sink := new Sink(answers[0]);
    var ctl := new Controller(dct, im, passes[0], sink, whole);
    RunFullBuffer(ctl);
    sent := [sink.mcus];
    while |sent| < |passes|
      invariant 1 <= |sent| <= |passes| && HoldImage(dct, im, ImcuRows(im), whole)
      invariant forall k :: 0 <= k < |sent| ==> IsSelection(im, passes[k]) && sent[k] == ScanMcus(dct, im, passes[k])
    {
      var k := |sent|;
      assert IsPass(im, passes[k]);
      var mcus := RunLaterPass(dct, im, passes[k], answers[k], whole);
      sent := sent + [mcus];
    }
  }
}
