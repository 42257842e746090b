/**
 * Reading a Huffman-coded scan back (section F.2.2; decode_mcu_slow, jpeg_fill_bit_buffer and
 * process_restart in jdhuff.c): byte unstuffing, decoding by MCU, and restart markers.
 */
module HuffScanDecoder {
  import opened CodeBytes
  import opened Bits
  import opened HuffTable
  import opened BlockSymbols
  import opened BlockCoder
  import opened RestartIntervals
  import opened Mcus
  import opened HuffScan
  import opened ZigZag

  /** The decoder's tables by number. */
  datatype Decoding = Decoding(dc: seq<Table>, ac: seq<Table>)

  /** They are those that the encoder's were derived from, for the tables in use. */
  ghost predicate Agrees(cfg: Config, ts: Decoding) {
    && cfg.Valid() && |ts.dc| == |ts.ac| == NUM_HUFF_TBLS
    && forall ci :: 0 <= ci < |cfg.layout.comps| ==>
         && Matches(ts.dc[cfg.layout.comps[ci].dcTbl], cfg.TablesOf(ci).dc)
         && Matches(ts.ac[cfg.layout.comps[ci].acTbl], cfg.TablesOf(ci).ac)
  }

  ghost predicate HasTables(cfg: Config, ts: Decoding) {
    && cfg.layout.Valid() && |ts.dc| == |ts.ac| == NUM_HUFF_TBLS
    && forall i :: 0 <= i < NUM_HUFF_TBLS ==> IsTable(ts.dc[i]) && IsTable(ts.ac[i])
  }

  /** The blocks of an MCU from block b on, and the bits behind. */
  function DecodeMcu(cfg: Config, ts: Decoding, lastDc: seq<int>, stream: seq<bool>, b: nat): Option<(Mcu, seq<bool>)>
    requires HasTables(cfg, ts) && |lastDc| == |cfg.layout.comps| && b <= |cfg.layout.membership|
    decreases |cfg.layout.membership| - b
  {
    if b == |cfg.layout.membership| then Some(([], stream))
    else
      var ci := cfg.layout.membership[b];
      var r := DecodeBlock(ts.dc[cfg.layout.comps[ci].dcTbl], ts.ac[cfg.layout.comps[ci].acTbl], stream);
      if r.None? then None
      else
        var dc := lastDc[ci] + r.value.0;
        var more := DecodeMcu(cfg, ts, lastDc[ci := dc], r.value.2, b + 1);
        if more.None? then None
        else Some(([FromZigZag(r.value.1[0 := dc])] + more.value.0, more.value.1))
  }

  function DecodeMcus(cfg: Config, ts: Decoding, lastDc: seq<int>, stream: seq<bool>, count: nat)
    : Option<(seq<Mcu>, seq<bool>)>
    requires HasTables(cfg, ts) && |lastDc| == |cfg.layout.comps|
    decreases count
  {
    if count == 0 then Some(([], stream))
    else
      var first := DecodeMcu(cfg, ts, lastDc, stream, 0);
      if first.None? || |first.value.0| != |cfg.layout.membership| then None
      else
        var more := DecodeMcus(cfg, ts, AfterMcu(cfg.layout, lastDc, first.value.0, 0), first.value.1, count - 1);
        if more.None? then None else Some(([first.value.0] + more.value.0, more.value.1))
  }

  /** Data bytes up to the next marker, unstuffed, and what begins with the marker. */
  function ReadSegment(data: seq<nat>): (seq<nat>, seq<nat>) {
    if data == [] then ([], [])
    else if data[0] != 0xFF then
      var (bytes, tail) := ReadSegment(data[1..]);
      ([data[0]] + bytes, tail)
    else if |data| > 1 && data[1] == 0 then
      var (bytes, tail) := ReadSegment(data[2..]);
      ([0xFF] + bytes, tail)
    else ([], data)
  }

  /** A scan of count MCUs whose next restart marker has number n. */
  function ReadScan(cfg: Config, ts: Decoding, data: seq<nat>, count: nat, n: nat): Option<seq<Mcu>>
    requires HasTables(cfg, ts) && n < 8
    decreases count
  {
    var k := GroupSize(cfg.layout.interval, count);
    var (bytes, tail) := ReadSegment(data);
    var group := DecodeMcus(cfg, ts, FreshDc(cfg.layout), BitsOf(bytes), k);
    if group.None? then None
    else if k == count then Some(group.value.0)
    else if |tail| < 2 || tail[..2] != [0xFF, 0xD0 + n] then None
    else
      var more := ReadScan(cfg, ts, tail[2..], count - k, (n + 1) % 8);
      if more.None? then None else Some(group.value.0 + more.value)
  }

  // ---------- what is needed: a code for every symbol that occurs ----------

  ghost predicate McuCoded(cfg: Config, lastDc: seq<int>, mcu: Mcu, b: nat)
    requires cfg.Valid() && Fits(cfg.layout, lastDc, mcu) && b <= |mcu| && Codable(cfg.layout, lastDc, mcu, b)
    decreases |mcu| - b
  {
    b < |mcu| ==>
      var ci := cfg.layout.membership[b];
      && AllCoded(BlockItems(mcu[b][0] - lastDc[ci], ToZigZag(mcu[b]), cfg.layout.precision + 2), cfg.TablesOf(ci))
      && McuCoded(cfg, lastDc[ci := mcu[b][0]], mcu, b + 1)
  }

  ghost predicate McusCoded(cfg: Config, lastDc: seq<int>, mcus: seq<Mcu>)
    requires cfg.Valid() && AllCodable(cfg.layout, lastDc, mcus)
    decreases |mcus|
  {
    mcus != [] ==>
      && McuCoded(cfg, lastDc, mcus[0], 0)
      && McusCoded(cfg, AfterMcu(cfg.layout, lastDc, mcus[0], 0), mcus[1..])
  }

  ghost predicate ScanCoded(cfg: Config, mcus: seq<Mcu>)
    requires cfg.Valid() && ScanCodable(cfg.layout, mcus)
    decreases |mcus|
  {
    var k := GroupSize(cfg.layout.interval, |mcus|);
    McusCoded(cfg, FreshDc(cfg.layout), mcus[..k]) && (k < |mcus| ==> ScanCoded(cfg, mcus[k..]))
  }

  lemma BlockComesBack(block: Block, dc: int)
    requires dc == block[0]
    ensures FromZigZag(ToZigZag(block)[0 := 0][0 := dc]) == block
  {
    ZigZagIsUndone(block);
    assert ToZigZag(block)[0 := 0][0 := dc] == ToZigZag(block);
  }

  lemma {:induction false} McuIsDecoded(cfg: Config, ts: Decoding, lastDc: seq<int>, mcu: Mcu, b: nat, rest: seq<bool>)
    requires Agrees(cfg, ts) && HasTables(cfg, ts) && Fits(cfg.layout, lastDc, mcu) && b <= |mcu|
    requires Codable(cfg.layout, lastDc, mcu, b) && McuCoded(cfg, lastDc, mcu, b)
    ensures DecodeMcu(cfg, ts, lastDc, McuBits(cfg, lastDc, mcu, b) + rest, b) == Some((mcu[b..], rest))
    decreases |mcu| - b
  {
    hide DecodeBlock, BlockBits, Matches, IsTable, AllCoded, BlockItems, InRange, IsTables, ToZigZag, FromZigZag;
    if b == |mcu| {
      assert [] + rest == rest;
    } else {
      var ci := cfg.layout.membership[b];
      var diff, dc := mcu[b][0] - lastDc[ci], lastDc[ci := mcu[b][0]];
      BlockIsDecoded(cfg, ts, ci, diff, mcu[b], McuBits(cfg, dc, mcu, b + 1) + rest);
      Regroup(BlockBits(diff, mcu[b], cfg.layout.precision, cfg.TablesOf(ci)), McuBits(cfg, dc, mcu, b + 1), rest);
      McuIsDecoded(cfg, ts, dc, mcu, b + 1, rest);
      assert [mcu[b]] + mcu[b + 1..] == mcu[b..];
      BlockComesBack(mcu[b], lastDc[ci] + diff);
    }
  }

  lemma BlockIsDecoded(cfg: Config, ts: Decoding, ci: nat, diff: int, block: Block, rest: seq<bool>)
    requires Agrees(cfg, ts) && ci < |cfg.layout.comps|
    requires InRange(diff, ToZigZag(block), cfg.layout.precision + 2)
    requires AllCoded(BlockItems(diff, ToZigZag(block), cfg.layout.precision + 2), cfg.TablesOf(ci))
    ensures var comp := cfg.layout.comps[ci];
            IsTable(ts.dc[comp.dcTbl]) && IsTable(ts.ac[comp.acTbl]) &&
            DecodeBlock(ts.dc[comp.dcTbl], ts.ac[comp.acTbl],
                        BlockBits(diff, block, cfg.layout.precision, cfg.TablesOf(ci)) + rest)
            == Some((diff, ToZigZag(block)[0 := 0], rest))
  {
    hide DecodeBlock, BlockItems, ItemsBits, AllCoded, InRange;
    var comp := cfg.layout.comps[ci];
    BlockRoundTrip(ts.dc[comp.dcTbl], ts.ac[comp.acTbl], cfg.TablesOf(ci), diff, ToZigZag(block),
                   cfg.layout.precision + 2, rest);
  }

  /** One restart interval, whatever bits follow it. */
  lemma {:induction false} McusAreDecoded(cfg: Config, ts: Decoding, lastDc: seq<int>, mcus: seq<Mcu>, rest: seq<bool>)
    requires Agrees(cfg, ts) && HasTables(cfg, ts) && |lastDc| == |cfg.layout.comps|
    requires AllCodable(cfg.layout, lastDc, mcus) && McusCoded(cfg, lastDc, mcus)
    ensures DecodeMcus(cfg, ts, lastDc, McusBits(cfg, lastDc, mcus) + rest, |mcus|) == Some((mcus, rest))
    decreases |mcus|
  {
    hide DecodeMcu, McuBits, Matches, IsTable, Codable, McuCoded;
    if mcus == [] {
      assert [] + rest == rest;
    } else {
      var mcu, dc := mcus[0], AfterMcu(cfg.layout, lastDc, mcus[0], 0);
      var more := McusBits(cfg, dc, mcus[1..]);
      Regroup(McuBits(cfg, lastDc, mcu, 0), more, rest);
      McuIsDecoded(cfg, ts, lastDc, mcu, 0, more + rest);
      assert mcu[0..] == mcu;
      McusAreDecoded(cfg, ts, dc, mcus[1..], rest);
      assert [mcu] + mcus[1..] == mcus;
    }
  }

  // ---------- segments ----------

  /** A marker, or the end of the data. */
  ghost predicate AtMarker(tail: seq<nat>) {
    tail == [] || (tail[0] == 0xFF && (|tail| == 1 || tail[1] != 0))
  }

  lemma {:induction false} SegmentIsRead(raw: seq<nat>, tail: seq<nat>)
    requires AtMarker(tail)
    ensures ReadSegment(Stuff(raw) + tail) == (raw, tail)
    decreases |raw|
  {
    if raw == [] {
      assert Stuff(raw) + tail == tail;
    } else {
      assert raw == [raw[0]] + raw[1..];
      StuffAppend([raw[0]], raw[1..]);
      StuffSnoc([], raw[0]);
      assert [] + [raw[0]] == [raw[0]];
      SegmentIsRead(raw[1..], tail);
      hide Stuff;
      var data, more := Stuff(raw) + tail, Stuff(raw[1..]) + tail;
      if raw[0] == 0xFF {
        assert data == [0xFF, 0x00] + more;
        assert data[2..] == more;
      } else {
        assert data == [raw[0]] + more;
        assert data[1..] == more;
      }
    }
  }

  lemma IntervalIsRead(cfg: Config, ts: Decoding, mcus: seq<Mcu>, tail: seq<nat>)
    requires Agrees(cfg, ts) && HasTables(cfg, ts) && AtMarker(tail)
    requires AllCodable(cfg.layout, FreshDc(cfg.layout), mcus) && McusCoded(cfg, FreshDc(cfg.layout), mcus)
    ensures var (bytes, rest) := ReadSegment(IntervalBytes(cfg, mcus) + tail);
            && rest == tail
            && var r := DecodeMcus(cfg, ts, FreshDc(cfg.layout), BitsOf(bytes), |mcus|);
               r.Some? && r.value.0 == mcus
  {
    hide BitsOf, BytesFrom, Padded, DecodeMcus, McusBits, Stuff, ReadSegment, Matches, AllCodable, McusCoded;
    var bits := McusBits(cfg, FreshDc(cfg.layout), mcus);
    PadBehind(bits);
    var bytes := BytesFrom(Padded(bits));
    SegmentIsRead(bytes, tail);
    BitsOfBytesFrom(Padded(bits));
    McusAreDecoded(cfg, ts, FreshDc(cfg.layout), mcus, Padded(bits)[|bits|..]);
  }

  lemma PadBehind(bits: seq<bool>)
    ensures |bits| <= |Padded(bits)| && bits + Padded(bits)[|bits|..] == Padded(bits)
  {
  }

  /**
   * Decoding a scan gives back its MCUs, through byte stuffing, padding and restart markers, as
   * long as every symbol that occurs has a code.
   */
  lemma {:induction false} ScanRoundTrip(cfg: Config, ts: Decoding, mcus: seq<Mcu>, n: nat, tail: seq<nat>)
    requires Agrees(cfg, ts) && HasTables(cfg, ts) && n < 8 && AtMarker(tail)
    requires ScanCodable(cfg.layout, mcus) && ScanCoded(cfg, mcus)
    ensures ReadScan(cfg, ts, ScanBytes(cfg, mcus, n) + tail, |mcus|, n) == Some(mcus)
    decreases |mcus|
  {
    hide IntervalBytes, ReadSegment, DecodeMcus, AllCodable, McusCoded, BitsOf, Matches;
    var k := GroupSize(cfg.layout.interval, |mcus|);
    if k == |mcus| {
      assert mcus[..k] == mcus;
      IntervalIsRead(cfg, ts, mcus[..k], tail);
    } else {
      var more := ScanBytes(cfg, mcus[k..], (n + 1) % 8) + tail;
      var marked := [0xFF, 0xD0 + n] + more;
      IntervalIsRead(cfg, ts, mcus[..k], marked);
      ScanRoundTrip(cfg, ts, mcus[k..], (n + 1) % 8, tail);
      assert ScanBytes(cfg, mcus, n) + tail == IntervalBytes(cfg, mcus[..k]) + marked;
      assert marked[..2] == [0xFF, 0xD0 + n] && marked[2..] == more;
      assert mcus[..k] + mcus[k..] == mcus;
    }
  }
}
