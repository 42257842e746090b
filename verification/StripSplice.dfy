/**
 * Strip-parallel compression (jcparallel.c): an image is cut into strips of whole MCU rows that
 * are encoded on their own, and their scan data is spliced with restart markers and renumbered.
 * The result is the scan that one encoder would have written for the whole image.
 */
module StripSplice {
  import Powers
  import opened Products
  import Bits
  import opened CodeBytes
  import BlockCoder
  import opened BlockSymbols
  import opened HuffTable
  import opened RestartIntervals
  import opened Mcus
  import opened HuffScan
  import opened HuffScanDecoder
  import ZigZag

  // ---------- cutting the image into strips ----------

  datatype Strip = Strip(startRow: nat, numRows: nat)

  /** The strips follow each other and make up all rows; all but the last are whole MCU rows. */
  ghost predicate Partitions(strips: seq<Strip>, height: nat, mcuRowHeight: nat) {
    && strips != [] && mcuRowHeight > 0
    && strips[0].startRow == 0
    && (forall i :: 0 <= i < |strips| - 1 ==> strips[i + 1].startRow == strips[i].startRow + strips[i].numRows)
    && strips[|strips| - 1].startRow + strips[|strips| - 1].numRows == height
    && (forall i :: 0 <= i < |strips| - 1 ==> strips[i].numRows > 0 && strips[i].numRows % mcuRowHeight == 0)
    && (height > 0 ==> strips[|strips| - 1].numRows > 0)
  }

  /** jpar_compute_strip_bounds */
  method ComputeStripBounds(height: nat, maxV0: int, numThreads0: int) returns (strips: seq<Strip>, mcuRowHeight: nat)
    ensures mcuRowHeight == 8 * (if maxV0 < 1 then 1 else maxV0)
    ensures Partitions(strips, height, mcuRowHeight)
    ensures |strips| <= (if numThreads0 < 1 then 1 else numThreads0)
  {
    var numThreads: nat := if numThreads0 < 1 then 1 else numThreads0;
    var maxV: nat := if maxV0 < 1 then 1 else maxV0;
    mcuRowHeight := 8 * maxV;
    var total := (height + mcuRowHeight - 1) / mcuRowHeight;
    var n := if total == 0 then 1 else if numThreads > total then total else numThreads;
    var perStrip := if total / n < 1 then 1 else total / n;
    EnoughRows(height, mcuRowHeight, n, perStrip);
    WholeMcuRows(perStrip, mcuRowHeight);
    strips := CutRows(height, n, perStrip * mcuRowHeight);
  }

  /** The loop over the strips; the last one takes what is left. */
  method CutRows(height: nat, n: nat, each: nat) returns (strips: seq<Strip>)
    requires n > 0 && each > 0 && (height > 0 ==> (n - 1) * each < height) && (height == 0 ==> n == 1)
    ensures |strips| == n && strips[0].startRow == 0
    ensures forall j :: 0 <= j < n - 1 ==> strips[j + 1].startRow == strips[j].startRow + strips[j].numRows
    ensures forall j :: 0 <= j < n - 1 ==> strips[j].numRows == each
    ensures strips[n - 1].startRow + strips[n - 1].numRows == height && (height > 0 ==> strips[n - 1].numRows > 0)
  {
    strips := [];
    var rowsDone := 0;
    var i := 0;
    while i < n
      invariant 0 <= i <= n && |strips| == i
      invariant i < n ==> rowsDone == i * each
      invariant i == n ==> rowsDone == height
      invariant i > 0 ==> strips[0].startRow == 0 && strips[i - 1].startRow + strips[i - 1].numRows == rowsDone
      invariant forall j :: 0 <= j < i - 1 ==> strips[j + 1].startRow == strips[j].startRow + strips[j].numRows
      invariant forall j :: 0 <= j < i && j < n - 1 ==> strips[j].numRows == each
      invariant i == n && height > 0 ==> strips[n - 1].numRows > 0
    {
      Whole(i, n, each, height);
      var endRow := if i == n - 1 then height else rowsDone + each;
      if endRow > height {
        endRow := height;
      }
      strips := strips + [Strip(rowsDone, endRow - rowsDone)];
      rowsDone := endRow;
      i := i + 1;
    }
  }

  /** All strips but the last fit into the image, with something left for the last. */
  lemma EnoughRows(height: nat, m: nat, n: nat, perStrip: nat)
    requires m > 0 && n > 0
    requires var total := (height + m - 1) / m;
             (total == 0 ==> n == 1) && (total > 0 ==> n <= total) && perStrip == if total / n < 1 then 1 else total / n
    ensures perStrip > 0 && perStrip * m > 0
    ensures height > 0 ==> (n - 1) * (perStrip * m) < height
    ensures height == 0 ==> n == 1
  {
    hide Prod;
    var total := (height + m - 1) / m;
    DivisionIs(height + m - 1, m);
    ProdIsTimes(perStrip, m);
    ProdMonotonic(0, perStrip, m);
    ProdIsTimes(0, m);
    if height == 0 {
      BetweenMultiples(m - 1, m, 0);
    } else {
      BetweenMultiples(height + m - 1, m, 0);
      DivisionIs(total, n);
      var q := total / n;
      BetweenMultiples(total, n, 0);
      ProdIsTimes(0, n);
      ProdCommutes(q, n);
      ProdSum(n, -1, q);
      ProdIsTimes(-1, q);
      ProdMonotonic(Prod(n - 1, q), total - 1, m);
      ProdSum(total, -1, m);
      ProdIsTimes(-1, m);
      ProdGroup(n - 1, q, m);
      ProdIsTimes(n - 1, Prod(q, m));
    }
  }

  lemma Whole(i: nat, n: nat, each: nat, height: nat)
    requires i < n && each > 0 && (height > 0 ==> (n - 1) * each < height) && (height == 0 ==> n == 1)
    ensures i * each <= height && (height > 0 ==> i * each < height)
    ensures i < n - 1 ==> (i + 1) * each == i * each + each && (i + 1) * each <= height
  {
    Powers.MulMonotonic(i, n - 1, each);
    Powers.MulDistributes(i, 1, each);
    if i < n - 1 {
      Powers.MulMonotonic(i + 1, n - 1, each);
    }
  }

  lemma WholeMcuRows(perStrip: nat, m: nat)
    requires m > 0
    ensures perStrip * m % m == 0
  {
    Powers.MultipleOf(perStrip * m, perStrip, m);
  }

  // ---------- scan data ----------

  predicate IsRst(b: nat) {
    0xD0 <= b <= 0xD7
  }

  /** Where scan data ends with an EOI marker; stuffed zeros and restart markers belong to it, any
      other marker is an error. */
  function EntropyEnd(s: seq<nat>): Option<nat> {
    if |s| < 2 then None
    else if s[0] != 0xFF then Behind(EntropyEnd(s[1..]), 1)
    else if s[1] == 0 || IsRst(s[1]) then Behind(EntropyEnd(s[2..]), 2)
    else if s[1] == 0xD9 then Some(0)
    else None
  }

  function Behind(r: Option<nat>, n: nat): Option<nat> {
    if r.None? then None else Some(r.value + n)
  }

  /** jpar_find_entropy_end */
  method FindEntropyEnd(buf: seq<nat>, start: nat) returns (r: Option<nat>)
    requires start <= |buf|
    ensures r == Behind(EntropyEnd(buf[start..]), start)
  {
    var pos := start;
    while pos + 1 < |buf|
      invariant start <= pos <= |buf|
      invariant Behind(EntropyEnd(buf[start..]), start) == Behind(EntropyEnd(buf[pos..]), pos)
    {
      assert buf[pos..][1..] == buf[pos + 1..] && buf[pos..][2..] == buf[pos + 2..];
      if buf[pos] == 0xFF {
        var next := buf[pos + 1];
        if next == 0x00 {
          pos := pos + 2;
          continue;
        }
        if next == 0xD9 {
          return Some(pos);
        }
        if 0xD0 <= next <= 0xD7 {
          pos := pos + 2;
          continue;
        }
        return None;
      }
      pos := pos + 1;
    }
    r := None;
  }

  /** Restart markers numbered anew, from k on modulo 8. */
  function Renumbered(s: seq<nat>, k: nat): (r: seq<nat>)
    ensures |r| == |s|
    decreases |s|
  {
    if |s| < 2 then s
    else if s[0] == 0xFF && s[1] == 0 then s[..2] + Renumbered(s[2..], k)
    else if s[0] == 0xFF && IsRst(s[1]) then [0xFF, 0xD0 + k % 8] + Renumbered(s[2..], k + 1)
    else [s[0]] + Renumbered(s[1..], k)
  }

  /** The renumbering loop, in place. */
  method RenumberInPlace(out: array<nat>, start: nat, end: nat)
    requires start <= end <= out.Length
    modifies out
    ensures out[start..end] == Renumbered(old(out[start..end]), 0)
    ensures out[..start] == old(out[..start]) && out[end..] == old(out[end..])
  {
    hide Renumbered;
    ghost var before := out[start..end];
    ghost var done: seq<nat>, rest := [], before;
    NothingRenumbered(before);
    var pos, number := start, 0;
    while pos + 1 < end
      invariant start <= pos <= end && done == out[start..pos] && rest == out[pos..end]
      invariant done + Renumbered(rest, number) == Renumbered(before, 0)
      invariant out[..start] == old(out[..start]) && out[end..] == old(out[end..])
    {
      RenumberStep(done, rest, number);
      assert rest[1..] == out[pos + 1..end] && rest[2..] == out[pos + 2..end];
      if out[pos] == 0xFF {
        var next := out[pos + 1];
        if next == 0x00 {
          pos := pos + 2;
          done, rest := done + rest[..2], rest[2..];
          continue;
        }
        if 0xD0 <= next <= 0xD7 {
          out[pos + 1] := 0xD0 + number % 8;
          done, rest := done + [0xFF, 0xD0 + number % 8], rest[2..];
          number := number + 1;
          pos := pos + 2;
          continue;
        }
      }
      pos := pos + 1;
      done, rest := done + [rest[0]], rest[1..];
    }
    LastByte(rest, number);
    assert out[start..end] == done + rest;
  }

  lemma NothingRenumbered(s: seq<nat>)
    ensures [] + Renumbered(s, 0) == Renumbered(s, 0)
  {
  }

  lemma LastByte(s: seq<nat>, k: nat)
    requires |s| < 2
    ensures Renumbered(s, k) == s
  {
  }

  lemma RenumberStep(done: seq<nat>, s: seq<nat>, k: nat)
    requires |s| >= 2
    ensures s[0] == 0xFF && s[1] == 0 ==> done + Renumbered(s, k) == done + s[..2] + Renumbered(s[2..], k)
    ensures s[0] == 0xFF && IsRst(s[1]) ==>
            done + Renumbered(s, k) == done + [0xFF, 0xD0 + k % 8] + Renumbered(s[2..], k + 1)
    ensures !(s[0] == 0xFF && (s[1] == 0 || IsRst(s[1]))) ==>
            done + Renumbered(s, k) == done + [s[0]] + Renumbered(s[1..], k)
  {
  }

  /** A restart marker at the very end of a strip's data is dropped. */
  function Trimmed(s: seq<nat>): seq<nat> {
    if |s| >= 2 && s[|s| - 2] == 0xFF && IsRst(s[|s| - 1]) then s[..|s| - 2] else s
  }

  /** Strips' data one after the other, with a marker in between that is still to be numbered. */
  function WithMarkers(parts: seq<seq<nat>>): seq<nat> {
    if parts == [] then []
    else if |parts| == 1 then parts[0]
    else WithMarkers(parts[..|parts| - 1]) + [0xFF, 0xD0] + parts[|parts| - 1]
  }

  lemma OneMorePart(parts: seq<seq<nat>>, part: seq<nat>)
    ensures WithMarkers(parts + [part]) == if parts == [] then part else WithMarkers(parts) + [0xFF, 0xD0] + part
  {
    assert (parts + [part])[..|parts|] == parts;
  }

  lemma {:induction false} EndIsInside(s: seq<nat>)
    ensures EntropyEnd(s).Some? ==> EntropyEnd(s).value <= |s|
    decreases |s|
  {
    if |s| >= 2 {
      if s[0] != 0xFF {
        EndIsInside(s[1..]);
      } else if s[1] == 0 || IsRst(s[1]) {
        EndIsInside(s[2..]);
      }
    }
  }

  // ---------- scans in parts ----------

  /** How many restart markers a scan of that many MCUs has. */
  function Markers(interval: nat, count: nat): nat
    decreases count
  {
    var k := GroupSize(interval, count);
    if k == count then 0 else 1 + Markers(interval, count - k)
  }

  /** A scan cut between restart intervals is two scans with a restart marker in between. */
  lemma {:induction false} ScanInTwo(cfg: Config, a: seq<Mcu>, b: seq<Mcu>, n: nat)
    requires cfg.Valid() && cfg.layout.interval > 0 && a != [] && b != [] && |a| % cfg.layout.interval == 0 && n < 8
    requires ScanCodable(cfg.layout, a) && ScanCodable(cfg.layout, b)
    ensures ScanCodable(cfg.layout, a + b)
    ensures var m := n + Markers(cfg.layout.interval, |a|);
            ScanBytes(cfg, a + b, n) == ScanBytes(cfg, a, n) + [0xFF, 0xD0 + m % 8] + ScanBytes(cfg, b, (m + 1) % 8)
    decreases |a|
  {
    hide AllCodable, IntervalBytes, ScanCodable, ScanBytes, OpenMcus, ClosedBytes, Markers, NextNum;
    var k, all := cfg.layout.interval, a + b;
    WholeIntervals(|a|, k);
    if |a| == k {
      OnlyInterval(cfg, a, n);
      NoMarker(k);
      assert all[..k] == a && all[k..] == b;
      HuffScan.Together(cfg.layout, all);
      HuffScan.FirstInterval(cfg, all, n);
    } else {
      HuffScan.FirstInterval(cfg, a, n);
      assert all[..k] == a[..k] && all[k..] == a[k..] + b;
      ScanInTwo(cfg, a[k..], b, (n + 1) % 8);
      HuffScan.Together(cfg.layout, all);
      HuffScan.FirstInterval(cfg, all, n);
      var m := n + Markers(k, |a|);
      OneMarkerMore(k, |a|, n);
      Join(IntervalBytes(cfg, a[..k]) + [0xFF, 0xD0 + n], ScanBytes(cfg, a[k..], (n + 1) % 8),
           [0xFF, 0xD0 + m % 8], ScanBytes(cfg, b, (m + 1) % 8));
    }
  }

  lemma OneMarkerMore(k: nat, count: nat, n: nat)
    requires 0 < k < count
    ensures Markers(k, count) == 1 + Markers(k, count - k)
    ensures ((n + 1) % 8 + Markers(k, count - k)) % 8 == (n + Markers(k, count)) % 8
    ensures ((n + 1) % 8 + Markers(k, count - k) + 1) % 8 == (n + Markers(k, count) + 1) % 8
  {
  }

  lemma NoMarker(k: nat)
    ensures Markers(k, k) == 0
  {
  }

  // ---------- renumbering a scan ----------

  lemma {:induction false} SegmentStays(raw: seq<nat>, rest: seq<nat>, k: nat)
    ensures Renumbered(Stuff(raw) + rest, k) == Stuff(raw) + Renumbered(rest, k)
    decreases |raw|
  {
    if raw == [] {
      assert Stuff(raw) + rest == rest && [] + Renumbered(rest, k) == Renumbered(rest, k);
    } else {
      hide Stuff, Renumbered;
      var head := if raw[0] == 0xFF then [0xFF, 0x00] else [raw[0]];
      StuffFirst(raw);
      SegmentStays(raw[1..], rest, k);
      var more := Stuff(raw[1..]) + rest;
      if raw[0] == 0xFF {
        StuffedStep(more, k);
      } else {
        PlainStep(raw[0], more, k);
      }
      InThree(head, Stuff(raw[1..]), rest);
      InThree(head, Stuff(raw[1..]), Renumbered(rest, k));
    }
  }

  lemma StuffFirst(raw: seq<nat>)
    requires raw != []
    ensures Stuff(raw) == (if raw[0] == 0xFF then [0xFF, 0x00] else [raw[0]]) + Stuff(raw[1..])
  {
    assert raw == [raw[0]] + raw[1..];
    StuffAppend([raw[0]], raw[1..]);
    StuffSnoc([], raw[0]);
    assert [] + [raw[0]] == [raw[0]];
  }

  lemma InThree(a: seq<nat>, b: seq<nat>, c: seq<nat>)
    ensures a + b + c == a + (b + c)
  {
  }

  lemma StuffedStep(more: seq<nat>, k: nat)
    ensures Renumbered([0xFF, 0x00] + more, k) == [0xFF, 0x00] + Renumbered(more, k)
  {
    var s := [0xFF, 0x00] + more;
    assert s[..2] == [0xFF, 0x00] && s[2..] == more;
  }

  lemma PlainStep(b: nat, more: seq<nat>, k: nat)
    requires b != 0xFF
    ensures Renumbered([b] + more, k) == [b] + Renumbered(more, k)
  {
    var s := [b] + more;
    assert s[1..] == more;
    if |s| < 2 {
      assert more == [];
    }
  }

  lemma MarkerStep(n: nat, more: seq<nat>, k: nat)
    requires n < 8
    ensures Renumbered([0xFF, 0xD0 + n] + more, k) == [0xFF, 0xD0 + k % 8] + Renumbered(more, k + 1)
  {
    var s := [0xFF, 0xD0 + n] + more;
    assert s[2..] == more;
  }

  /** Whatever number a scan starts from, renumbering makes it start from another. */
  lemma {:induction false} ScanRenumbered(cfg: Config, mcus: seq<Mcu>, n: nat, rest: seq<nat>, k: nat)
    requires cfg.Valid() && ScanCodable(cfg.layout, mcus) && n < 8
    ensures Renumbered(ScanBytes(cfg, mcus, n) + rest, k)
         == ScanBytes(cfg, mcus, k % 8) + Renumbered(rest, k + Markers(cfg.layout.interval, |mcus|))
    decreases |mcus|
  {
    hide AllCodable, IntervalBytes, ScanCodable, ScanBytes, OpenMcus, ClosedBytes, Renumbered;
    var g := cfg.layout.interval;
    if 0 < g < |mcus| {
      HuffScan.FirstInterval(cfg, mcus, n);
      HuffScan.FirstInterval(cfg, mcus, k % 8);
      var first, more := IntervalBytes(cfg, mcus[..g]), ScanBytes(cfg, mcus[g..], (n + 1) % 8) + rest;
      ScanRenumbered(cfg, mcus[g..], (n + 1) % 8, rest, k + 1);
      MarkerStep(n, more, k);
      IntervalStays(cfg, mcus[..g], [0xFF, 0xD0 + n] + more, k);
      assert ScanBytes(cfg, mcus, n) + rest == first + ([0xFF, 0xD0 + n] + more);
      assert (k % 8 + 1) % 8 == (k + 1) % 8;
      var tail := Renumbered(rest, k + Markers(g, |mcus|));
      assert first + ([0xFF, 0xD0 + k % 8] + (ScanBytes(cfg, mcus[g..], (k + 1) % 8) + tail))
          == first + [0xFF, 0xD0 + k % 8] + ScanBytes(cfg, mcus[g..], (k + 1) % 8) + tail;
    } else {
      OnlyInterval(cfg, mcus, n);
      OnlyInterval(cfg, mcus, k % 8);
      IntervalStays(cfg, mcus, rest, k);
    }
  }

  lemma IntervalStays(cfg: Config, mcus: seq<Mcu>, rest: seq<nat>, k: nat)
    requires cfg.Valid() && AllCodable(cfg.layout, FreshDc(cfg.layout), mcus)
    ensures Renumbered(IntervalBytes(cfg, mcus) + rest, k) == IntervalBytes(cfg, mcus) + Renumbered(rest, k)
  {
    SegmentStays(Bits.BytesFrom(Bits.Padded(McusBits(cfg, FreshDc(cfg.layout), mcus))), rest, k);
  }

  // ---------- a strip's data is found whole ----------

  lemma {:induction false} EndBehindSegment(raw: seq<nat>, rest: seq<nat>)
    requires EntropyEnd(rest).Some?
    ensures EntropyEnd(Stuff(raw) + rest) == Behind(EntropyEnd(rest), |Stuff(raw)|)
    decreases |raw|
  {
    if raw == [] {
      assert Stuff(raw) + rest == rest;
    } else {
      hide Stuff, EntropyEnd;
      var head := if raw[0] == 0xFF then [0xFF, 0x00] else [raw[0]];
      StuffFirst(raw);
      EndBehindSegment(raw[1..], rest);
      var more := Stuff(raw[1..]) + rest;
      EndStep(head, more);
      InThree(head, Stuff(raw[1..]), rest);
    }
  }

  lemma EndStep(head: seq<nat>, more: seq<nat>)
    requires EntropyEnd(more).Some?
    requires (|head| == 1 && head[0] != 0xFF) || (|head| == 2 && head[0] == 0xFF && (head[1] == 0 || IsRst(head[1])))
    ensures EntropyEnd(head + more) == Behind(EntropyEnd(more), |head|)
  {
    var s := head + more;
    assert s[|head|..] == more;
    assert |more| >= 2;
  }

  lemma {:induction false} EndBehindScan(cfg: Config, mcus: seq<Mcu>, n: nat, rest: seq<nat>)
    requires cfg.Valid() && ScanCodable(cfg.layout, mcus) && n < 8 && EntropyEnd(rest).Some?
    ensures EntropyEnd(ScanBytes(cfg, mcus, n) + rest) == Behind(EntropyEnd(rest), |ScanBytes(cfg, mcus, n)|)
    decreases |mcus|
  {
    hide AllCodable, IntervalBytes, ScanCodable, ScanBytes, OpenMcus, ClosedBytes, EntropyEnd;
    var g := cfg.layout.interval;
    if 0 < g < |mcus| {
      HuffScan.FirstInterval(cfg, mcus, n);
      var first, more := IntervalBytes(cfg, mcus[..g]), ScanBytes(cfg, mcus[g..], (n + 1) % 8) + rest;
      EndBehindScan(cfg, mcus[g..], (n + 1) % 8, rest);
      EndStep([0xFF, 0xD0 + n], more);
      EndBehindInterval(cfg, mcus[..g], [0xFF, 0xD0 + n] + more);
      assert ScanBytes(cfg, mcus, n) + rest == first + ([0xFF, 0xD0 + n] + more);
    } else {
      OnlyInterval(cfg, mcus, n);
      EndBehindInterval(cfg, mcus, rest);
    }
  }

  lemma EndBehindInterval(cfg: Config, mcus: seq<Mcu>, rest: seq<nat>)
    requires cfg.Valid() && AllCodable(cfg.layout, FreshDc(cfg.layout), mcus) && EntropyEnd(rest).Some?
    ensures EntropyEnd(IntervalBytes(cfg, mcus) + rest) == Behind(EntropyEnd(rest), |IntervalBytes(cfg, mcus)|)
  {
    EndBehindSegment(Bits.BytesFrom(Bits.Padded(McusBits(cfg, FreshDc(cfg.layout), mcus))), rest);
  }

  /** Nothing is trimmed from data that ends in a segment with something in it. */
  lemma NothingTrimmed(before: seq<nat>, raw: seq<nat>)
    requires raw != [] && (before == [] || before[|before| - 1] != 0xFF)
    ensures Trimmed(before + Stuff(raw)) == before + Stuff(raw)
  {
    var front, b := raw[..|raw| - 1], raw[|raw| - 1];
    if b != 0xFF && front != [] {
      var c := front[|front| - 1];
      assert Stuff(front) == Stuff(front[..|front| - 1]) + (if c == 0xFF then [0xFF, 0x00] else [c]);
    }
  }

  lemma BitsOfCodedMcus(cfg: Config, mcus: seq<Mcu>)
    requires cfg.Valid() && cfg.layout.membership != [] && mcus != []
    requires AllCodable(cfg.layout, FreshDc(cfg.layout), mcus) && McusCoded(cfg, FreshDc(cfg.layout), mcus)
    ensures McusBits(cfg, FreshDc(cfg.layout), mcus) != []
  {
    hide AllCoded, InRange;
    var dc, mcu := FreshDc(cfg.layout), mcus[0];
    var ci := cfg.layout.membership[0];
    FirstBits(mcu[0][0] - dc[ci], mcu[0], cfg.layout.precision, cfg.TablesOf(ci));
  }

  lemma FirstBits(diff: int, block: ZigZag.Block, precision: nat, ts: BlockSymbols.Tables)
    requires precision <= 12 && BlockSymbols.IsTables(ts)
    requires BlockSymbols.InRange(diff, ZigZag.ToZigZag(block), precision + 2)
    requires BlockSymbols.AllCoded(BlockSymbols.BlockItems(diff, ZigZag.ToZigZag(block), precision + 2), ts)
    ensures BlockCoder.BlockBits(diff, block, precision, ts) != []
  {
    var items := BlockSymbols.BlockItems(diff, ZigZag.ToZigZag(block), precision + 2);
    assert BlockSymbols.TableOf(items[0], ts).ehufsi[items[0].symbol] > 0;
  }

  lemma {:induction false} ScanIsNotTrimmed(cfg: Config, mcus: seq<Mcu>, before: seq<nat>, n: nat)
    requires cfg.Valid() && cfg.layout.membership != [] && mcus != [] && n < 8
    requires ScanCodable(cfg.layout, mcus) && ScanCoded(cfg, mcus)
    requires before == [] || before[|before| - 1] != 0xFF
    ensures Trimmed(before + ScanBytes(cfg, mcus, n)) == before + ScanBytes(cfg, mcus, n)
    decreases |mcus|
  {
    hide AllCodable, McusCoded, McusBits, Stuff, Trimmed;
    var g := GroupSize(cfg.layout.interval, |mcus|);
    if g < |mcus| {
      var marked := IntervalBytes(cfg, mcus[..g]) + [0xFF, 0xD0 + n];
      ScanIsNotTrimmed(cfg, mcus[g..], before + marked, (n + 1) % 8);
      InThree(before, marked, ScanBytes(cfg, mcus[g..], (n + 1) % 8));
    } else {
      assert mcus[..g] == mcus;
      BitsOfCodedMcus(cfg, mcus);
      var bits := McusBits(cfg, FreshDc(cfg.layout), mcus);
      NothingTrimmed(before, Bits.BytesFrom(Bits.Padded(bits)));
    }
  }

  // ---------- all strips together ----------

  function StripsData(cfg: Config, strips: seq<seq<Mcu>>): (d: seq<seq<nat>>)
    requires cfg.Valid() && forall i :: 0 <= i < |strips| ==> ScanCodable(cfg.layout, strips[i])
    ensures |d| == |strips| && forall i :: 0 <= i < |d| ==> d[i] == ScanBytes(cfg, strips[i], 0)
  {
    seq(|strips|, i requires 0 <= i < |strips| => ScanBytes(cfg, strips[i], 0))
  }

  function AllMcus(strips: seq<seq<Mcu>>): seq<Mcu> {
    if strips == [] then [] else AllMcus(strips[..|strips| - 1]) + strips[|strips| - 1]
  }

  /** Strips of whole restart intervals, but for the last. */
  ghost predicate AreStrips(cfg: Config, strips: seq<seq<Mcu>>) {
    && cfg.Valid() && cfg.layout.interval > 0 && strips != []
    && (forall i :: 0 <= i < |strips| ==> strips[i] != [] && ScanCodable(cfg.layout, strips[i]))
    && (forall i :: 0 <= i < |strips| - 1 ==> |strips[i]| % cfg.layout.interval == 0)
  }

  lemma {:induction false} WholeStrips(cfg: Config, strips: seq<seq<Mcu>>)
    requires cfg.layout.interval > 0 && strips != []
    requires forall i :: 0 <= i < |strips| ==> strips[i] != [] && |strips[i]| % cfg.layout.interval == 0
    ensures AllMcus(strips) != [] && |AllMcus(strips)| % cfg.layout.interval == 0
  {
    var front, last := strips[..|strips| - 1], strips[|strips| - 1];
    if front == [] {
      assert AllMcus(front) == [] && AllMcus(strips) == last;
    } else {
      WholeStrips(cfg, front);
      SumOfMultiples(|AllMcus(front)|, |last|, cfg.layout.interval);
    }
  }

  lemma SumOfMultiples(a: nat, b: nat, k: nat)
    requires k > 0 && a % k == 0 && b % k == 0
    ensures (a + b) % k == 0
  {
    hide Prod;
    DivisionIs(a, k);
    DivisionIs(b, k);
    ProdSum(a / k, b / k, k);
    BetweenMultiples(a + b, k, a / k + b / k);
    DivisionIs(a + b, k);
  }

  lemma {:induction false} MarkersAdd(k: nat, a: nat, b: nat)
    requires k > 0 && a > 0 && b > 0 && a % k == 0
    ensures Markers(k, a + b) == Markers(k, a) + 1 + Markers(k, b)
    decreases a
  {
    WholeIntervals(a, k);
    if a > k {
      MarkersAdd(k, a - k, b);
    }
  }

  lemma {:induction false} JoinedIsScan(cfg: Config, strips: seq<seq<Mcu>>, rest: seq<nat>, k: nat)
    requires AreStrips(cfg, strips)
    ensures ScanCodable(cfg.layout, AllMcus(strips))
    ensures Renumbered(WithMarkers(StripsData(cfg, strips)) + rest, k)
         == ScanBytes(cfg, AllMcus(strips), k % 8)
             + Renumbered(rest, k + Markers(cfg.layout.interval, |AllMcus(strips)|))
    decreases |strips|
  {
    hide ScanBytes, ScanCodable, Renumbered, Markers, AllCodable;
    var n := |strips| - 1;
    var front, last := strips[..n], strips[n];
    var data := StripsData(cfg, strips);
    if n == 0 {
      assert AllMcus(front) == [] && AllMcus(strips) == last;
      ScanRenumbered(cfg, last, 0, rest, k);
    } else {
      assert data[..n] == StripsData(cfg, front);
      WholeStrips(cfg, front);
      JoinedIsScan(cfg, front, [0xFF, 0xD0] + (ScanBytes(cfg, last, 0) + rest), k);
      NextStrip(cfg, AllMcus(front), last, rest, k);
      assert data == data[..n] + [data[n]];
      OneMorePart(data[..n], data[n]);
      JoinRight(WithMarkers(data[..n]), [0xFF, 0xD0], data[n], rest);
    }
  }

  /** The marker between two strips gets its number, and the second strip's markers go on from there. */
  lemma NextStrip(cfg: Config, all: seq<Mcu>, last: seq<Mcu>, rest: seq<nat>, k: nat)
    requires cfg.Valid() && cfg.layout.interval > 0 && all != [] && last != [] && |all| % cfg.layout.interval == 0
    requires ScanCodable(cfg.layout, all) && ScanCodable(cfg.layout, last)
    ensures ScanCodable(cfg.layout, all + last)
    ensures ScanBytes(cfg, all, k % 8)
            + Renumbered([0xFF, 0xD0] + (ScanBytes(cfg, last, 0) + rest), k + Markers(cfg.layout.interval, |all|))
         == ScanBytes(cfg, all + last, k % 8) + Renumbered(rest, k + Markers(cfg.layout.interval, |all + last|))
  {
    hide ScanBytes, ScanCodable, Renumbered, Markers;
    var g := cfg.layout.interval;
    var m := k + Markers(g, |all|);
    MarkerStep(0, ScanBytes(cfg, last, 0) + rest, m);
    ScanRenumbered(cfg, last, 0, rest, m + 1);
    ScanInTwo(cfg, all, last, k % 8);
    SameNumber(k, Markers(g, |all|));
    MarkersAdd(g, |all|, |last|);
    JoinRight(ScanBytes(cfg, all, k % 8), [0xFF, 0xD0 + m % 8], ScanBytes(cfg, last, (m + 1) % 8),
              Renumbered(rest, m + 1 + Markers(g, |last|)));
  }

  lemma SameNumber(k: nat, m: nat)
    ensures (k % 8 + m) % 8 == (k + m) % 8 && (k % 8 + m + 1) % 8 == (k + m + 1) % 8
  {
    EightMore(k % 8 + m, k / 8);
    EightMore(k % 8 + m + 1, k / 8);
  }

  lemma EightMore(x: nat, q: nat)
    ensures (x + 8 * q) % 8 == x % 8
  {
  }

  /** Splicing the strips' scan data gives the scan that one encoder writes for all their MCUs. */
  lemma SplicedIsSerial(cfg: Config, strips: seq<seq<Mcu>>)
    requires AreStrips(cfg, strips)
    ensures ScanCodable(cfg.layout, AllMcus(strips))
    ensures Renumbered(WithMarkers(StripsData(cfg, strips)), 0) == ScanBytes(cfg, AllMcus(strips), 0)
  {
    hide ScanBytes, ScanCodable, WithMarkers, StripsData;
    var data := WithMarkers(StripsData(cfg, strips));
    JoinedIsScan(cfg, strips, [], 0);
    assert data + [] == data;
    assert ScanBytes(cfg, AllMcus(strips), 0) + [] == ScanBytes(cfg, AllMcus(strips), 0);
  }

  /** What the splicer takes out of a strip's file is the strip's scan data, all of it. */
  lemma StripIsFound(cfg: Config, mcus: seq<Mcu>, behind: seq<nat>)
    requires cfg.Valid() && cfg.layout.membership != [] && mcus != []
    requires ScanCodable(cfg.layout, mcus) && ScanCoded(cfg, mcus)
    ensures var data := ScanBytes(cfg, mcus, 0) + [0xFF, 0xD9] + behind;
            && EntropyEnd(data) == Some(|ScanBytes(cfg, mcus, 0)|)
            && Trimmed(data[..|ScanBytes(cfg, mcus, 0)|]) == ScanBytes(cfg, mcus, 0)
  {
    hide ScanCodable, ScanCoded, ScanBytes, Trimmed;
    var scan := ScanBytes(cfg, mcus, 0);
    assert EntropyEnd([0xFF, 0xD9] + behind) == Some(0);
    EndBehindScan(cfg, mcus, 0, [0xFF, 0xD9] + behind);
    InThree(scan, [0xFF, 0xD9], behind);
    assert (scan + [0xFF, 0xD9] + behind)[..|scan|] == scan;
    ScanIsNotTrimmed(cfg, mcus, [], 0);
    assert [] + scan == scan;
  }
}
