/**
 * The files of the strips and the spliced file (jpar_splice_strips of jcparallel.c): the walk over
 * the marker segments to the scan data, the height put into the frame header, and the result,
 * which is the file that one encoder would have written.
 */
module StripFiles {
  import opened CodeBytes
  import opened HuffTable
  import opened Mcus
  import opened HuffScan
  import opened HuffScanDecoder
  import opened StripSplice

  // ---------- the header of a file ----------

  /** Where the scan data starts, and where the last SOF0 marker before it is. */
  datatype Header = Header(end: nat, sof0: Option<nat>)

  /** Segments from pos on, up to and including the first SOS segment. */
  function Walk(s: seq<nat>, pos: nat, sof0: Option<nat>): (r: Option<Header>)
    decreases |s| - pos
  {
    if pos + 4 > |s| || s[pos] != 0xFF then None
    else
      var marker, next := s[pos + 1], pos + 2 + 256 * s[pos + 2] + s[pos + 3];
      if next > |s| then None
      else if marker == 0xDA then Some(Header(next, sof0))
      else if next < pos + 4 then None
      else Walk(s, next, if marker == 0xC0 then Some(pos) else sof0)
  }

  function HeaderOf(s: seq<nat>): Option<Header> {
    if |s| < 2 || s[0] != 0xFF || s[1] != 0xD8 then None else Walk(s, 2, None)
  }

  /** jpar_find_header_end */
  method FindHeaderEnd(buf: seq<nat>) returns (r: Option<Header>)
    ensures r == HeaderOf(buf)
    ensures r.Some? ==> r.value.end <= |buf| && (r.value.sof0.Some? ==> r.value.sof0.value + 6 <= r.value.end)
  {
    if |buf| < 2 || buf[0] != 0xFF || buf[1] != 0xD8 {
      return None;
    }
    var pos: nat, sof0: Option<nat> := 2, None;
    while pos + 4 <= |buf| && buf[pos] == 0xFF
      invariant pos <= |buf| && Walk(buf, pos, sof0) == HeaderOf(buf)
      invariant sof0.Some? ==> sof0.value + 4 <= pos
      decreases |buf| - pos
    {
      var marker := buf[pos + 1];
      pos := pos + 2;
      var segLen := 256 * buf[pos] + buf[pos + 1];
      if marker == 0xDA {
        pos := pos + segLen;
        if pos > |buf| {
          return None;
        }
        return Some(Header(pos, sof0));
      }
      if marker == 0xC0 {
        sof0 := Some(pos - 2);
      }
      if segLen < 2 || pos + segLen > |buf| {
        return None;
      }
      pos := pos + segLen;
    }
    r := None;
  }

  // ---------- what a file is made of ----------

  /** A marker segment: its payload comes behind the length field, which counts itself. */
  datatype Segment = Segment(marker: nat, payload: seq<nat>)

  function SegmentBytes(g: Segment): (b: seq<nat>)
    ensures |b| == |g.payload| + 4
  {
    var n := |g.payload| + 2;
    [0xFF, g.marker, n / 256, n % 256] + g.payload
  }

  function SegmentsBytes(gs: seq<Segment>): seq<nat> {
    if gs == [] then [] else SegmentBytes(gs[0]) + SegmentsBytes(gs[1..])
  }

  /** SOI, the segments, and SOS. */
  function HeaderBytes(gs: seq<Segment>, sos: seq<nat>): seq<nat> {
    [0xFF, 0xD8] + SegmentsBytes(gs) + SegmentBytes(Segment(0xDA, sos))
  }

  ghost predicate IsHeader(gs: seq<Segment>) {
    forall k :: 0 <= k < |gs| ==> gs[k].marker != 0xDA
  }

  /** The position of the last SOF0 among segments that start at pos. */
  function LastSof0(gs: seq<Segment>, pos: nat, sof0: Option<nat>): Option<nat> {
    if gs == [] then sof0
    else LastSof0(gs[1..], pos + |SegmentBytes(gs[0])|, if gs[0].marker == 0xC0 then Some(pos) else sof0)
  }

  lemma LengthField(n: nat)
    ensures 256 * (n / 256) + n % 256 == n
  {
  }

  lemma OneSegment(before: seq<nat>, g: Segment, rest: seq<nat>, sof0: Option<nat>)
    ensures var s, pos := before + SegmentBytes(g) + rest, |before|;
            Walk(s, pos, sof0)
            == if g.marker == 0xDA then Some(Header(pos + |SegmentBytes(g)|, sof0))
               else Walk(s, pos + |SegmentBytes(g)|, if g.marker == 0xC0 then Some(pos) else sof0)
  {
    var s, pos, n := before + SegmentBytes(g) + rest, |before|, |g.payload| + 2;
    LengthField(n);
    var b := SegmentBytes(g);
    assert b[0] == 0xFF && b[1] == g.marker && b[2] == n / 256 && b[3] == n % 256;
    assert s[pos] == b[0] && s[pos + 1] == b[1] && s[pos + 2] == b[2] && s[pos + 3] == b[3];
  }

  lemma {:induction false} AllSegments(before: seq<nat>, gs: seq<Segment>, rest: seq<nat>, sof0: Option<nat>)
    requires IsHeader(gs)
    ensures var s := before + SegmentsBytes(gs) + rest;
            Walk(s, |before|, sof0) == Walk(s, |before| + |SegmentsBytes(gs)|, LastSof0(gs, |before|, sof0))
    decreases |gs|
  {
    hide Walk, SegmentBytes;
    if gs != [] {
      var first, more := SegmentBytes(gs[0]), SegmentsBytes(gs[1..]);
      OneSegment(before, gs[0], more + rest, sof0);
      AllSegments(before + first, gs[1..], rest, if gs[0].marker == 0xC0 then Some(|before|) else sof0);
      assert before + (first + more) + rest == (before + first) + more + rest;
      assert before + first + (more + rest) == (before + first) + more + rest;
    }
  }

  /** Whatever the segments hold, the walk stops behind SOS and remembers the last SOF0. */
  lemma HeaderIsFound(gs: seq<Segment>, sos: seq<nat>, behind: seq<nat>)
    requires IsHeader(gs)
    ensures HeaderOf(HeaderBytes(gs, sos) + behind) == Some(Header(|HeaderBytes(gs, sos)|, LastSof0(gs, 2, None)))
  {
    hide Walk, SegmentBytes, SegmentsBytes, LastSof0;
    var soi, mid, last := [0xFF, 0xD8], SegmentsBytes(gs), SegmentBytes(Segment(0xDA, sos));
    var s := HeaderBytes(gs, sos) + behind;
    assert s == soi + mid + (last + behind) == (soi + mid) + last + behind;
    assert s[0] == soi[0] && s[1] == soi[1];
    AllSegments(soi, gs, last + behind, None);
    OneSegment(soi + mid, Segment(0xDA, sos), behind, LastSof0(gs, 2, None));
  }

  // ---------- the image height ----------

  /** Writing the height at its place in the frame header, as far as that lies before end. */
  function Patched(header: seq<nat>, at: nat, height: nat): (p: seq<nat>)
    requires at + 6 <= |header|
    ensures |p| == |header|
  {
    var p := header[at + 5 := height / 256 % 256];
    if at + 6 < |header| then p[at + 6 := height % 256] else p
  }

  /** A frame header with another height. */
  function WithHeight(g: Segment, height: nat): (h: Segment)
    requires |g.payload| >= 3
    ensures h.marker == g.marker && |h.payload| == |g.payload|
  {
    Segment(g.marker, g.payload[1 := height / 256 % 256][2 := height % 256])
  }

  /** Segment k is the frame header: the last one with an SOF0 marker. */
  ghost predicate IsFrame(gs: seq<Segment>, k: nat) {
    && k < |gs| && gs[k].marker == 0xC0 && |gs[k].payload| >= 5
    && forall j :: k < j < |gs| ==> gs[j].marker != 0xC0
  }

  lemma {:induction false} FrameIsLast(gs: seq<Segment>, k: nat, pos: nat, sof0: Option<nat>)
    requires IsFrame(gs, k)
    ensures LastSof0(gs, pos, sof0) == Some(pos + |SegmentsBytes(gs[..k])|)
    decreases |gs|
  {
    hide SegmentBytes;
    var first := |SegmentBytes(gs[0])|;
    if k == 0 {
      assert gs[..0] == [];
      NoFrame(gs[1..], pos + first, Some(pos));
    } else {
      FrameIsLast(gs[1..], k - 1, pos + first, if gs[0].marker == 0xC0 then Some(pos) else sof0);
      assert gs[..k][1..] == gs[1..][..k - 1] && gs[..k][0] == gs[0];
    }
  }

  lemma {:induction false} NoFrame(gs: seq<Segment>, pos: nat, sof0: Option<nat>)
    requires forall j :: 0 <= j < |gs| ==> gs[j].marker != 0xC0
    ensures LastSof0(gs, pos, sof0) == sof0
    decreases |gs|
  {
    if gs != [] {
      NoFrame(gs[1..], pos + |SegmentBytes(gs[0])|, sof0);
    }
  }

  lemma {:induction false} SegmentsInThree(gs: seq<Segment>, k: nat)
    requires k < |gs|
    ensures SegmentsBytes(gs) == SegmentsBytes(gs[..k]) + SegmentBytes(gs[k]) + SegmentsBytes(gs[k + 1..])
    decreases k
  {
    hide SegmentBytes;
    if k == 0 {
      assert gs[..0] == [];
    } else {
      SegmentsInThree(gs[1..], k - 1);
      assert gs[..k][0] == gs[0] && gs[..k][1..] == gs[1..][..k - 1] && gs[1..][k..] == gs[k + 1..];
      var a, b := SegmentBytes(gs[0]), SegmentsBytes(gs[1..][..k - 1]);
      Join(a, b, SegmentBytes(gs[k]), SegmentsBytes(gs[k + 1..]));
    }
  }

  lemma PatchInside(before: seq<nat>, g: Segment, behind: seq<nat>, height: nat)
    requires |g.payload| >= 5
    ensures Patched(before + SegmentBytes(g) + behind, |before|, height)
         == before + SegmentBytes(WithHeight(g, height)) + behind
  {
  }

  /** Patching the header's bytes is replacing the height in its frame header. */
  lemma PatchIsHeight(gs: seq<Segment>, sos: seq<nat>, k: nat, height: nat)
    requires IsFrame(gs, k)
    ensures LastSof0(gs, 2, None).Some? && LastSof0(gs, 2, None).value + 9 <= |HeaderBytes(gs, sos)|
    ensures Patched(HeaderBytes(gs, sos), LastSof0(gs, 2, None).value, height)
         == HeaderBytes(gs[k := WithHeight(gs[k], height)], sos)
  {
    hide SegmentsBytes, SegmentBytes, Patched, WithHeight, LastSof0;
    var hs := gs[k := WithHeight(gs[k], height)];
    FrameIsLast(gs, k, 2, None);
    SegmentsInThree(gs, k);
    SegmentsInThree(hs, k);
    assert hs[..k] == gs[..k] && hs[k + 1..] == gs[k + 1..];
    var soi, a, last := [0xFF, 0xD8], SegmentsBytes(gs[..k]), SegmentBytes(Segment(0xDA, sos));
    var b := SegmentsBytes(gs[k + 1..]);
    PatchInside(soi + a, gs[k], b + last, height);
    Around(soi, a, SegmentBytes(gs[k]), b, last);
    Around(soi, a, SegmentBytes(hs[k]), b, last);
  }

  lemma Around(soi: seq<nat>, a: seq<nat>, g: seq<nat>, b: seq<nat>, last: seq<nat>)
    ensures soi + (a + g + b) + last == soi + a + g + (b + last)
  {
  }

  // ---------- splicing ----------

  /** A strip's scan data, without a restart marker at its end. */
  function ScanData(buf: seq<nat>): Option<seq<nat>> {
    var h := HeaderOf(buf);
    if h.None? || h.value.end > |buf| then None
    else
      var data := buf[h.value.end..];
      var end := EntropyEnd(data);
      if end.None? || end.value > |data| then None else Some(Trimmed(data[..end.value]))
  }

  ghost predicate AllHaveData(bufs: seq<seq<nat>>) {
    forall i :: 0 <= i < |bufs| ==> ScanData(bufs[i]).Some?
  }

  function DataOf(bufs: seq<seq<nat>>): (d: seq<seq<nat>>)
    requires forall i :: 0 <= i < |bufs| ==> ScanData(bufs[i]).Some?
    ensures |d| == |bufs| && forall i :: 0 <= i < |d| ==> d[i] == ScanData(bufs[i]).value
  {
    seq(|bufs|, i requires 0 <= i < |bufs| => ScanData(bufs[i]).value)
  }

  /** The first file can lend its header: it has a frame header with room for the height. */
  predicate HasFrame(buf: seq<nat>) {
    var h := HeaderOf(buf);
    && h.Some? && h.value.end <= |buf|
    && h.value.sof0.Some? && h.value.sof0.value + 6 <= h.value.end && h.value.sof0.value + 9 <= |buf|
  }

  /** The file that splicing makes of the strips' files. */
  ghost function Spliced(bufs: seq<seq<nat>>, height: nat): Option<seq<nat>> {
    if bufs == [] || !HasFrame(bufs[0]) || !AllHaveData(bufs) then None
    else
      var h := HeaderOf(bufs[0]).value;
      Some(Patched(bufs[0][..h.end], h.sof0.value, height) + Renumbered(WithMarkers(DataOf(bufs)), 0) + [0xFF, 0xD9])
  }

  /** jpar_splice_strips */
  method Splice(bufs: seq<seq<nat>>, height: nat) returns (r: Option<seq<nat>>)
    ensures r == Spliced(bufs, height)
  {
    hide Renumbered, WithMarkers, HeaderOf, Patched, AllHaveData, DataOf;
    if bufs == [] {
      return None;
    }
    var h := FindHeaderEnd(bufs[0]);
    if h.None? {
      return None;
    }
    if h.value.sof0.None? || h.value.sof0.value + 9 > |bufs[0]| {
      return None;
    }
    var joined := JoinData(bufs, h.value.end);
    if joined.None? {
      return None;
    }
    var data, headerLen := joined.value, h.value.end;
    var out := new nat[headerLen + |data| + 2];
    CopyAll(out, bufs[0][..headerLen], h.value.sof0.value, height, data);
    RenumberInPlace(out, headerLen, headerLen + |data|);
    assert out[..] == out[..headerLen] + out[headerLen..headerLen + |data|] + out[headerLen + |data|..];
    r := Some(out[..]);
  }

  /** The scan data of one file. */
  method FindData(buf: seq<nat>, headerLen: nat) returns (r: Option<seq<nat>>)
    requires HeaderOf(buf).Some? && HeaderOf(buf).value.end == headerLen <= |buf|
    ensures r == ScanData(buf)
  {
    hide EntropyEnd, HeaderOf;
    var end := FindEntropyEnd(buf, headerLen);
    ghost var rest := buf[headerLen..];
    EndIsInside(rest);
    if end.None? {
      return None;
    }
    var part := buf[headerLen..end.value];
    assert part == rest[..EntropyEnd(rest).value];
    if |part| >= 2 && part[|part| - 2] == 0xFF && 0xD0 <= part[|part| - 1] <= 0xD7 {
      part := part[..|part| - 2];
    }
    r := Some(part);
  }

  /** The loop over the strips. */
  method JoinData(bufs: seq<seq<nat>>, firstLen: nat) returns (r: Option<seq<nat>>)
    requires bufs != [] && HeaderOf(bufs[0]).Some? && HeaderOf(bufs[0]).value.end == firstLen <= |bufs[0]|
    ensures r.Some? <==> AllHaveData(bufs)
    ensures r.Some? ==> r.value == WithMarkers(DataOf(bufs))
  {
    hide HeaderOf, WithMarkers;
    var data: seq<nat> := [];
    ghost var parts: seq<seq<nat>> := [];
    NoParts();
    var i := 0;
    while i < |bufs|
      invariant 0 <= i <= |bufs| && |parts| == i && data == WithMarkers(parts)
      invariant forall j :: 0 <= j < i ==> ScanData(bufs[j]) == Some(parts[j])
    {
      var headerLen := firstLen;
      if i > 0 {
        var h := FindHeaderEnd(bufs[i]);
        if h.None? {
          assert ScanData(bufs[i]).None?;
          return None;
        }
        headerLen := h.value.end;
      }
      var part := FindData(bufs[i], headerLen);
      if part.None? {
        assert ScanData(bufs[i]).None?;
        return None;
      }
      OneMorePart(parts, part.value);
      data := if i > 0 then data + [0xFF, 0xD0] + part.value else part.value;
      parts := parts + [part.value];
      i := i + 1;
    }
    assert parts == DataOf(bufs);
    r := Some(data);
  }

  lemma NoParts()
    ensures WithMarkers([]) == []
  {
  }

  /** The header, the height put into it, the strips' data and EOI. */
  method CopyAll(out: array<nat>, header: seq<nat>, at: nat, height: nat, data: seq<nat>)
    requires out.Length == |header| + |data| + 2 && at + 6 <= |header|
    modifies out
    ensures out[..|header|] == Patched(header, at, height) && out[|header|..|header| + |data|] == data
    ensures out[|header| + |data|..] == [0xFF, 0xD9]
  {
    forall i | 0 <= i < |header| {
      out[i] := header[i];
    }
    out[at + 5] := height / 256 % 256;
    out[at + 6] := height % 256;
    assert out[..|header|] == Patched(header, at, height);
    forall i | 0 <= i < |data| + 2 {
      out[|header| + i] := if i < |data| then data[i] else if i == |data| then 0xFF else 0xD9;
    }
    assert out[..|header|] == Patched(header, at, height);
  }

  // ---------- the spliced file ----------

  /** The file of a scan, with the header as given. */
  ghost function FileOf(gs: seq<Segment>, sos: seq<nat>, cfg: Config, mcus: seq<Mcu>): seq<nat>
    requires cfg.Valid() && ScanCodable(cfg.layout, mcus)
  {
    HeaderBytes(gs, sos) + ScanBytes(cfg, mcus, 0) + [0xFF, 0xD9]
  }

  /** Each strip's file holds its scan, behind a header of its own. */
  ghost predicate AreStripFiles(bufs: seq<seq<nat>>, headers: seq<seq<Segment>>, soss: seq<seq<nat>>, cfg: Config,
                                strips: seq<seq<Mcu>>)
  {
    && AreStrips(cfg, strips) && cfg.layout.membership != []
    && |bufs| == |headers| == |soss| == |strips|
    && forall i :: 0 <= i < |strips| ==>
         && ScanCodable(cfg.layout, strips[i]) && ScanCoded(cfg, strips[i]) && IsHeader(headers[i])
         && bufs[i] == FileOf(headers[i], soss[i], cfg, strips[i])
  }

  lemma StripData(gs: seq<Segment>, sos: seq<nat>, cfg: Config, mcus: seq<Mcu>)
    requires cfg.Valid() && cfg.layout.membership != [] && mcus != [] && IsHeader(gs)
    requires ScanCodable(cfg.layout, mcus) && ScanCoded(cfg, mcus)
    ensures var buf := FileOf(gs, sos, cfg, mcus);
            && HeaderOf(buf) == Some(Header(|HeaderBytes(gs, sos)|, LastSof0(gs, 2, None)))
            && |HeaderBytes(gs, sos)| <= |buf| && buf[..|HeaderBytes(gs, sos)|] == HeaderBytes(gs, sos)
            && ScanData(buf) == Some(ScanBytes(cfg, mcus, 0))
  {
    hide ScanCodable, ScanCoded, ScanBytes, HeaderOf, HeaderBytes, EntropyEnd, Trimmed, LastSof0;
    var head, scan, eoi := HeaderBytes(gs, sos), ScanBytes(cfg, mcus, 0), [0xFF, 0xD9];
    var buf := FileOf(gs, sos, cfg, mcus);
    StripIsFound(cfg, mcus, []);
    assert scan + eoi + [] == scan + eoi;
    assert buf == head + (scan + eoi);
    HeaderIsFound(gs, sos, scan + eoi);
    assert buf[|head|..] == scan + eoi && buf[..|head|] == head;
    assert (scan + eoi)[..|scan|] == scan;
  }

  /**
   * The spliced file is the file of one encoder for the whole image: the first strip's header with
   * the height of the image, the scan of all MCUs, and EOI.
   */
  lemma SplicedFileIsSerial(bufs: seq<seq<nat>>, headers: seq<seq<Segment>>, soss: seq<seq<nat>>, cfg: Config,
                            strips: seq<seq<Mcu>>, k: nat, height: nat)
    requires AreStripFiles(bufs, headers, soss, cfg, strips) && IsFrame(headers[0], k)
    ensures ScanCodable(cfg.layout, AllMcus(strips))
    ensures var frame := WithHeight(headers[0][k], height);
            Spliced(bufs, height) == Some(FileOf(headers[0][k := frame], soss[0], cfg, AllMcus(strips)))
  {
    hide ScanCodable, ScanCoded, ScanBytes, HeaderOf, HeaderBytes, ScanData, LastSof0, Patched, WithHeight, WithMarkers;
    hide Renumbered, IsHeader;
    forall i | 0 <= i < |strips|
      ensures ScanData(bufs[i]) == Some(ScanBytes(cfg, strips[i], 0))
    {
      StripData(headers[i], soss[i], cfg, strips[i]);
    }
    assert AllHaveData(bufs) && DataOf(bufs) == StripsData(cfg, strips);
    SplicedIsSerial(cfg, strips);
    StripData(headers[0], soss[0], cfg, strips[0]);
    PatchIsHeight(headers[0], soss[0], k, height);
  }
}
