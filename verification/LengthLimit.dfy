/**
 * Code length counts: how much of the code space they fill, and the loop of
 * jpeg_gen_optimal_table that brings lengths above 16 down to 16 (section K.2).
 */
module LengthLimit {
  import opened Powers
  import opened CodeBytes
  import opened HuffTable

  /** The number of nodes of depth m - 1 that the codes of length below m use up. A complete
      code of lengths below m fills all 2^(m-1) of them. */
  function Fill(bits: seq<nat>, m: nat): nat
    requires m <= |bits|
  {
    if m == 0 then 0 else 2 * Fill(bits, m - 1) + bits[m - 1]
  }

  /** The number of codes of length below m. */
  function Codes(bits: seq<nat>, m: nat): nat
    requires m <= |bits|
  {
    if m == 0 then 0 else Codes(bits, m - 1) + bits[m - 1]
  }

  lemma {:induction false} CodesUpdate(bits: seq<nat>, l: nat, x: nat, m: nat)
    requires l < |bits| && m <= |bits|
    ensures Codes(bits[l := x], m) == Codes(bits, m) + if l < m then x - bits[l] else 0
  {
    if m > 0 {
      CodesUpdate(bits, l, x, m - 1);
    }
  }

  lemma {:induction false} FillUpdate(bits: seq<nat>, l: nat, x: nat, m: nat)
    requires l < m <= |bits|
    ensures Fill(bits[l := x], m) == Fill(bits, m) + (x - bits[l]) * Pow2(m - 1 - l)
  {
    if m - 1 == l {
      FillSame(bits, bits[l := x], l);
    } else {
      FillUpdate(bits, l, x, m - 1);
      var p, d := Pow2(m - 2 - l), x - bits[l];
      assert d * (2 * p) == 2 * (d * p);
    }
  }

  lemma {:induction false} FillSame(bits: seq<nat>, other: seq<nat>, m: nat)
    requires m <= |bits| && m <= |other| && forall l :: 0 <= l < m ==> bits[l] == other[l]
    ensures Fill(bits, m) == Fill(other, m) && Codes(bits, m) == Codes(other, m)
  {
    if m > 0 {
      FillSame(bits, other, m - 1);
    }
  }

  /** Two symbols leave length i: one takes the prefix of the pair, and the other shares the
      prefix that symbol j gives up. */
  function Moved(bits: seq<nat>, i: nat, j: nat): (m: seq<nat>)
    requires 1 <= j < i - 1 && i < |bits| && bits[i] >= 2 && bits[j] > 0
    ensures |m| == |bits|
  {
    var b1 := bits[i := bits[i] - 2];
    var b2 := b1[i - 1 := b1[i - 1] + 1];
    var b3 := b2[j + 1 := b2[j + 1] + 2];
    b3[j := b3[j] - 1]
  }

  lemma MovedKeeps(bits: seq<nat>, i: nat, j: nat)
    requires 1 <= j < i - 1 && i < |bits| && bits[i] >= 2 && bits[j] > 0
    ensures Fill(Moved(bits, i, j), i + 1) == Fill(bits, i + 1)
    ensures Codes(Moved(bits, i, j), i + 1) == Codes(bits, i + 1)
    ensures Moved(bits, i, j)[i] == bits[i] - 2
  {
    hide Fill, Codes;
    var b1 := bits[i := bits[i] - 2];
    var b2 := b1[i - 1 := b1[i - 1] + 1];
    var b3 := b2[j + 1 := b2[j + 1] + 2];
    FillUpdate(bits, i, bits[i] - 2, i + 1);
    FillUpdate(b1, i - 1, b1[i - 1] + 1, i + 1);
    FillUpdate(b2, j + 1, b2[j + 1] + 2, i + 1);
    FillUpdate(b3, j, b3[j] - 1, i + 1);
    CodesUpdate(bits, i, bits[i] - 2, i + 1);
    CodesUpdate(b1, i - 1, b1[i - 1] + 1, i + 1);
    CodesUpdate(b2, j + 1, b2[j + 1] + 2, i + 1);
    CodesUpdate(b3, j, b3[j] - 1, i + 1);
    assert Pow2(i - j) == 2 * Pow2(i - j - 1) && Pow2(1) == 2;
  }

  lemma {:induction false} NothingFilled(bits: seq<nat>, m: nat)
    requires m <= |bits| && forall l :: 0 <= l < m ==> bits[l] == 0
    ensures Fill(bits, m) == 0
  {
    if m > 0 {
      NothingFilled(bits, m - 1);
    }
  }

  lemma {:induction false} EmptyCodeFillsAll(bits: seq<nat>, m: nat)
    requires 0 < m <= |bits| && bits[0] > 0
    ensures Fill(bits, m) >= Pow2(m - 1)
  {
    if m > 1 {
      EmptyCodeFillsAll(bits, m - 1);
    }
  }

  lemma {:induction false} EachIsCounted(bits: seq<nat>, l: nat, m: nat)
    requires l < m <= |bits|
    ensures bits[l] <= Codes(bits, m)
    ensures forall k :: l < k < m ==> bits[l] + bits[k] <= Codes(bits, m)
  {
    CodesUpdate(bits, l, 0, m);
    forall k | l < k < m
      ensures bits[l] + bits[k] <= Codes(bits, m)
    {
      CodesUpdate(bits[l := 0], k, 0, m);
    }
  }

  /** In a complete code of fewer than 256 symbols, an overlong length holds an even number of
      codes, and some code is at least two shorter. */
  lemma DonorExists(bits: seq<nat>, i: nat)
    requires 17 <= i < |bits| && bits[i] > 0
    requires Fill(bits, i + 1) == Pow2(i) && Codes(bits, i + 1) < 256
    ensures bits[i] % 2 == 0 && bits[0] == 0
    ensures exists j :: 1 <= j < i - 1 && bits[j] > 0
  {
    if bits[0] > 0 {
      EmptyCodeFillsAll(bits, i);
    }
    if forall j :: 0 <= j < i - 1 ==> bits[j] == 0 {
      NothingFilled(bits, i - 1);
      EachIsCounted(bits, i - 1, i + 1);
      Pow2Monotonic(16, i);
      Constants();
    }
  }

  /** The greatest length in use below m, 0 if there is none. */
  function LongestBelow(bits: seq<nat>, m: nat): (j: nat)
    requires m <= |bits|
    ensures j == 0 || (j < m && bits[j] > 0)
    ensures forall k :: j < k < m ==> bits[k] == 0
  {
    if m <= 1 then 0 else if bits[m - 1] > 0 then m - 1 else LongestBelow(bits, m - 1)
  }

  /** Which length gives up a code for two of length i: the greatest in use that is at least two
      shorter. */
  function Donor(bits: seq<nat>, i: nat): (j: nat)
    requires 1 <= i <= |bits|
    ensures j == 0 || (1 <= j < i - 1 && bits[j] > 0)
    ensures forall k :: j < k < i - 1 ==> bits[k] == 0
  {
    LongestBelow(bits, i - 1)
  }

  /** What the loop makes of the counts, from length i down. */
  function Limited(bits: seq<nat>, i: nat): (l: seq<nat>)
    requires i < |bits|
    ensures |l| == |bits|
    decreases i, bits[i]
  {
    if i <= 16 then bits
    else if bits[i] < 2 || Donor(bits, i) == 0 then Limited(bits, i - 1)
    else Limited(Moved(bits, i, Donor(bits, i)), i)
  }

  /** All the counts are kept in bytes. */
  function Byte(x: int): nat {
    x % 256
  }

  /** The search for the donor, downwards from i - 2. */
  method FindDonor(bits: array<nat>, i: nat) returns (j: nat)
    requires 17 <= i < bits.Length && exists k :: 1 <= k < i - 1 && bits[k] > 0
    ensures j == Donor(bits[..], i) > 0
  {
    j := i - 2;
    while bits[j] == 0
      invariant j <= i - 2 && exists k :: 1 <= k <= j && bits[k] > 0
      invariant LongestBelow(bits[..], j + 1) == Donor(bits[..], i)
      decreases j
    {
      j := j - 1;
    }
  }

  method MoveTwo(bits: array<nat>, i: nat)
    requires 17 <= i < bits.Length && bits[i] > 0
    requires Fill(bits[..], i + 1) == Pow2(i) && Codes(bits[..], i + 1) < 256
    modifies bits
    ensures old(bits[i]) >= 2 && Donor(old(bits[..]), i) > 0
    ensures bits[..] == Moved(old(bits[..]), i, Donor(old(bits[..]), i)) && bits[i] == old(bits[i]) - 2
    ensures Fill(bits[..], i + 1) == Pow2(i) && Codes(bits[..], i + 1) == old(Codes(bits[..], i + 1))
    ensures forall l :: i < l < bits.Length ==> bits[l] == old(bits[l])
    ensures bits[0] == old(bits[0])
  {
    hide Fill, Codes, Pow2, Donor;
    ghost var before := bits[..];
    DonorExists(before, i);
    var j := FindDonor(bits, i);
    MovedKeeps(before, i, j);
    ghost var after := Moved(before, i, j);
    BytesFit(before, i);
    BytesFit(after, i);
    bits[i] := Byte(bits[i] - 2);
    bits[i - 1] := Byte(bits[i - 1] + 1);
    bits[j + 1] := Byte(bits[j + 1] + 2);
    bits[j] := Byte(bits[j] - 1);
    assert bits[..] == after;
  }

  lemma BytesFit(bits: seq<nat>, i: nat)
    requires i < |bits| && Codes(bits, i + 1) < 256
    ensures forall l :: 0 <= l <= i ==> bits[l] < 256
  {
    forall l | 0 <= l <= i
      ensures bits[l] < 256
    {
      EachIsCounted(bits, l, i + 1);
    }
  }

  /** Lengths above 16 disappear; the code stays complete and no code is lost. Which lengths change
      is said of the function it computes. */
  method LimitLengths(bits: array<nat>)
    requires bits.Length == 33
    requires Fill(bits[..], 33) == Pow2(32) && Codes(bits[..], 33) < 256
    modifies bits
    ensures bits[..] == Limited(old(bits[..]), 32)
    ensures Fill(bits[..], 17) == Pow2(16) && Codes(bits[..], 17) == old(Codes(bits[..], 33))
    ensures bits[0] == old(bits[0])
    ensures (forall l :: 17 <= l < 33 ==> old(bits[l]) == 0) ==> bits[..] == old(bits[..])
  {
    hide Fill, Codes, Moved, Donor;
    var i := 32;
    while i > 16
      invariant 16 <= i <= 32 && Limited(bits[..], i) == Limited(old(bits[..]), 32)
      invariant Fill(bits[..], i + 1) == Pow2(i) && Codes(bits[..], i + 1) == old(Codes(bits[..], 33))
      invariant bits[0] == old(bits[0])
      invariant (forall l :: 17 <= l < 33 ==> old(bits[l]) == 0) ==> bits[..] == old(bits[..])
    {
      while bits[i] > 0
        invariant Limited(bits[..], i) == Limited(old(bits[..]), 32)
        invariant Fill(bits[..], i + 1) == Pow2(i) && Codes(bits[..], i + 1) == old(Codes(bits[..], 33))
        invariant bits[0] == old(bits[0])
        invariant (forall l :: 17 <= l < 33 ==> old(bits[l]) == 0) ==> bits[..] == old(bits[..])
        decreases bits[i]
      {
        MoveTwo(bits, i);
      }
      UnusedLength(bits[..], i);
      i := i - 1;
    }
  }

  /** A length that is not in use does not count. */
  lemma UnusedLength(bits: seq<nat>, i: nat)
    requires 17 <= i < |bits| && bits[i] == 0
    ensures Codes(bits, i) == Codes(bits, i + 1) && 2 * Fill(bits, i) == Fill(bits, i + 1)
    ensures Limited(bits, i - 1) == Limited(bits, i) && Pow2(i) == 2 * Pow2(i - 1)
  {
  }

  /** Takes the pseudo-symbol out of the longest length in use. */
  method DropLongest(bits: array<nat>) returns (i: nat)
    requires bits.Length == 33 && Fill(bits[..], 17) == Pow2(16) && Codes(bits[..], 17) < 256
    modifies bits
    ensures i <= 16 && old(bits[i]) > 0 && (forall l :: i < l <= 16 ==> old(bits[l]) == 0)
    ensures bits[..] == old(bits[..])[i := old(bits[i]) - 1]
    ensures Fill(bits[..], 17) < Pow2(16) && Codes(bits[..], 17) == old(Codes(bits[..], 17)) - 1
  {
    hide Fill, Codes;
    ghost var before := bits[..];
    SomeLengthInUse(before);
    i := 16;
    while bits[i] == 0
      invariant i <= 16 && exists l :: 0 <= l <= i && bits[l] > 0
      invariant forall l :: i < l <= 16 ==> bits[l] == 0
      decreases i
    {
      i := i - 1;
    }
    OneLess(before, i);
    bits[i] := bits[i] - 1;
    assert bits[..] == before[i := before[i] - 1];
  }

  lemma SomeLengthInUse(bits: seq<nat>)
    requires |bits| >= 17 && Fill(bits, 17) == Pow2(16)
    ensures exists l :: 0 <= l <= 16 && bits[l] > 0
  {
    if forall l :: 0 <= l < 17 ==> bits[l] == 0 {
      NothingFilled(bits, 17);
    }
  }

  lemma OneLess(bits: seq<nat>, i: nat)
    requires |bits| >= 17 && i <= 16 && bits[i] > 0
    ensures Fill(bits[i := bits[i] - 1], 17) < Fill(bits, 17)
    ensures Codes(bits[i := bits[i] - 1], 17) == Codes(bits, 17) - 1
  {
    hide Fill, Codes, Pow2;
    FillUpdate(bits, i, bits[i] - 1, 17);
    CodesUpdate(bits, i, bits[i] - 1, 17);
  }

  // ---------- the counts as a table ----------

  /** The code space that the listed lengths take is what the counts fill. */
  lemma {:induction false} SizesFill(bits: seq<nat>, l: nat)
    requires |bits| >= 17 && l <= 16 && bits[0] == 0
    ensures IsLengths(Sizes(bits, l)) && |Sizes(bits, l)| == Codes(bits, l + 1)
    ensures Left(Sizes(bits, l), |Sizes(bits, l)|) == ShiftLeft(Fill(bits, l + 1), 16 - l)
  {
    hide Left, ShiftLeft;
    SizesAscend(bits, l);
    if l == 0 {
      NothingLeft();
      NothingShifted(16);
    } else {
      SizesFill(bits, l - 1);
      LeftOfRepeat(Sizes(bits, l - 1), l, bits[l]);
      NextLength(Fill(bits, l), bits[l], 16 - l);
    }
  }

  lemma NothingLeft()
    ensures Left([], 0) == 0
  {
  }

  lemma NextLength(f: nat, b: nat, n: nat)
    ensures ShiftLeft(2 * f + b, n) == ShiftLeft(f, n + 1) + ShiftLeft(b, n)
  {
    var p := Pow2(n);
    assert f * (2 * p) == 2 * f * p;
    MulDistributes(2 * f, b, p);
  }

  lemma {:induction false} LeftOfRepeat(sizes: seq<nat>, l: nat, n: nat)
    requires IsLengths(sizes) && 1 <= l <= 16
    ensures IsLengths(sizes + Repeat(l, n))
    ensures Left(sizes + Repeat(l, n), |sizes| + n) == Left(sizes, |sizes|) + ShiftLeft(n, 16 - l)
  {
    if n == 0 {
      assert sizes + Repeat(l, n) == sizes;
    } else {
      LeftOfRepeat(sizes, l, n - 1);
      var s, t := sizes + Repeat(l, n - 1), sizes + Repeat(l, n);
      LeftOfPart(s, t, |s|);
      MulDistributes(n - 1, 1, Pow2(16 - l));
    }
  }

  lemma {:induction false} LeftOfPart(s: seq<nat>, t: seq<nat>, p: nat)
    requires IsLengths(s) && IsLengths(t) && p <= |s| && p <= |t| && s[..p] == t[..p]
    ensures Left(s, p) == Left(t, p)
  {
    if p > 0 {
      assert s[..p][p - 1] == t[..p][p - 1];
      assert s[..p - 1] == s[..p][..p - 1] && t[..p - 1] == t[..p][..p - 1];
      LeftOfPart(s, t, p - 1);
    }
  }
}
