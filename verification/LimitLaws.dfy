/**
 * Which lengths the limiting to 16 bits leaves alone (section K.2 of T.81): the short ones, for as
 * long as the longer codes fit behind them at all.
 */
module LimitLaws {
  import opened Powers
  import opened LengthLimit

  /** The codes longer than m fit behind those of lengths up to m, at 16 bits each. */
  ghost predicate HasRoom(bits: seq<nat>, m: nat, n: nat)
    requires m < |bits| && m <= 16
  {
    n - Codes(bits, m + 1) <= (Pow2(m) - Fill(bits, m + 1)) * Pow2(16 - m)
  }

  /** A complete code of n codes, none longer than i. */
  ghost predicate IsComplete(bits: seq<nat>, i: nat, n: nat) {
    i < |bits| && Fill(bits, i + 1) == Pow2(i) && Codes(bits, i + 1) == n < 256
  }

  /** Lengths up to m are the same. */
  ghost predicate SameUpTo(bits: seq<nat>, other: seq<nat>, m: nat) {
    m < |bits| && m < |other| && forall l :: 0 <= l <= m ==> bits[l] == other[l]
  }

  /** No length from m + 1 to k is in use. */
  lemma {:induction false} FillOver(bits: seq<nat>, m: nat, k: nat)
    requires m <= k < |bits| && forall l :: m < l <= k ==> bits[l] == 0
    ensures Fill(bits, k + 1) == Fill(bits, m + 1) * Pow2(k - m) && Codes(bits, k + 1) == Codes(bits, m + 1)
    decreases k
  {
    hide Fill, Codes, Pow2;
    if m < k {
      FillOver(bits, m, k - 1);
      NextFill(bits, k);
      TwoTimes(Fill(bits, m + 1), k - 1 - m);
    } else {
      NoPower();
    }
  }

  /** With only the lengths i - 1 and i in use beyond m, what they fill. */
  lemma LastTwo(bits: seq<nat>, m: nat, i: nat) returns (a: nat)
    requires m <= 16 < i < |bits| && Donor(bits, i) <= m
    ensures Fill(bits, i + 1) <= Fill(bits, m + 1) * Pow2(i - m) + 2 * a + bits[i]
    ensures Codes(bits, i + 1) == Codes(bits, m + 1) + a + bits[i]
  {
    hide Fill, Codes, Pow2, Donor;
    NextFill(bits, i);
    if m <= i - 2 {
      a := bits[i - 1];
      NextFill(bits, i - 1);
      FillOver(bits, m, i - 2);
      FourTimes(Fill(bits, m + 1), i - 2 - m);
    } else {
      a := 0;
      OnePower();
    }
  }

  lemma NextFill(bits: seq<nat>, m: nat)
    requires m < |bits|
    ensures Fill(bits, m + 1) == 2 * Fill(bits, m) + bits[m] && Codes(bits, m + 1) == Codes(bits, m) + bits[m]
  {
  }

  lemma FourTimes(f: nat, k: nat)
    ensures f * Pow2(k + 2) == 4 * (f * Pow2(k))
  {
    var p := Pow2(k);
    assert Pow2(k + 2) == 2 * Pow2(k + 1) == 4 * p;
    assert f * (4 * p) == 4 * (f * p);
  }

  lemma TwoTimes(f: nat, k: nat)
    ensures f * Pow2(k + 1) == 2 * (f * Pow2(k))
  {
    var p := Pow2(k);
    assert f * (2 * p) == 2 * (f * p);
  }

  lemma NoRoom(open: int, a: nat, b: nat, m: nat, i: nat)
    requires m <= 16 < i && b > 0 && open * Pow2(i - m) <= 2 * a + b
    ensures open * Pow2(16 - m) < a + b
  {
    hide Pow2;
    Pow2Add(16 - m, i - 16);
    assert 16 - m + (i - 16) == i - m;
    Pow2Monotonic(1, i - 16);
    assert Pow2(1) == 2 by { OnePower(); }
    var x, q := open * Pow2(16 - m), Pow2(i - 16);
    MulAssociative(open, Pow2(16 - m), q);
    assert x * q <= 2 * a + b;
    if x >= a + b {
      MulMonotonic(a + b, x, q);
      MulMonotonic(2, q, a + b);
      MulCommutes(q, a + b);
    }
  }

  lemma NoPower()
    ensures Pow2(0) == 1
  {
  }

  lemma OnePower()
    ensures Pow2(1) == 2
  {
  }

  /** The space that f nodes of depth m leave, in units of 2^-i. */
  lemma OpenSpace(p: nat, f: nat, m: nat, i: nat)
    requires m <= i && p == Pow2(m)
    ensures (p - f) * Pow2(i - m) == Pow2(i) - f * Pow2(i - m)
  {
    hide Pow2;
    Pow2Add(m, i - m);
    assert m + (i - m) == i;
    MulDistributes(p - f, f, Pow2(i - m));
  }

  /** While there is room behind the lengths up to m, the donor is longer. */
  lemma DonorIsLonger(bits: seq<nat>, m: nat, i: nat, n: nat)
    requires m <= 16 < i && IsComplete(bits, i, n) && bits[i] > 0 && HasRoom(bits, m, n)
    ensures Donor(bits, i) > m
  {
    if Donor(bits, i) <= m {
      hide Fill, Codes, Pow2, Donor;
      var open := Pow2(m) - Fill(bits, m + 1);
      var a := LastTwo(bits, m, i);
      OpenSpace(Pow2(m), Fill(bits, m + 1), m, i);
      NoRoom(open, a, bits[i], m, i);
    }
  }

  lemma RoomIsSame(bits: seq<nat>, other: seq<nat>, m: nat, n: nat)
    requires m <= 16 && SameUpTo(bits, other, m)
    ensures HasRoom(bits, m, n) <==> HasRoom(other, m, n)
  {
    FillSame(bits, other, m + 1);
  }

  lemma LongCodes(bits: seq<nat>, i: nat, n: nat)
    requires 17 <= i && IsComplete(bits, i, n)
    ensures bits[i] == 0 ==> IsComplete(bits, i - 1, n) && Limited(bits, i) == Limited(bits, i - 1)
    ensures bits[i] > 0 ==>
              && bits[i] >= 2 && Donor(bits, i) > 0
              && IsComplete(Moved(bits, i, Donor(bits, i)), i, n)
              && Moved(bits, i, Donor(bits, i))[i] < bits[i]
              && Limited(bits, i) == Limited(Moved(bits, i, Donor(bits, i)), i)
  {
    hide Fill, Codes, Moved, Donor;
    if bits[i] == 0 {
      UnusedLength(bits, i);
    } else {
      DonorExists(bits, i);
      MovedKeeps(bits, i, Donor(bits, i));
    }
  }

  lemma MovedSame(bits: seq<nat>, i: nat, j: nat, m: nat)
    requires m < j && 1 <= j < i - 1 && i < |bits| && bits[i] >= 2 && bits[j] > 0
    ensures SameUpTo(Moved(bits, i, j), bits, m)
  {
  }

  /** What comes out is complete within 16 bits. */
  lemma {:induction false} LimitedIsComplete(bits: seq<nat>, i: nat, n: nat)
    requires 16 <= i && IsComplete(bits, i, n)
    ensures IsComplete(Limited(bits, i), 16, n)
    decreases i, bits[i]
  {
    hide IsComplete, Moved, Donor;
    if i > 16 {
      InRange(bits, i, n);
      LongCodes(bits, i, n);
      if bits[i] == 0 {
        LimitedIsComplete(bits, i - 1, n);
      } else {
        LimitedIsComplete(Moved(bits, i, Donor(bits, i)), i, n);
      }
    }
  }

  lemma InRange(bits: seq<nat>, i: nat, n: nat)
    requires IsComplete(bits, i, n)
    ensures i < |bits|
  {
  }

  lemma {:induction false} KeptWithRoom(bits: seq<nat>, i: nat, m: nat, n: nat)
    requires m <= 16 <= i && IsComplete(bits, i, n) && HasRoom(bits, m, n)
    ensures SameUpTo(Limited(bits, i), bits, m)
    decreases i, bits[i]
  {
    hide IsComplete, Moved, Donor, HasRoom;
    InRange(bits, i, n);
    if i > 16 {
      LongCodes(bits, i, n);
      if bits[i] == 0 {
        KeptWithRoom(bits, i - 1, m, n);
      } else {
        DonorIsLonger(bits, m, i, n);
        var moved := Moved(bits, i, Donor(bits, i));
        MovedSame(bits, i, Donor(bits, i), m);
        RoomIsSame(moved, bits, m, n);
        KeptWithRoom(moved, i, m, n);
      }
    }
  }

  /** Codes of lengths from m + 1 to k take at least one unit of 2^-k each. */
  lemma {:induction false} CodesTakeRoom(bits: seq<nat>, m: nat, k: nat)
    requires m <= k < |bits|
    ensures Codes(bits, k + 1) - Codes(bits, m + 1) <= Fill(bits, k + 1) - Fill(bits, m + 1) * Pow2(k - m)
    ensures Codes(bits, k + 1) >= Codes(bits, m + 1)
    decreases k
  {
    hide Fill, Codes, Pow2;
    if m < k {
      CodesTakeRoom(bits, m, k - 1);
      NextFill(bits, k);
      TwoTimes(Fill(bits, m + 1), k - 1 - m);
    } else {
      NoPower();
    }
  }

  /** No code with lengths up to 16 can keep those up to m unless there is room. */
  lemma RoomIsNeeded(bits: seq<nat>, other: seq<nat>, m: nat, n: nat)
    requires m <= 16 < |other| && SameUpTo(bits, other, m)
    requires Fill(other, 17) <= Pow2(16) && Codes(other, 17) == n
    ensures HasRoom(bits, m, n)
  {
    hide Fill, Codes, Pow2;
    CodesTakeRoom(other, m, 16);
    RoomIsSame(bits, other, m, n);
    OpenSpace(Pow2(m), Fill(other, m + 1), m, 16);
  }

  /**
   * The lengths up to m keep all their codes if and only if that is possible: if some code of as
   * many codes, none longer than 16, has the same number of each of these lengths.
   */
  lemma KeptIfPossible(bits: seq<nat>, m: nat, n: nat)
    requires |bits| == 33 && m <= 16 && IsComplete(bits, 32, n)
    ensures SameUpTo(Limited(bits, 32), bits, m) <==> HasRoom(bits, m, n)
    ensures HasRoom(bits, m, n) <==>
            exists other :: IsPrefixCode(other, n) && SameUpTo(bits, other, m)
  {
    hide IsComplete, HasRoom, Limited, SameUpTo;
    LimitedIsComplete(bits, 32, n);
    CompleteIsCode(Limited(bits, 32), n);
    SameBothWays(bits, Limited(bits, 32), m);
    if HasRoom(bits, m, n) {
      KeptWithRoom(bits, 32, m, n);
    }
    forall other | IsPrefixCode(other, n) && SameUpTo(bits, other, m)
      ensures HasRoom(bits, m, n)
    {
      RoomIsNeeded(bits, other, m, n);
    }
  }

  /** Counts of n codes of lengths up to 16 that can be told apart. */
  ghost predicate IsPrefixCode(bits: seq<nat>, n: nat) {
    |bits| > 16 && Fill(bits, 17) <= Pow2(16) && Codes(bits, 17) == n
  }

  lemma CompleteIsCode(bits: seq<nat>, n: nat)
    requires IsComplete(bits, 16, n)
    ensures IsPrefixCode(bits, n)
  {
  }

  lemma SameBothWays(bits: seq<nat>, other: seq<nat>, m: nat)
    ensures SameUpTo(bits, other, m) <==> SameUpTo(other, bits, m)
  {
  }

  /** Lengths that are short enough from the start are kept, all of them. */
  lemma ShortCodesHaveRoom(bits: seq<nat>, m: nat, n: nat)
    requires |bits| == 33 && m <= 16 && IsComplete(bits, 32, n) && forall l :: 17 <= l < 33 ==> bits[l] == 0
    ensures HasRoom(bits, m, n)
  {
    hide IsComplete, HasRoom, Limited;
    LimitedIsSame(bits, 32);
    LimitedIsComplete(bits, 32, n);
    CompleteIsCode(bits, n);
    RoomIsNeeded(bits, bits, m, n);
  }

  lemma {:induction false} LimitedIsSame(bits: seq<nat>, i: nat)
    requires 16 <= i < |bits| && forall l :: 17 <= l <= i ==> bits[l] == 0
    ensures Limited(bits, i) == bits
    decreases i
  {
    if i > 16 {
      LimitedIsSame(bits, i - 1);
    }
  }
}
