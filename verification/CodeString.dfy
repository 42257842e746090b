/** The code string that ends a segment: which number of the interval it is, and that it is the
    only one written for that interval. */
module CodeString {
  import opened Powers
  import opened CodeBytes
  import opened IntervalCoder

  /** The code string that termination chooses. */
  function FinalCode(c: nat, a: nat): (chosen: nat)
    requires 0x8000 <= a <= 0x10000
    ensures c <= chosen < c + a
  {
    var temp := (a - 1 + c) / 0x10000 * 0x10000;
    if temp < c then temp + 0x8000 else temp
  }

  lemma FinalCodeIsAligned(c: nat, a: nat)
    requires 0x8000 <= a <= 0x10000
    ensures FinalCode(c, a) % 0x8000 == 0
  {
    var q := (a - 1 + c) / 0x10000;
    var k := if q * 0x10000 < c then 2 * q + 1 else 2 * q;
    assert FinalCode(c, a) == k * 0x8000;
    MultipleOf(FinalCode(c, a), k, 0x8000);
  }

  /** No number in the interval is divisible by a higher power of two than the chosen one. */
  lemma FinalCodeHasMostTrailingZeros(c: nat, a: nat, x: nat, j: nat)
    requires 0x8000 <= a <= 0x10000
    requires c <= x < c + a && x % Pow2(j) == 0
    ensures FinalCode(c, a) % Pow2(j) == 0
  {
    if j <= 15 {
      FinalCodeIsAligned(c, a);
      LowPowerDivides(FinalCode(c, a), j);
    } else {
      // a multiple of 2 to the 16th in so short an interval is the only one there
      HighPowerDivides(x, j);
      OnlyMultiple(c, a, x);
    }
  }

  lemma LowPowerDivides(y: nat, j: nat)
    requires j <= 15 && y % 0x8000 == 0
    ensures y % Pow2(j) == 0
  {
    assert Pow2(15) == 0x8000 by { Constants(); }
    Pow2Add(15 - j, j);
    var q := y / 0x8000;
    assert y == q * (Pow2(15 - j) * Pow2(j));
    MulAssociative(q, Pow2(15 - j), Pow2(j));
    MultipleOf(y, q * Pow2(15 - j), Pow2(j));
  }

  lemma HighPowerDivides(x: nat, j: nat)
    requires j >= 16 && x % Pow2(j) == 0
    ensures x % 0x10000 == 0
  {
    Constants();
    Pow2Add(j - 16, 16);
    var q := x / Pow2(j);
    assert x == q * Pow2(j);
    MulAssociative(q, Pow2(j - 16), 0x10000);
    MultipleOf(x, q * Pow2(j - 16), 0x10000);
  }

  lemma OnlyMultiple(c: nat, a: nat, x: nat)
    requires 0x8000 <= a <= 0x10000
    requires c <= x < c + a && x % 0x10000 == 0
    ensures FinalCode(c, a) == x
  {
  }

  /** Choosing is not affected by bytes already moved out of the register. */
  lemma FinalCodeMoves(c: nat, a: nat, t: nat)
    requires 0x8000 <= a <= 0x10000
    ensures FinalCode(0x10000 * t + c, a) == 0x10000 * t + FinalCode(c, a)
  {
    assert (a - 1 + (0x10000 * t + c)) / 0x10000 == t + (a - 1 + c) / 0x10000;
  }

  /** The first m bytes of e are exactly the chosen number of the interval. */
  ghost predicate Spells(e: seq<nat>, m: nat, iv: Interval)
    requires iv.Normalized()
  {
    && |e| <= m
    && 8 * m >= 16 + iv.shifts
    && Prefix(e, m) == FinalCode(iv.low, iv.a) * Pow2(8 * m - 16 - iv.shifts)
  }

  /** e is the code string of the interval: the chosen number without trailing zero bytes. */
  ghost predicate IsCodeString(e: seq<nat>, iv: Interval)
    requires iv.Normalized()
  {
    IsBytes(e) && NoTrailingZero(e) && exists m: nat :: Spells(e, m, iv)
  }

  lemma CodeStringIsInside(e: seq<nat>, iv: Interval)
    requires iv.Normalized() && IsCodeString(e, iv)
    ensures CodeIn(e, iv)
  {
    var m: nat :| Spells(e, m, iv);
    var unit := Pow2(8 * m - 16 - iv.shifts);
    MulMonotonic(iv.low, FinalCode(iv.low, iv.a), unit);
    MulStrict(FinalCode(iv.low, iv.a), iv.low + iv.a, unit);
    ExactPrefixDecides(e, m, iv);
  }

  lemma {:induction false} SpellsOn(e: seq<nat>, m: nat, k: nat, iv: Interval)
    requires iv.Normalized() && Spells(e, m, iv) && m <= k
    ensures Spells(e, k, iv)
    decreases k
  {
    if m < k {
      SpellsOn(e, m, k - 1, iv);
      NextUnit(k - 1, iv);
      Rescale(FinalCode(iv.low, iv.a), 128 * Pow2(8 * (k - 1) - 16 - iv.shifts),
              Pow2(8 * (k - 1) - 16 - iv.shifts));
      assert Prefix(e, k) == 256 * Prefix(e, k - 1) + At(e, k - 1);
    }
  }

  lemma {:induction false} SamePrefixSameBytes(e: seq<nat>, f: seq<nat>, m: nat)
    requires IsBytes(e) && IsBytes(f) && Prefix(e, m) == Prefix(f, m)
    ensures forall i :: 0 <= i < m ==> At(e, i) == At(f, i)
  {
    if m > 0 {
      assert Prefix(e, m) == 256 * Prefix(e, m - 1) + At(e, m - 1);
      assert Prefix(f, m) == 256 * Prefix(f, m - 1) + At(f, m - 1);
      SamePrefixSameBytes(e, f, m - 1);
    }
  }

  lemma LastByteCounts(e: seq<nat>, f: seq<nat>)
    requires NoTrailingZero(e) && (e != [] ==> At(f, |e| - 1) == At(e, |e| - 1))
    ensures |e| <= |f|
  {
  }

  /** An interval has one code string: what is written depends on the decisions alone. */
  lemma CodeStringIsUnique(e: seq<nat>, f: seq<nat>, iv: Interval)
    requires iv.Normalized() && IsCodeString(e, iv) && IsCodeString(f, iv)
    ensures e == f
  {
    var m: nat :| Spells(e, m, iv);
    var n: nat :| Spells(f, n, iv);
    var k := if m < n then n else m;
    SpellsOn(e, m, k, iv);
    SpellsOn(f, n, k, iv);
    SamePrefixSameBytes(e, f, k);
    LastByteCounts(e, f);
    LastByteCounts(f, e);
    assert forall i :: 0 <= i < |e| ==> e[i] == At(e, i) && f[i] == At(f, i);
  }

  // ---------- the code string as a function of the interval ----------

  function Trim(s: seq<nat>): (t: seq<nat>)
    ensures NoTrailingZero(t) && |t| <= |s|
    ensures IsBytes(s) ==> IsBytes(t)
  {
    if s != [] && s[|s| - 1] == 0 then Trim(s[..|s| - 1]) else s
  }

  lemma {:induction false} TrimKeepsPrefix(s: seq<nat>, m: nat)
    ensures Prefix(Trim(s), m) == Prefix(s, m)
    decreases |s|
  {
    if s != [] && s[|s| - 1] == 0 {
      TrimKeepsPrefix(s[..|s| - 1], m);
      ZeroKeepsPrefix(s[..|s| - 1], m);
      assert s == s[..|s| - 1] + [0];
    }
  }

  lemma {:induction false} ZeroKeepsPrefix(s: seq<nat>, m: nat)
    ensures Prefix(s + [0], m) == Prefix(s, m)
  {
    if m > 0 {
      ZeroKeepsPrefix(s, m - 1);
      assert At(s + [0], m - 1) == At(s, m - 1);
    }
  }

  /** The number of bytes that resolve the interval. */
  function Resolution(iv: Interval): (m: nat)
    ensures 16 + iv.shifts <= 8 * m
  {
    (16 + iv.shifts + 7) / 8
  }

  /** The bytes with which the encoder ends a segment in this interval. */
  function CodeStringOf(iv: Interval): (e: seq<nat>)
    requires iv.Normalized()
    ensures IsBytes(e) && NoTrailingZero(e)
  {
    var m := Resolution(iv);
    Trim(BytesOf(ShiftLeft(FinalCode(iv.low, iv.a), 8 * m - 16 - iv.shifts), m))
  }

  lemma CodeStringExists(iv: Interval)
    requires iv.Normalized() && iv.InUnit()
    ensures IsCodeString(CodeStringOf(iv), iv)
  {
    var m, code := Resolution(iv), FinalCode(iv.low, iv.a);
    var unit := Pow2(8 * m - 16 - iv.shifts);
    var v := ShiftLeft(code, 8 * m - 16 - iv.shifts);
    assert v < Pow2(8 * m) by {
      Pow2Add(16 + iv.shifts, 8 * m - 16 - iv.shifts);
      MulStrict(code, Pow2(16 + iv.shifts), unit);
    }
    var s := BytesOf(v, m);
    BytesOfValue(v, m);
    PrefixOfPart(s, m);
    assert s[..m] == s;
    TrimKeepsPrefix(s, m);
    assert Spells(CodeStringOf(iv), m, iv);
  }

  /** Whoever produces the code string of the interval produces these bytes. */
  lemma CodeStringIsThis(e: seq<nat>, iv: Interval)
    requires iv.Normalized() && iv.InUnit() && IsCodeString(e, iv)
    ensures e == CodeStringOf(iv)
  {
    CodeStringExists(iv);
    CodeStringIsUnique(e, CodeStringOf(iv), iv);
  }
}
