/**
 * The integer quantiser of jcdctmgr.c: division by multiplication with a reciprocal and a
 * shift. DCTELEM has 16 bits with SIMD and 32 bits without; the width is a parameter here.
 */
module Quantizer {
  import opened Powers
  import opened Products

  const DCTSIZE2 := 64

  predicate IsWidth(w: nat) {
    w == 16 || w == 32
  }

  /** What a signed variable of w bits makes of a value, and what an unsigned one does. */
  function Signed(x: int, w: nat): int {
    var m := x % Pow2(w);
    if 2 * m < Pow2(w) then m else m - Pow2(w)
  }

  function Unsigned(x: int, w: nat): nat {
    x % Pow2(w)
  }

  // ---------- what quantising means ----------

  /** The quotient rounded to nearest, halves away from zero. Divisors below 1 act like 1. */
  function Rounded(x: int, d: nat): int {
    if d <= 1 then x
    else if x < 0 then -((Abs(x) + d / 2) / d)
    else (Abs(x) + d / 2) / d
  }

  /** It is the one number whose multiple is nearest to x. */
  lemma RoundedIsNearest(x: int, d: nat, q: nat)
    requires d > 1
    ensures Abs(Rounded(x, d)) == q <==> -(d as int) <= 2 * (Abs(x) - q * d) < d
  {
    var n := Abs(x) + d / 2;
    QuotientIs(n, d, q);
    var p := q * d;
    assert p <= n < p + d <==> -(d as int) <= 2 * (Abs(x) - p) < d;
  }

  // ---------- the bit length ----------

  /** Find the highest bit through binary search; every shift fits into the 16 bits. */
  method Flss(val0: nat) returns (bit: nat)
    requires val0 < 0x10000
    ensures bit <= 16 && val0 < Pow2(bit)
    ensures val0 > 0 ==> bit > 0 && Pow2(bit - 1) <= val0
  {
    hide Pow2;
    Small();
    var val := val0;
    bit := 16;
    if val == 0 {
      return 0;
    }
    if val / 0x100 == 0 {
      bit := bit - 8;
      val := val * 0x100 % 0x10000;
    }
    if val / 0x1000 == 0 {
      bit := bit - 4;
      val := val * 0x10 % 0x10000;
    }
    if val / 0x4000 == 0 {
      bit := bit - 2;
      val := val * 4 % 0x10000;
    }
    if val / 0x8000 == 0 {
      bit := bit - 1;
      val := val * 2 % 0x10000;
    }
  }

  lemma Small()
    ensures Pow2(0) == 1 && Pow2(1) == 2 && Pow2(2) == 4 && Pow2(3) == 8 && Pow2(4) == 0x10
    ensures Pow2(5) == 0x20 && Pow2(6) == 0x40 && Pow2(7) == 0x80 && Pow2(8) == 0x100
    ensures Pow2(9) == 0x200 && Pow2(10) == 0x400 && Pow2(11) == 0x800 && Pow2(12) == 0x1000
    ensures Pow2(13) == 0x2000 && Pow2(14) == 0x4000 && Pow2(15) == 0x8000 && Pow2(16) == 0x10000
  {
    Constants();
    Pow2Byte(0);
    Pow2Byte(1);
    Pow2Byte(2);
    Pow2Byte(4);
    Pow2Byte(5);
    Pow2Byte(6);
  }

  // ---------- the reciprocal ----------

  /** What compute_reciprocal stores for one divisor. */
  datatype Entry = Entry(recip: nat, corr: nat, shift: int)

  /** Multiplying with the reciprocal and shifting divides every 16-bit number. */
  ghost predicate Divides(e: Entry, d: nat, w: nat) {
    && e.recip < Pow2(w) && e.corr <= 0x8000 && e.shift + w >= 0
    && forall x: nat :: x < 0x8000 ==> ShiftRight(Times(x + e.corr, e.recip), e.shift + w) == Rounded(x, d)
  }

  lemma Cancel(a: nat, m: nat, p: nat, d: nat)
    requires d > 0 && Prod(a, d) <= Prod(m, d) < Prod(a, d) + Prod(p, d)
    ensures a <= m < a + p
  {
    hide Prod;
    if m < a {
      ProdMonotonic(m, a, d);
    } else if m >= a + p {
      ProdMonotonic(a + p, m, d);
      ProdSum(a, p, d);
    }
  }

  /** The reciprocal rounded down, and one added to the dividend. */
  lemma ReciprocalBelow(n: nat, d: nat, f: nat, fr: nat, p: nat)
    requires d > 0 && p == Prod(f, d) + fr && 0 < fr && Prod(n + 1, fr) <= p
    ensures p > 0 && Prod(n + 1, f) / p == n / d && Prod(n + 1, f) >= 0
  {
    hide Prod;
    var q, s, m := n / d, n % d, Prod(n + 1, f);
    ProdMonotonic(0, n + 1, fr);
    ProdMonotonic(1, n + 1, fr);
    ProdNatural(n + 1, f);
    ProdNatural(f, d);
    DivisionIs(n, d);
    ProdGroup(n + 1, f, d);
    ProdSum(Prod(f, d), fr, n + 1);
    ProdSum(Prod(q, d), s + 1, p);
    ProdGroup(q, d, p);
    ProdMonotonic(1, s + 1, p);
    ProdMonotonic(s + 1, d, p);
    ProdCommutes(d, p);
    ProdNatural(q, p);
    Cancel(Prod(q, p), m, p, d);
    BetweenMultiples(m, p, q);
  }

  /** The reciprocal rounded up. */
  lemma ReciprocalAbove(n: nat, d: nat, f: nat, e: nat, p: nat)
    requires d > 0 && p > 0 && Prod(f, d) == p + e && Prod(n, e) < p
    ensures Prod(n, f) / p == n / d && Prod(n, f) >= 0
  {
    hide Prod;
    var q, s, m := n / d, n % d, Prod(n, f);
    ProdNatural(n, f);
    ProdNatural(n, e);
    DivisionIs(n, d);
    ProdGroup(n, f, d);
    ProdSum(p, e, n);
    ProdSum(Prod(q, d), s, p);
    ProdGroup(q, d, p);
    ProdNatural(s, p);
    ProdMonotonic(s, d, p);
    ProdCommutes(d, p);
    ProdNatural(q, p);
    Cancel(Prod(q, p), m, p, d);
    BetweenMultiples(m, p, q);
  }

  /** A power of two: the reciprocal is exact. */
  lemma ReciprocalExact(n: nat, d: nat, u: nat)
    requires d > 0 && u > 0
    ensures Prod(d, u) > 0 && Prod(n, u) / Prod(d, u) == n / d && Prod(n, u) >= 0
  {
    hide Prod;
    var q, s := n / d, n % d;
    DivisionIs(n, d);
    ProdNatural(n, u);
    ProdNatural(s, u);
    ProdMonotonic(1, d, u);
    ProdSum(Prod(q, d), s, u);
    ProdGroup(q, d, u);
    ProdMonotonic(s, d, u);
    BetweenMultiples(Prod(n, u), Prod(d, u), q);
  }

  // ---------- the three cases of compute_reciprocal ----------

  /** The divisor and its bit length less one. */
  ghost predicate HasBits(d: nat, b: nat) {
    1 < d < 0x10000 && b <= 15 && Pow2(b) <= d < Pow2(b + 1)
  }

  lemma WidthFacts(b: nat, w: nat)
    requires IsWidth(w) && b <= 15
    ensures Pow2(w) >= 0x10000 && Pow2(w + b) == Prod(Pow2(w), Pow2(b)) && Pow2(b + 1) == 2 * Pow2(b)
    ensures Pow2(w) == 2 * Pow2(w - 1) && Pow2(w + b - 1) == Prod(Pow2(b), Pow2(w - 1))
  {
    Constants();
    Pow2Monotonic(16, w);
    Pow2Add(w, b);
    assert b + (w - 1) == w + b - 1;
    Pow2Add(b, w - 1);
  }

  /** Only a power of two divides a power of two. */
  lemma {:induction false} DivisorOfPower(d: nat, q: nat, r: nat) returns (k: nat)
    requires Prod(d, q) == Pow2(r)
    ensures d == Pow2(k)
    decreases r
  {
    if r == 0 {
      if q >= 1 {
        ProdMonotonic(1, q, d);
        ProdCommutes(d, q);
      }
      k := 0;
    } else if q % 2 == 0 {
      ProdHalf(d, q / 2);
      k := DivisorOfPower(d, q / 2, r - 1);
    } else {
      OddFactor(d, q);
      ProdCommutes(d, q);
      ProdHalf(q, d / 2);
      ProdCommutes(q, d / 2);
      k := DivisorOfPower(d / 2, q, r - 1);
      k := k + 1;
    }
  }

  lemma ProdHalf(x: nat, y: nat)
    ensures Prod(x, 2 * y) == 2 * Prod(x, y)
  {
    MulAssociative(x, 2, y);
    MulAssociative(2, x, y);
    assert x * 2 == 2 * x;
  }

  lemma OddFactor(d: nat, q: nat)
    requires Prod(d, q) % 2 == 0 && q % 2 == 1
    ensures d % 2 == 0
  {
    hide Prod;
    var h := q / 2;
    ProdSum(2 * h, 1, d);
    ProdHalf(d, h);
    ProdMonotonic(0, 1, d);
  }

  lemma RoundedIs(x: nat, d: nat)
    requires d > 1
    ensures Rounded(x, d) == (x + d / 2) / d
  {
  }

  lemma ShiftOfProd(n: nat, f: nat, r: nat)
    ensures ShiftRight(Times(n, f), r) == Prod(n, f) / Pow2(r)
  {
  }

  lemma IsPowerOfTwo(d: nat, b: nat, w: nat, f: nat)
    requires HasBits(d, b) && IsWidth(w) && Pow2(w + b) == Prod(f, d)
    ensures d == Pow2(b) && f == Pow2(w)
  {
    hide Prod, Pow2;
    WidthFacts(b, w);
    ProdCommutes(f, d);
    var k := DivisorOfPower(d, f, w + b);
    SamePower(k, b);
    if f < Pow2(w) {
      ProdMonotonic(f, Pow2(w), d);
    } else if f > Pow2(w) {
      ProdMonotonic(Pow2(w), f, d);
    }
  }

  lemma PowerOfTwoCase(d: nat, b: nat, w: nat)
    requires HasBits(d, b) && IsWidth(w) && d == Pow2(b)
    ensures Divides(Entry(Pow2(w) / 2, d / 2, b - 1), d, w)
  {
    hide Prod, Pow2, ShiftRight, Rounded, Times;
    WidthFacts(b, w);
    forall x: nat | x < 0x8000
      ensures ShiftRight(Times(x + d / 2, Pow2(w - 1)), b - 1 + w) == Rounded(x, d)
    {
      ReciprocalExact(x + d / 2, d, Pow2(w - 1));
      ShiftOfProd(x + d / 2, Pow2(w - 1), b - 1 + w);
      RoundedIs(x, d);
    }
  }

  lemma SamePower(k: nat, b: nat)
    requires Pow2(b) <= Pow2(k) < Pow2(b + 1)
    ensures k == b
  {
    if k < b {
      Pow2Monotonic(k + 1, b);
    } else if k > b {
      Pow2Monotonic(b + 1, k);
    }
  }

  lemma RoundDownCase(d: nat, b: nat, w: nat, f: nat, fr: nat)
    requires HasBits(d, b) && IsWidth(w) && Pow2(w + b) == Prod(f, d) + fr && 0 < fr <= d / 2
    ensures Divides(Entry(f, d / 2 + 1, b), d, w)
  {
    hide Prod, Pow2, ShiftRight, Rounded, Times;
    WidthFacts(b, w);
    var p := Pow2(w + b);
    if f >= Pow2(w) {
      ProdMonotonic(Pow2(w), f, d);
      ProdMonotonic(Pow2(b), d, Pow2(w));
      ProdCommutes(Pow2(b), Pow2(w));
      ProdCommutes(d, Pow2(w));
    }
    forall x: nat | x < 0x8000
      ensures ShiftRight(Times(x + (d / 2 + 1), f), b + w) == Rounded(x, d)
    {
      RoundDownOne(x, d, b, w, f, fr);
    }
  }

  lemma RoundDownOne(x: nat, d: nat, b: nat, w: nat, f: nat, fr: nat)
    requires x < 0x8000 && HasBits(d, b) && IsWidth(w)
    requires Pow2(w + b) == Prod(f, d) + fr && 0 < fr <= d / 2
    ensures ShiftRight(Times(x + (d / 2 + 1), f), b + w) == Rounded(x, d)
  {
    hide Prod, Pow2, ShiftRight, Rounded, Times;
    WidthFacts(b, w);
    var n, p := x + d / 2, Pow2(w + b);
    ProdMonotonic(n + 1, Pow2(w), fr);
    ProdMonotonic(fr, Pow2(b), Pow2(w));
    ProdCommutes(fr, Pow2(w));
    ProdCommutes(Pow2(b), Pow2(w));
    ReciprocalBelow(n, d, f, fr, p);
    ShiftOfProd(n + 1, f, b + w);
    RoundedIs(x, d);
  }

  lemma RoundUpCase(d: nat, b: nat, w: nat, f: nat, e: nat)
    requires HasBits(d, b) && IsWidth(w) && Prod(f, d) == Pow2(w + b) + e && 0 < e <= d / 2
    ensures Divides(Entry(f, d / 2, b), d, w)
  {
    hide Prod, Pow2, ShiftRight, Rounded, Times;
    WidthFacts(b, w);
    var p := Pow2(w + b);
    if d == Pow2(b) && f <= Pow2(w) {
      ProdMonotonic(f, Pow2(w), d);
    }
    if f >= Pow2(w) {
      ProdMonotonic(Pow2(w), f, d);
      ProdMonotonic(Pow2(b), d, Pow2(w));
      ProdCommutes(Pow2(b), Pow2(w));
      ProdCommutes(d, Pow2(w));
    }
    forall x: nat | x < 0x8000
      ensures ShiftRight(Times(x + d / 2, f), b + w) == Rounded(x, d)
    {
      RoundUpOne(x, d, b, w, f, e);
    }
  }

  lemma RoundUpOne(x: nat, d: nat, b: nat, w: nat, f: nat, e: nat)
    requires x < 0x8000 && HasBits(d, b) && IsWidth(w)
    requires Prod(f, d) == Pow2(w + b) + e && 0 < e <= d / 2
    ensures ShiftRight(Times(x + d / 2, f), b + w) == Rounded(x, d)
  {
    hide Prod, Pow2, ShiftRight, Rounded, Times;
    WidthFacts(b, w);
    var n, p := x + d / 2, Pow2(w + b);
    ProdMonotonic(n, Pow2(w), e);
    ProdMonotonic(e, Pow2(b), Pow2(w));
    ProdCommutes(e, Pow2(w));
    ProdCommutes(Pow2(b), Pow2(w));
    ReciprocalAbove(n, d, f, e, p);
    ShiftOfProd(n, f, b + w);
    RoundedIs(x, d);
  }

  // ---------- compute_reciprocal ----------

  /** Column i of a divisor table, its reciprocal and correction read as unsigned numbers. */
  ghost function EntryAt(dtbl: seq<int>, i: nat, w: nat): Entry
    requires i < DCTSIZE2 && |dtbl| == 4 * DCTSIZE2
  {
    Entry(Unsigned(dtbl[i], w), Unsigned(dtbl[i + DCTSIZE2], w), dtbl[i + 3 * DCTSIZE2])
  }

  lemma SignedAndBack(x: nat, w: nat)
    requires x < Pow2(w)
    ensures Unsigned(Signed(x, w), w) == x
  {
    hide Pow2;
    SmallRemainder(x, Pow2(w));
    if 2 * x >= Pow2(w) {
      NegativeRemainder(x, Pow2(w));
    }
  }

  lemma SmallRemainder(x: nat, p: nat)
    requires x < p
    ensures x % p == x
  {
    DivideUnique(x, p, 0, x);
  }

  lemma NegativeRemainder(x: nat, p: nat)
    requires x < p
    ensures (x - p) % p == x
  {
    var q, r := (x - p) / p, (x - p) % p;
    assert x - p == q * p + r;
    if q > -1 {
      MulMonotonic(0, q, p);
    } else if q < -1 {
      MulMonotonic(q, -2, p);
    }
  }

  /** The bits that a SIMD "multiply, keep the top half" leaves of a product. */
  function MulHigh(x: nat, y: nat): nat {
    Prod(x, y) / 0x10000 % 0x10000
  }

  /** The multiply-only quantisation of SIMD code, with 16-bit operands. */
  function TwoStep(x: nat, e: Entry, scale: nat): nat {
    MulHigh(MulHigh(x + e.corr, e.recip), scale)
  }

  ghost predicate TwoStepDivides(e: Entry, scale: nat, d: nat) {
    forall x: nat :: x < 0x8000 ==> TwoStep(x, e, scale) == Rounded(x, d)
  }

  /** The table is changed at most in the four entries of column i. */
  ghost predicate OnlyColumn(before: seq<int>, after: seq<int>, i: nat) {
    && |before| == |after|
    && forall j :: 0 <= j < |after| && j % DCTSIZE2 != i ==> after[j] == before[j]
  }

  method ComputeReciprocal(divisor: nat, dtbl: array<int>, i: nat, w: nat) returns (simd: nat)
    requires divisor < 0x10000 && IsWidth(w) && i < DCTSIZE2 && dtbl.Length == 4 * DCTSIZE2
    modifies dtbl
    ensures Divides(EntryAt(dtbl[..], i, w), divisor, w)
    ensures OnlyColumn(old(dtbl[..]), dtbl[..], i)
    ensures w == 16 ==>
              (simd == 1 <==> TwoStepDivides(EntryAt(dtbl[..], i, w), Unsigned(dtbl[i + 2 * DCTSIZE2], w), divisor))
  {
    hide Divides, TwoStepDivides, Pow2, Prod, Signed, Unsigned, Rounded, Quotient, Remainder;
    Small();
    WidthFacts(0, w);
    if divisor <= 1 {
      StoreEntry(dtbl, i, w, 1, 0, 1, -(w as int));
      IdentityCase(divisor, w);
      return 0;
    }
    var bits := Flss(divisor);
    var b := bits - 1;
    SmallBits(divisor, bits);
    var r := w + b;
    var fq, fr, c := Quotient(Pow2(r), divisor), Remainder(Pow2(r), divisor), divisor / 2;
    DivisionIs(Pow2(r), divisor);
    if fr == 0 {
      IsPowerOfTwo(divisor, b, w, fq);
      PowerOfTwoCase(divisor, b, w);
      fq := fq / 2;
      r := r - 1;
    } else if fr <= divisor / 2 {
      RoundDownCase(divisor, b, w, fq, fr);
      c := c + 1;
    } else {
      NextMultiple(fq, divisor);
      RoundUpCase(divisor, b, w, fq + 1, divisor - fr);
      fq := fq + 1;
    }
    ghost var e := Entry(fq, c, r - w);
    RecipFits(e, divisor, w);
    StoreEntry(dtbl, i, w, fq, c, if w == 16 then Pow2(2 * w - r) else 1, r - w);
    simd := if r <= 16 then 0 else 1;
    if w == 16 {
      if r > 16 {
        ScaleFits(e, divisor, r);
      } else {
        NoScale(e);
      }
    }
  }

  /** The four stores into the table. */
  method StoreEntry(dtbl: array<int>, i: nat, w: nat, recip: nat, corr: nat, scale: nat, shift: int)
    requires IsWidth(w) && i < DCTSIZE2 && dtbl.Length == 4 * DCTSIZE2
    requires recip < Pow2(w) && corr < Pow2(w)
    modifies dtbl
    ensures EntryAt(dtbl[..], i, w) == Entry(recip, corr, shift)
    ensures dtbl[i + 2 * DCTSIZE2] == Signed(scale, w)
    ensures OnlyColumn(old(dtbl[..]), dtbl[..], i)
  {
    hide Signed, Unsigned, Pow2;
    SignedAndBack(recip, w);
    SignedAndBack(corr, w);
    dtbl[i] := Signed(recip, w);
    dtbl[i + DCTSIZE2] := Signed(corr, w);
    dtbl[i + 2 * DCTSIZE2] := Signed(scale, w);
    dtbl[i + 3 * DCTSIZE2] := shift;
  }

  lemma IdentityCase(d: nat, w: nat)
    requires d <= 1 && IsWidth(w)
    ensures Divides(Entry(1, 0, -(w as int)), d, w)
    ensures w == 16 ==> !TwoStepDivides(Entry(1, 0, -(w as int)), Unsigned(Signed(1, w), w), d)
  {
    hide Pow2, Prod, Signed, Unsigned, ShiftRight;
    Small();
    Pow2Monotonic(16, w);
    SignedAndBack(1, w);
    forall x: nat | x < 0x8000
      ensures ShiftRight(Times(x + 0, 1), 0) == Rounded(x, d)
    {
      ShiftByNothing(x);
    }
    ProdIsTimes(1, 1);
    ProdIsTimes(0, 1);
    assert TwoStep(1, Entry(1, 0, -(w as int)), 1) == 0;
  }

  lemma ShiftByNothing(x: nat)
    ensures ShiftRight(x, 0) == x
  {
    DivideUnique(x, 1, x, 0);
  }

  lemma SmallBits(d: nat, bits: nat)
    requires 1 < d < 0x10000 && bits <= 16 && d < Pow2(bits) && bits > 0 && Pow2(bits - 1) <= d
    ensures HasBits(d, bits - 1) && bits >= 2
  {
    Small();
  }

  lemma RecipFits(e: Entry, d: nat, w: nat)
    requires Divides(e, d, w) && IsWidth(w)
    ensures e.recip < Pow2(w) && e.corr < Pow2(w)
  {
    Small();
    Pow2Monotonic(16, w);
  }

  /** With r above 16 the scale fits into 16 bits and the two multiplications shift by r. */
  lemma ScaleFits(e: Entry, d: nat, r: nat)
    requires Divides(e, d, 16) && 16 < r <= 31 && e.shift + 16 == r
    ensures TwoStepDivides(e, Unsigned(Signed(Pow2(32 - r), 16), 16), d)
  {
    hide Prod, Rounded;
    Small();
    Pow2Monotonic(32 - r, 15);
    var u := Pow2(32 - r);
    SignedAndBack(u, 16);
    Pow2Add(r - 16, 32 - r);
    assert r - 16 + (32 - r) == 16;
    forall x: nat | x < 0x8000
      ensures TwoStep(x, e, u) == Rounded(x, d)
    {
      var t := Prod(x + e.corr, e.recip);
      ShiftOfProd(x + e.corr, e.recip, r);
      ProdNatural(x + e.corr, e.recip);
      TopHalf(x + e.corr, e.recip);
      ReciprocalExact(t / 0x10000, Pow2(r - 16), u);
      DivideTwice(t, r - 16);
      assert 16 + (r - 16) == r;
      QuotientFits(t / 0x10000, Pow2(r - 16));
      assert Prod(Pow2(r - 16), u) == 0x10000 by { ProdIsTimes(Pow2(r - 16), u); }
    }
  }

  lemma TopHalf(x: nat, y: nat)
    requires x < 0x10000 && y < 0x10000
    ensures MulHigh(x, y) == Prod(x, y) / 0x10000 < 0x10000
  {
    hide Prod;
    ProdNatural(x, y);
    ProdMonotonic(x, 0xFFFF, y);
    ProdMonotonic(y, 0xFFFF, 0xFFFF);
    ProdCommutes(0xFFFF, y);
    ProdIsTimes(0xFFFF, 0xFFFF);
  }

  lemma QuotientFits(t: nat, p: nat)
    requires t < 0x10000 && p > 0
    ensures t / p < 0x10000
  {
    DivisionIs(t, p);
    if t / p >= 0x10000 {
      MulMonotonic(0x10000, t / p, p);
    }
  }

  lemma DivideTwice(t: nat, c: nat)
    ensures t / 0x10000 / Pow2(c) == t / Pow2(16 + c)
  {
    hide Pow2;
    Small();
    Pow2Add(16, c);
    ProdIsTimes(0x10000, Pow2(c));
    DivideByProduct(t, Pow2(c));
  }

  lemma DivideByProduct(t: nat, p: nat)
    requires p > 0
    ensures Prod(0x10000, p) > 0 && t / 0x10000 / p == t / Prod(0x10000, p)
  {
    hide Prod;
    var a := t / 0x10000;
    var q := a / p;
    DivisionIs(a, p);
    DivisionIs(t, 0x10000);
    ProdSum(Prod(q, p), a % p, 0x10000);
    ProdGroup(q, p, 0x10000);
    ProdCommutes(p, 0x10000);
    ProdMonotonic(a % p, p, 0x10000);
    ProdNatural(a % p, 0x10000);
    ProdMonotonic(1, p, 0x10000);
    assert Prod(a, 0x10000) == Prod(q, Prod(0x10000, p)) + Prod(a % p, 0x10000);
    assert Prod(a % p, 0x10000) + 0x10000 <= Prod(0x10000, p);
    BetweenMultiples(t, Prod(0x10000, p), q);
  }

  /** With r at most 16 the scale is 0 in 16 bits, and 1 / 2 would not be rounded up. */
  lemma NoScale(e: Entry)
    ensures !TwoStepDivides(e, Unsigned(Signed(Pow2(16), 16), 16), 2)
  {
    Small();
    assert TwoStep(1, e, 0) == 0;
    assert Rounded(1, 2) == 1;
  }

  // ---------- quantize ----------

  lemma RoundedIsSmaller(x: nat, d: nat)
    ensures 0 <= Rounded(x, d) <= x
  {
    if d > 1 {
      var n := x + d / 2;
      var q := n / d;
      assert n == q * d + n % d;
      if q > x {
        MulMonotonic(x + 1, q, d);
        MulDistributes(x, 1, d);
        MulMonotonic(1, d, x);
        MulCommutes(x, d);
      }
    }
  }

  lemma SmallSigned(x: int, w: nat)
    requires IsWidth(w) && -0x8000 < x < 0x8000
    ensures Signed(x, w) == x
  {
    Small();
    Pow2Monotonic(16, w);
    if x >= 0 {
      SmallRemainder(x, Pow2(w));
    } else {
      NegativeRemainder(x + Pow2(w), Pow2(w));
    }
  }

  lemma ProductFits(x: nat, recip: nat, w: nat)
    requires IsWidth(w) && x < 0x10000 && recip < Pow2(w)
    ensures Unsigned(Times(x, recip), 2 * w) == Times(x, recip)
  {
    hide Pow2;
    Small();
    Pow2Monotonic(16, w);
    Pow2Add(w, w);
    MulMonotonic(x, Pow2(w), recip);
    MulCommutes(Pow2(w), recip);
    if recip > 0 {
      MulStrict(recip, Pow2(w), Pow2(w));
    }
    SmallRemainder(x * recip, Pow2(2 * w));
  }

  /** One magnitude: multiply, shift, and back into the width of DCTELEM. */
  method DivideMagnitude(x: nat, recip: nat, corr: nat, shift: int, w: nat, ghost d: nat) returns (q: int)
    requires IsWidth(w) && x < 0x8000 && Divides(Entry(recip, corr, shift), d, w)
    ensures q == Rounded(x, d)
  {
    hide Signed, Unsigned, Rounded, ShiftRight, Pow2, Times;
    ProductFits(x + corr, recip, w);
    var product := Unsigned(Times(x + corr, recip), 2 * w);
    product := ShiftRight(product, shift + w);
    RoundedIsSmaller(x, d);
    SmallSigned(product, w);
    q := Signed(product, w);
  }

  /** The 64 divisors behind a table's columns. */
  ghost predicate IsDivisorTable(dtbl: seq<int>, d: seq<nat>, w: nat) {
    && |dtbl| == 4 * DCTSIZE2 && |d| == DCTSIZE2
    && forall i :: 0 <= i < DCTSIZE2 ==> Divides(EntryAt(dtbl, i, w), d[i], w)
  }

  /** quantize for 8-bit samples: the same as rounded division, for every 16-bit coefficient. */
  method Quantize(divisors: array<int>, workspace: array<int>, coefs: array<int>, w: nat, ghost d: seq<nat>)
    requires IsWidth(w) && IsDivisorTable(divisors[..], d, w)
    requires workspace.Length == coefs.Length == DCTSIZE2 && coefs != divisors && coefs != workspace
    requires forall i :: 0 <= i < DCTSIZE2 ==> -0x8000 < workspace[i] < 0x8000
    modifies coefs
    ensures forall i :: 0 <= i < DCTSIZE2 ==> coefs[i] == Rounded(workspace[i], d[i])
  {
    hide Divides, Signed, Unsigned, Rounded;
    ghost var table := divisors[..];
    var i := 0;
    while i < DCTSIZE2
      invariant 0 <= i <= DCTSIZE2 && divisors[..] == table && workspace[..] == old(workspace[..])
      invariant forall j :: 0 <= j < i ==> coefs[j] == Rounded(workspace[j], d[j])
    {
      var temp := workspace[i];
      var recip, corr := Unsigned(divisors[i], w), Unsigned(divisors[i + DCTSIZE2], w);
      var shift := divisors[i + 3 * DCTSIZE2];
      assert EntryAt(table, i, w) == Entry(recip, corr, shift);
      RoundedSign(temp, d[i]);
      if temp < 0 {
        temp := -temp;
        temp := DivideMagnitude(temp, recip, corr, shift, w, d[i]);
        temp := -temp;
      } else {
        temp := DivideMagnitude(temp, recip, corr, shift, w, d[i]);
      }
      SmallSigned(temp, 16);
      coefs[i] := Signed(temp, 16);
      i := i + 1;
    }
  }

  lemma RoundedSign(x: int, d: nat)
    ensures x < 0 ==> Rounded(x, d) == -Rounded(-x, d)
    ensures -0x8000 < x < 0x8000 ==> -0x8000 < Rounded(x, d) < 0x8000
  {
    RoundedIsSmaller(Abs(x), d);
  }

  /** quantize for wider samples, by plain division: the same function. */
  method QuantizeByDivision(divisors: array<int>, workspace: array<int>, coefs: array<int>)
    requires divisors.Length >= DCTSIZE2 && workspace.Length == coefs.Length == DCTSIZE2
    requires coefs != divisors && coefs != workspace
    requires forall i :: 0 <= i < DCTSIZE2 ==> divisors[i] > 0
    modifies coefs
    ensures forall i :: 0 <= i < DCTSIZE2 ==> coefs[i] == Signed(Rounded(workspace[i], divisors[i]), 16)
  {
    hide Signed;
    var i := 0;
    while i < DCTSIZE2
      invariant 0 <= i <= DCTSIZE2
      invariant divisors[..] == old(divisors[..]) && workspace[..] == old(workspace[..])
      invariant forall j :: 0 <= j < DCTSIZE2 ==> divisors[j] == old(divisors[j]) && workspace[j] == old(workspace[j])
      invariant forall j :: 0 <= j < i ==> coefs[j] == Signed(Rounded(workspace[j], divisors[j]), 16)
    {
      var qval, temp := divisors[i], workspace[i];
      if temp < 0 {
        temp := -temp;
        temp := temp + qval / 2;
        temp := if temp >= qval then temp / qval else 0;
        temp := -temp;
      } else {
        temp := temp + qval / 2;
        temp := if temp >= qval then temp / qval else 0;
      }
      DivisionOfSmall(workspace[i], qval);
      coefs[i] := Signed(temp, 16);
      i := i + 1;
    }
  }

  lemma DivisionOfSmall(x: int, d: nat)
    requires d > 0
    ensures var n := Abs(x) + d / 2;
            Rounded(x, d) == (if x < 0 then -1 else 1) * (if n >= d then n / d else 0)
  {
    var n := Abs(x) + d / 2;
    if n < d {
      QuotientIs(n, d, 0);
    }
  }

  // ---------- the divisors of the ISLOW method ----------

  /** What compute_reciprocal gets for a quantisation value: eight times it, in 16 bits. */
  function IslowDivisor(quantval: nat): nat {
    quantval * 8 % 0x10000
  }

  /** Coefficients are divided by eight times the value, all of them, exactly for values up to
      8191. For any larger one 32764 should give 0, but does not. */
  lemma IslowDividesByEightfold(quantval: nat)
    requires quantval < 0x10000
    ensures (forall x :: -0x8000 < x < 0x8000 ==> Rounded(x, IslowDivisor(quantval)) == Rounded(x, 8 * quantval))
       <==> quantval <= 8191
    ensures quantval > 8191 ==> Rounded(32764, 8 * quantval) == 0 != Rounded(32764, IslowDivisor(quantval))
  {
    var d := IslowDivisor(quantval);
    if quantval <= 8191 {
      assert d == 8 * quantval;
    } else {
      assert d <= 0xFFF8;
      QuotientIs(32764 + 4 * quantval, 8 * quantval, 0);
      if d > 1 {
        QuotientIs(32764 + d / 2, d, 0);
      }
      assert Rounded(32764, 8 * quantval) == 0;
      assert Rounded(32764, d) != 0;
    }
  }

  /** The ISLOW branch of start_pass_fdctmgr for one table; says whether the multiply-only
      quantiser may be used, which is so exactly if it is right for every divisor. */
  method StartPassIslow(quantval: seq<nat>, divisors: array<int>, w: nat, ghost d: seq<nat>) returns (simd: bool)
    requires |quantval| == DCTSIZE2 && IsWidth(w) && divisors.Length == 4 * DCTSIZE2
    requires |d| == DCTSIZE2 && forall i :: 0 <= i < DCTSIZE2 ==> d[i] == IslowDivisor(quantval[i])
    modifies divisors
    ensures IsDivisorTable(divisors[..], d, w)
    ensures w == 16 ==>
              (simd <==> forall i :: 0 <= i < DCTSIZE2 ==> TwoStepAt(divisors[..], i, d[i]))
  {
    hide Divides, TwoStepDivides, Unsigned, IslowDivisor;
    simd := true;
    var i := 0;
    while i < DCTSIZE2
      invariant 0 <= i <= DCTSIZE2
      invariant forall j :: 0 <= j < i ==> Divides(EntryAt(divisors[..], j, w), d[j], w)
      invariant w == 16 ==> (simd <==> forall j :: 0 <= j < i ==> TwoStepAt(divisors[..], j, d[j]))
    {
      ghost var before := divisors[..];
      IslowDivisorFits(quantval[i]);
      var r := ComputeReciprocal(IslowDivisor(quantval[i]), divisors, i, w);
      forall j | 0 <= j < i
        ensures EntryAt(divisors[..], j, w) == EntryAt(before, j, w)
        ensures TwoStepAt(divisors[..], j, d[j]) == TwoStepAt(before, j, d[j])
      {
        OtherColumn(before, divisors[..], i, j);
      }
      simd := simd && r == 1;
      i := i + 1;
    }
  }

  /** A table made for its quantisation values and then used: what every coefficient becomes. */
  method QuantizeIslow(quantval: seq<nat>, divisors: array<int>, workspace: array<int>, coefs: array<int>, w: nat)
    requires |quantval| == DCTSIZE2 && IsWidth(w) && divisors.Length == 4 * DCTSIZE2
    requires forall i :: 0 <= i < DCTSIZE2 ==> quantval[i] < 0x10000
    requires workspace.Length == coefs.Length == DCTSIZE2
    requires coefs != divisors && coefs != workspace && divisors != workspace
    requires forall i :: 0 <= i < DCTSIZE2 ==> -0x8000 < workspace[i] < 0x8000
    modifies divisors, coefs
    ensures forall i :: 0 <= i < DCTSIZE2 ==> coefs[i] == Rounded(workspace[i], IslowDivisor(quantval[i]))
    ensures forall i :: 0 <= i < DCTSIZE2 && quantval[i] <= 8191 ==> coefs[i] == Rounded(workspace[i], 8 * quantval[i])
  {
    hide IsDivisorTable, Rounded, IslowDivisor, TwoStepAt;
    ghost var d := seq(DCTSIZE2, i requires 0 <= i < DCTSIZE2 => IslowDivisor(quantval[i]));
    var simd := StartPassIslow(quantval, divisors, w, d);
    Quantize(divisors, workspace, coefs, w, d);
    forall i | 0 <= i < DCTSIZE2 && quantval[i] <= 8191
      ensures coefs[i] == Rounded(workspace[i], 8 * quantval[i])
    {
      IslowDividesByEightfold(quantval[i]);
    }
  }

  ghost predicate TwoStepAt(dtbl: seq<int>, i: nat, d: nat)
    requires i < DCTSIZE2 && |dtbl| == 4 * DCTSIZE2
  {
    TwoStepDivides(EntryAt(dtbl, i, 16), Unsigned(dtbl[i + 2 * DCTSIZE2], 16), d)
  }

  lemma IslowDivisorFits(quantval: nat)
    ensures IslowDivisor(quantval) < 0x10000
  {
  }

  lemma OtherColumn(before: seq<int>, after: seq<int>, i: nat, j: nat)
    requires OnlyColumn(before, after, i) && |before| == 4 * DCTSIZE2 && j < DCTSIZE2 && i < DCTSIZE2 && i != j
    ensures after[j] == before[j] && after[j + DCTSIZE2] == before[j + DCTSIZE2]
    ensures after[j + 2 * DCTSIZE2] == before[j + 2 * DCTSIZE2] && after[j + 3 * DCTSIZE2] == before[j + 3 * DCTSIZE2]
  {
  }
}
