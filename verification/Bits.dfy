/** Bit strings, most significant bit first, and their packing into bytes. */
module Bits {
  import opened Powers
  import opened CodeBytes

  /** The n low bits of v. */
  function ToBits(v: nat, n: nat): (b: seq<bool>)
    ensures |b| == n
  {
    if n == 0 then [] else ToBits(v / 2, n - 1) + [v % 2 == 1]
  }

  function FromBits(b: seq<bool>): (v: nat)
  {
    if b == [] then 0 else 2 * FromBits(b[..|b| - 1]) + (if b[|b| - 1] then 1 else 0)
  }

  lemma FromBitsSnoc(b: seq<bool>, x: bool)
    ensures FromBits(b + [x]) == 2 * FromBits(b) + (if x then 1 else 0)
  {
    assert (b + [x])[..|b|] == b;
  }

  lemma {:induction false} FromBitsBound(b: seq<bool>)
    ensures FromBits(b) < Pow2(|b|)
  {
    if b != [] {
      FromBitsBound(b[..|b| - 1]);
    }
  }

  lemma {:induction false} FromToBits(v: nat, n: nat)
    requires v < Pow2(n)
    ensures FromBits(ToBits(v, n)) == v
  {
    if n > 0 {
      FromToBits(v / 2, n - 1);
      FromBitsSnoc(ToBits(v / 2, n - 1), v % 2 == 1);
    }
  }

  lemma {:induction false} ToFromBits(b: seq<bool>)
    ensures ToBits(FromBits(b), |b|) == b
  {
    if b != [] {
      ToFromBits(b[..|b| - 1]);
      assert b == b[..|b| - 1] + [b[|b| - 1]];
    }
  }

  /** Shifting x left by n and filling in y puts their bits side by side. */
  lemma {:induction false} ToBitsAppend(x: nat, m: nat, y: nat, n: nat)
    requires y < Pow2(n)
    ensures ToBits(ShiftLeft(x, n) + y, m + n) == ToBits(x, m) + ToBits(y, n)
    decreases n
  {
    if n == 0 {
      assert ShiftLeft(x, 0) == x;
      assert ToBits(x, m) + [] == ToBits(x, m);
    } else {
      HalfShift(x, n, y);
      ToBitsAppend(x, m, y / 2, n - 1);
    }
  }

  /** Bits above the n lowest do not matter. */
  lemma {:induction false} ToBitsModulo(v: nat, n: nat, w: nat)
    requires n <= w
    ensures ToBits(v % Pow2(w), n) == ToBits(v, n)
    decreases n
  {
    if n > 0 {
      HalfModulo(v, Pow2(w - 1));
      ToBitsModulo(v / 2, n - 1, w - 1);
    }
  }

  lemma HalfModulo(v: nat, p: nat)
    requires p > 0
    ensures v % (2 * p) / 2 == v / 2 % p && v % (2 * p) % 2 == v % 2
  {
    var n := 2 * p;
    HalfQuotient(v, p, Quotient(v, n), v % n);
  }

  lemma HalfQuotient(v: nat, p: nat, q: nat, r: nat)
    requires p > 0 && v == q * (2 * p) + r && r < 2 * p
    ensures r / 2 == v / 2 % p && r % 2 == v % 2
  {
    MulScaled(q, 2, p);
    var t := q * p;
    assert v == 2 * t + r;
    DivideUnique(v / 2, p, q, r / 2);
  }

  /** The top bits of v, and below them the n low ones. */
  lemma ToBitsSplit(v: nat, m: nat, n: nat)
    ensures ToBits(v, m + n) == ToBits(ShiftRight(v, n), m) + ToBits(v, n)
  {
    var p := Pow2(n);
    ToBitsAppend(ShiftRight(v, n), m, v % p, n);
    ToBitsModulo(v, n, n);
  }

  // ---------- bytes ----------

  /** The bits of a byte string. */
  function BitsOf(s: seq<nat>): (b: seq<bool>)
    ensures |b| == 8 * |s|
  {
    if s == [] then [] else BitsOf(s[..|s| - 1]) + ToBits(s[|s| - 1], 8)
  }

  lemma BitsOfSnoc(s: seq<nat>, x: nat)
    ensures BitsOf(s + [x]) == BitsOf(s) + ToBits(x, 8)
  {
    assert (s + [x])[..|s|] == s;
  }

  lemma {:induction false} BitsOfAppend(s: seq<nat>, t: seq<nat>)
    ensures BitsOf(s + t) == BitsOf(s) + BitsOf(t)
  {
    if t == [] {
      assert s + t == s;
    } else {
      var u, x := t[..|t| - 1], t[|t| - 1];
      assert s + t == (s + u) + [x] && t == u + [x];
      BitsOfSnoc(s + u, x);
      BitsOfSnoc(u, x);
      BitsOfAppend(s, u);
    }
  }

  /** Whole bytes of a bit string. */
  function BytesFrom(b: seq<bool>): (s: seq<nat>)
    requires |b| % 8 == 0
    ensures 8 * |s| == |b| && IsBytes(s)
    decreases |b|
  {
    if b == [] then []
    else
      FromBitsBound(b[|b| - 8..]);
      assert Pow2(8) == 256 by { Constants(); }
      BytesFrom(b[..|b| - 8]) + [FromBits(b[|b| - 8..])]
  }

  lemma {:induction false} BytesFromBitsOf(s: seq<nat>)
    requires IsBytes(s)
    ensures BytesFrom(BitsOf(s)) == s
  {
    if s != [] {
      hide BitsOf, ToBits, FromBits, Pow2;
      var u, x := s[..|s| - 1], s[|s| - 1];
      assert s == u + [x];
      BitsOfSnoc(u, x);
      BytesFromBitsOf(u);
      Constants();
      FromToBits(x, 8);
      var b := BitsOf(s);
      assert b[..|b| - 8] == BitsOf(u) && b[|b| - 8..] == ToBits(x, 8);
    }
  }

  lemma {:induction false} BitsOfBytesFrom(b: seq<bool>)
    requires |b| % 8 == 0
    ensures BitsOf(BytesFrom(b)) == b
    decreases |b|
  {
    if b != [] {
      hide BitsOf, ToBits, FromBits, Pow2;
      var u, x := b[..|b| - 8], b[|b| - 8..];
      assert BytesFrom(b) == BytesFrom(u) + [FromBits(x)];
      hide BytesFrom;
      BitsOfBytesFrom(u);
      ToFromBits(x);
      BitsOfSnoc(BytesFrom(u), FromBits(x));
      assert b == u + x;
    }
  }

  /** Section F.1.2.3: the last byte is filled with one bits. */
  function Padded(b: seq<bool>): (p: seq<bool>)
    ensures |p| % 8 == 0 && b <= p && |p| < |b| + 8
  {
    b + seq((8 - |b| % 8) % 8, _ => true)
  }

  /** A bit string as an entropy-coded segment. */
  function SegmentOf(b: seq<bool>): (s: seq<nat>) {
    Stuff(BytesFrom(Padded(b)))
  }
}
