/** Bitwise operators on machine words, as far as the bit packer uses them. */
module Words {
  import opened Powers

  function BitAnd(x: nat, y: nat): nat
    decreases x
  {
    if x == 0 || y == 0 then 0
    else 2 * BitAnd(x / 2, y / 2) + (if x % 2 == 1 && y % 2 == 1 then 1 else 0)
  }

  function BitOr(x: nat, y: nat): nat
    decreases x + y
  {
    if x == 0 && y == 0 then 0
    else 2 * BitOr(x / 2, y / 2) + (if x % 2 == 1 || y % 2 == 1 then 1 else 0)
  }

  /** The complement in a word of n bytes. */
  function BitNot(x: nat, n: nat): nat
    requires x < Pow2(8 * n)
  {
    Pow2(8 * n) - 1 - x
  }

  /** Filling in below a shifted value: nothing overlaps, so OR adds. */
  lemma {:induction false} OrFillsIn(x: nat, n: nat, y: nat)
    requires y < Pow2(n)
    ensures BitOr(ShiftLeft(x, n), y) == ShiftLeft(x, n) + y
    decreases n, x
  {
    if n == 0 {
      if x > 0 {
        OrFillsIn(x / 2, 0, 0);
      }
    } else {
      Halve(x, n);
      OrFillsIn(x, n - 1, y / 2);
    }
  }

  lemma Halve(x: nat, n: nat)
    requires n > 0
    ensures ShiftLeft(x, n) == 2 * ShiftLeft(x, n - 1)
  {
    MulAssociative(x, 2, Pow2(n - 1));
    MulAssociative(2, x, Pow2(n - 1));
    assert x * 2 == 2 * x;
  }

  lemma AndStep(x: nat, y: nat)
    ensures BitAnd(x, y) == 2 * BitAnd(x / 2, y / 2) + (if x % 2 == 1 && y % 2 == 1 then 1 else 0)
  {
  }

  lemma {:induction false} AndSplits(a: nat, b: nat, c: nat, d: nat, n: nat)
    requires b < Pow2(n) && d < Pow2(n)
    ensures BitAnd(ShiftLeft(a, n) + b, ShiftLeft(c, n) + d) == ShiftLeft(BitAnd(a, c), n) + BitAnd(b, d)
    decreases n
  {
    hide BitAnd, ShiftLeft;
    if n == 0 {
      AndStep(0, 0);
      NoShift(a);
      NoShift(c);
      NoShift(BitAnd(a, c));
      NothingToAnd();
    } else {
      HalfShift(a, n, b);
      HalfShift(c, n, d);
      AndStep(ShiftLeft(a, n) + b, ShiftLeft(c, n) + d);
      AndStep(b, d);
      Halve(BitAnd(a, c), n);
      AndSplits(a, b / 2, c, d / 2, n - 1);
    }
  }

  lemma NothingToAnd()
    ensures BitAnd(0, 0) == 0
  {
  }

  lemma NoShift(x: nat)
    ensures ShiftLeft(x, 0) == x
  {
  }

  lemma ByByte(x: nat)
    ensures ShiftLeft(x, 8) == 256 * x && ShiftLeft(x, 7) == 128 * x
  {
    Constants();
    assert Pow2(8) == 2 * Pow2(7);
  }

  lemma AndBytes(a: nat, b: nat, c: nat, d: nat)
    requires b < 256 && d < 256
    ensures BitAnd(256 * a + b, 256 * c + d) == 256 * BitAnd(a, c) + BitAnd(b, d)
  {
    Constants();
    AndSplits(a, b, c, d, 8);
    ByByte(a);
    ByByte(c);
    ByByte(BitAnd(a, c));
  }

  lemma AndTopBit(y: nat)
    requires y < 256
    ensures BitAnd(y, 0x80) == if y >= 0x80 then 0x80 else 0
  {
    hide BitAnd;
    Top(y / 128, y % 128);
  }

  lemma Top(h: nat, r: nat)
    requires h < 2 && r < 128
    ensures BitAnd(128 * h + r, 0x80) == 0x80 * h
  {
    assert Pow2(7) == 128 by { Constants(); assert Pow2(8) == 2 * Pow2(7); }
    AndSplits(h, r, 1, 0, 7);
    ByByte(h);
    ByByte(1);
    ByByte(BitAnd(h, 1));
    assert BitAnd(r, 0) == 0;
    assert BitAnd(h, 1) == h;
  }

  // ---------- the word-wide test for 0xFF bytes ----------

  /** 0x01 in each of n bytes. */
  function Ones(n: nat): (x: nat)
    ensures x < Pow2(8 * n)
  {
    if n == 0 then 0
    else
      Pow2Byte(8 * (n - 1));
      256 * Ones(n - 1) + 1
  }

  /** put_buffer & 0x8080... & ~(put_buffer + 0x0101...), the sum taken modulo the word. */
  function SwarTest(x: nat, n: nat): nat
  {
    BitAnd(BitAnd(x, 0x80 * Ones(n)), BitNot((x + Ones(n)) % Pow2(8 * n), n))
  }

  /** One of the n bytes of x is 0xFF. */
  predicate HasFF(x: nat, n: nat) {
    n > 0 && (x % 256 == 0xFF || HasFF(x / 256, n - 1))
  }

  lemma OnesStep(n: nat)
    requires n > 0
    ensures Ones(n) == 256 * Ones(n - 1) + 1
  {
  }

  lemma SumByByte(a: nat, b: nat, n: nat)
    requires n > 0 && b < 256
    ensures var p := Pow2(8 * (n - 1));
            && Pow2(8 * n) == 256 * p
            && (256 * a + b + Ones(n)) % Pow2(8 * n)
               == if b == 255 then 256 * ((a + 1 + Ones(n - 1)) % p) else 256 * ((a + Ones(n - 1)) % p) + (b + 1)
  {
    hide Pow2, Ones;
    var p := Pow2(8 * (n - 1));
    OnesStep(n);
    Pow2Byte(8 * (n - 1));
    assert 8 * n == 8 * (n - 1) + 8;
    if b == 255 {
      assert 256 * a + b + Ones(n) == 256 * (a + 1 + Ones(n - 1)) + 0;
      ScaledModulo(a + 1 + Ones(n - 1), 0, p);
    } else {
      assert 256 * a + b + Ones(n) == 256 * (a + Ones(n - 1)) + (b + 1);
      ScaledModulo(a + Ones(n - 1), b + 1, p);
    }
  }

  lemma ScaledModulo(s: nat, t: nat, p: nat)
    requires p > 0 && t < 256
    ensures (256 * s + t) % (256 * p) == 256 * (s % p) + t
  {
    var q := s / p;
    assert s == q * p + s % p;
    assert 256 * (q * p) == q * (256 * p) by {
      MulAssociative(q, 256, p);
      MulAssociative(256, q, p);
      assert q * 256 == 256 * q;
    }
    DivideUnique(256 * s + t, 256 * p, q, 256 * (s % p) + t);
  }

  /** The test is nonzero exactly when some byte of the word is 0xFF: a lower 0xFF byte may
      carry into the test of the bytes above it, but it has then been noticed itself. */
  lemma {:induction false} SwarTestFindsFF(x: nat, n: nat)
    requires x < Pow2(8 * n)
    ensures SwarTest(x, n) != 0 <==> HasFF(x, n)
    decreases n
  {
    if n > 0 {
      hide SwarTest, BitAnd, Pow2;
      var a, b := x / 256, x % 256;
      assert HasFF(x, n) <==> b == 0xFF || HasFF(a, n - 1);
      hide HasFF;
      assert x == 256 * a + b;
      SwarTestByByte(a, b, n);
      SwarTestFindsFF(a, n - 1);
    } else {
      assert BitAnd(x, 0) == 0;
    }
  }

  /** An 0xFF byte shows in its own byte of the test; any other byte tests zero and leaves the
      test of the rest alone. */
  lemma SwarTestByByte(a: nat, b: nat, n: nat)
    requires n > 0 && b < 256 && 256 * a + b < Pow2(8 * n)
    ensures a < Pow2(8 * (n - 1))
    ensures b == 255 ==> SwarTest(256 * a + b, n) != 0
    ensures b != 255 ==> SwarTest(256 * a + b, n) == 256 * SwarTest(a, n - 1)
  {
    hide BitAnd, Ones, Pow2, HasFF;
    var p, h := Pow2(8 * (n - 1)), 0x80 * Ones(n - 1);
    OnesStep(n);
    assert 0x80 * Ones(n) == 256 * h + 0x80;
    SumByByte(a, b, n);
    var high := if b == 255 then (a + 1 + Ones(n - 1)) % p else (a + Ones(n - 1)) % p;
    var low := if b == 255 then 0 else b + 1;
    assert BitNot((256 * a + b + Ones(n)) % Pow2(8 * n), n) == 256 * BitNot(high, n - 1) + (255 - low);
    AndTopBit(b);
    AndBytes(a, b, h, 0x80);
    AndBytes(BitAnd(a, h), BitAnd(b, 0x80), BitNot(high, n - 1), 255 - low);
    LowByteTests(b, low);
    assert SwarTest(256 * a + b, n)
        == 256 * BitAnd(BitAnd(a, h), BitNot(high, n - 1)) + (if b == 255 then 0x80 else 0);
  }

  lemma LowByteTests(b: nat, low: nat)
    requires b < 256 && low == if b == 255 then 0 else b + 1
    ensures BitAnd(if b >= 0x80 then 0x80 else 0, 255 - low) == if b == 255 then 0x80 else 0
  {
    hide BitAnd;
    AndZero(255 - low);
    if b >= 0x80 {
      AndCommutes(0x80, 255 - low);
      AndTopBit(255 - low);
    }
  }

  lemma AndZero(y: nat)
    ensures BitAnd(0, y) == 0
  {
  }

  lemma {:induction false} AndCommutes(x: nat, y: nat)
    ensures BitAnd(x, y) == BitAnd(y, x)
    decreases x
  {
    if x > 0 && y > 0 {
      AndCommutes(x / 2, y / 2);
    }
  }
}
