/**
 * What the Huffman coder's symbols, codes, bits and segments look like, said without the functions
 * that make them: canonical codes (Annex C of T.81), run lengths and extra bits (section F.1.2),
 * padding and stuffing (sections F.1.2.3 and B.1.1.5).
 */
module HuffmanLaws {
  import opened Powers
  import opened CodeBytes
  import opened Bits
  import opened HuffTable
  import opened BlockSymbols
  import opened ZigZag

  // ---------- codes ----------

  /** The first code is all zeroes, and the next is always one more, with zeroes behind if it is
      longer. */
  lemma CodesAreCanonical(sizes: seq<nat>, p: nat)
    requires IsCode(sizes) && p < |sizes|
    ensures Code(sizes, 0) == 0
    ensures p + 1 < |sizes| ==>
              sizes[p] <= sizes[p + 1] && Code(sizes, p + 1) == (Code(sizes, p) + 1) * Pow2(sizes[p + 1] - sizes[p])
  {
    FirstCode(sizes);
    if p + 1 < |sizes| {
      CodeAfter(sizes, p, sizes[p + 1]);
    }
  }

  lemma FirstCode(sizes: seq<nat>)
    requires IsLengths(sizes) && sizes != []
    ensures Code(sizes, 0) == 0
  {
    DivideUnique(0, Pow2(16 - sizes[0]), 0, 0);
  }

  // ---------- extra bits ----------

  /** The most significant bit comes first. */
  lemma {:induction false} ToBitsAt(x: nat, n: nat, i: nat)
    requires i < n
    ensures ToBits(x, n)[i] <==> x / Pow2(n - 1 - i) % 2 == 1
  {
    if i < n - 1 {
      ToBitsAt(x / 2, n - 1, i);
      HalfFirst(x, Pow2(n - 2 - i));
    }
  }

  lemma HalfFirst(x: nat, p: nat)
    requires p > 0
    ensures x / (2 * p) == x / 2 / p
  {
    var h := x / 2;
    var q, r := h / p, h % p;
    MulScaled(q, 2, p);
    var t := q * p;
    assert h == t + r;
    DivideUnique(x, 2 * p, q, 2 * r + x % 2);
  }

  lemma {:induction false} ComplementBits(x: nat, n: nat, i: nat)
    requires x < Pow2(n) && i < n
    ensures ToBits(Pow2(n) - 1 - x, n)[i] != ToBits(x, n)[i]
  {
    if i < n - 1 {
      ComplementBits(x / 2, n - 1, i);
      assert (Pow2(n) - 1 - x) / 2 == Pow2(n - 1) - 1 - x / 2;
    }
  }

  /** The extra bits are the magnitude in binary, each bit inverted if the value is negative. */
  lemma ExtraBits(v: int, i: nat)
    requires i < NBits(Abs(v))
    ensures |Extra(v, NBits(Abs(v)))| == NBits(Abs(v))
    ensures Extra(v, NBits(Abs(v)))[i] <==> ((Abs(v) / Pow2(NBits(Abs(v)) - 1 - i) % 2 == 1) != (v < 0))
  {
    hide NBits, Pow2, ToBits;
    var n, a := NBits(Abs(v)), Abs(v);
    NBitsIsTight(a);
    ToBitsAt(a, n, i);
    if v < 0 {
      DivideNegative(v - 1, Pow2(n));
      ComplementBits(a, n, i);
    } else {
      SmallModulo(v, Pow2(n));
    }
  }

  // ---------- symbols ----------

  function LongRuns(n: nat): (items: seq<Item>)
    ensures |items| == n && forall i :: 0 <= i < n ==> items[i] == Item(false, 0xF0, [])
  {
    seq(n, _ => Item(false, 0xF0, []))
  }

  /** A coefficient behind r zeroes: a symbol 0xF0 for each 16 of them, and then the rest of the run
      in the upper half of the symbol and the number of bits in the lower. */
  lemma {:induction false} RunSymbols(r: nat, v: int)
    requires NBits(Abs(v)) < 16
    ensures RunItems(r, v)
         == LongRuns(r / 16) + [Item(false, 0x10 * (r % 16) + NBits(Abs(v)), Extra(v, NBits(Abs(v))))]
  {
    hide NBits, Extra;
    if r >= 16 {
      RunSymbols(r - 16, v);
      assert (r - 16) / 16 == r / 16 - 1 && (r - 16) % 16 == r % 16;
      assert [Item(false, 0xF0, [])] + LongRuns(r / 16 - 1) == LongRuns(r / 16);
    }
  }

  /** From position k on the first nonzero coefficient is at p: its run and itself come first. */
  lemma {:induction false} RunIsSent(z: Block, k: nat, r: nat, p: nat, m: nat)
    requires 1 <= k <= p < 64 && m < 16 && AcInRange(z, k, m)
    requires z[p] != 0 && forall i :: k <= i < p ==> z[i] == 0
    ensures NBits(Abs(z[p])) < 16 && AcItems(z, k, r, m) == RunItems(p - k + r, z[p]) + AcItems(z, p + 1, 0, m)
    decreases p - k
  {
    hide NBits, RunItems;
    if k < p {
      RunIsSent(z, k + 1, r + 1, p, m);
    }
  }

  /** Zeroes to the end of the block are one symbol, and none if there are none. */
  lemma {:induction false} EndIsSent(z: Block, k: nat, r: nat, m: nat)
    requires 1 <= k <= 64 && m < 16 && AcInRange(z, k, m) && forall i :: k <= i < 64 ==> z[i] == 0
    ensures AcItems(z, k, r, m) == if k + r > 64 || k < 64 then [Item(false, 0x00, [])] else []
    decreases 64 - k
  {
    hide NBits, RunItems;
    if k < 64 {
      EndIsSent(z, k + 1, r + 1, m);
    }
  }

  /** The DC symbol is the number of bits of the difference. */
  lemma DcSymbol(diff: int, z: Block, m: nat)
    requires m < 15 && InRange(diff, z, m)
    ensures BlockItems(diff, z, m)[0] == Item(true, NBits(Abs(diff)), Extra(diff, NBits(Abs(diff))))
    ensures BlockItems(diff, z, m)[1..] == AcItems(z, 1, 0, m)
  {
  }

  /** What can be coded: magnitudes below a power of two, twice as large for the DC difference. */
  lemma InRangeIs(diff: int, z: Block, m: nat)
    ensures InRange(diff, z, m) <==> Abs(diff) < Pow2(m + 1) && forall k :: 1 <= k < 64 ==> Abs(z[k]) < Pow2(m)
  {
    hide NBits, Pow2;
    NBitsBound(Abs(diff), m + 1);
    forall k | 1 <= k < 64
      ensures NBits(Abs(z[k])) <= m <==> Abs(z[k]) < Pow2(m)
    {
      NBitsBound(Abs(z[k]), m);
    }
  }

  // ---------- segments ----------

  /** Padding is by ones, up to the next whole byte. */
  lemma PaddingIsOnes(b: seq<bool>, i: nat)
    requires |b| <= i < |Padded(b)|
    ensures Padded(b)[i] && |Padded(b)| == (|b| + 7) / 8 * 8
  {
  }

  /** Byte number i is made of bits 8 i to 8 i + 7. */
  lemma {:induction false} ByteOfBits(b: seq<bool>, i: nat)
    requires |b| % 8 == 0 && 8 * i < |b|
    ensures BytesFrom(b)[i] == FromBits(b[8 * i..8 * i + 8])
    decreases |b|
  {
    var front := b[..|b| - 8];
    if 8 * i < |front| {
      ByteOfBits(front, i);
      assert front[8 * i..8 * i + 8] == b[8 * i..8 * i + 8];
    } else {
      assert 8 * i == |front| && b[|front|..] == b[8 * i..8 * i + 8];
    }
  }

  /** No marker can be found inside a segment: every 0xFF in it is followed by a zero. */
  lemma {:induction false} NoMarkerInside(s: seq<nat>, i: nat)
    requires i < |Stuff(s)| && Stuff(s)[i] == 0xFF
    ensures i + 1 < |Stuff(s)| && Stuff(s)[i + 1] == 0
    decreases |s|
  {
    var front := s[..|s| - 1];
    if i < |Stuff(front)| {
      NoMarkerInside(front, i);
    }
  }
}
