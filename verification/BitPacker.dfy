/**
 * The word-wide bit accumulator of jchuff.c (PUT_BITS, PUT_AND_FLUSH, FLUSH, EMIT_BYTE and
 * flush_bits), writing into a block buffer. The accumulator has 8 or 4 bytes; its bits above
 * the pending ones are stale and must never get out.
 */
module BitPacker {
  import opened Powers
  import opened CodeBytes
  import opened Bits
  import opened Words

  /** Bytes a block or a flush can write: 248 data bytes, all stuffed. The speculative zero
      behind the last of them fits as well. */
  const ROOM := 496

  class Packer {
    const n: nat           // bytes in the accumulator
    var putBuffer: nat
    var freeBits: int
    const buf: array<nat>  // the local buffer, or the destination's when it has BUFSIZE room
    var pos: nat

    ghost const head: seq<nat> // what is in the buffer already
    ghost var raw: seq<nat>    // what went in behind it, before stuffing
    ghost var bits: seq<bool>  // pending bits at the start, and everything put since

    ghost predicate Valid()
      reads this, buf
    {
      && (n == 8 || n == 4)
      && buf.Length >= |head| + ROOM
      && 0 <= freeBits <= 8 * n && putBuffer < Pow2(8 * n)
      && pos <= buf.Length
      && IsBytes(raw) && buf[..pos] == head + Stuff(raw)
      && BitsOf(raw) + Pending() == bits
    }

    ghost function Pending(): seq<bool>
      reads this
      requires freeBits <= 8 * n
    {
      ToBits(putBuffer, 8 * n - freeBits)
    }

    /** LOAD_BUFFER with the accumulator saved by the previous block. */
    constructor (n: nat, putBuffer: nat, freeBits: int, buf: array<nat>, start: nat)
      requires (n == 8 || n == 4) && buf.Length >= start + ROOM
      requires 0 <= freeBits <= 8 * n && putBuffer < Pow2(8 * n)
      ensures Valid() && this.n == n && this.buf == buf
      ensures this.putBuffer == putBuffer && this.freeBits == freeBits
      ensures raw == [] && bits == ToBits(putBuffer, 8 * n - freeBits)
      ensures pos == start && head == buf[..start]
    {
      this.n, this.putBuffer, this.freeBits, this.buf := n, putBuffer, freeBits, buf;
      pos, head, raw, bits := start, buf[..start], [], ToBits(putBuffer, 8 * n - freeBits);
      new;
      assert BitsOf(raw) + Pending() == bits;
    }

    /** Two bytes of the buffer for every byte's worth of bits are enough. */
    lemma Extent()
      requires Valid()
      ensures pos <= |head| + 2 * (|bits| / 8)
    {
      StuffLength(raw);
    }

    ghost predicate Holds()
      reads this, buf
    {
      pos <= buf.Length && IsBytes(raw) && buf[..pos] == head + Stuff(raw)
    }

    /** EMIT_BYTE: the zero behind the byte counts only if the byte is 0xFF. */
    method EmitByte(b: nat)
      requires Holds() && b < 256 && |head| + 2 * |raw| + 2 <= buf.Length
      modifies `pos, `raw, buf
      ensures Holds() && raw == old(raw) + [b]
    {
      StuffLength(raw);
      StuffSnoc(raw, b);
      ghost var before := head + Stuff(raw);
      buf[pos] := b;
      buf[pos + 1] := 0;
      assert buf[..pos] == before;
      pos := pos + (if b < 0xFF then 1 else 2);
      raw := raw + [b];
    }

    /** FLUSH with an 0xFF byte in the word: byte by byte. */
    method EmitWord(w: nat)
      requires Holds() && |head| + 2 * (|raw| + n) <= buf.Length
      modifies `pos, `raw, buf
      ensures Holds() && raw == old(raw) + BytesOf(w, n)
    {
      var i: nat := 0;
      while i < n
        invariant i <= n && Holds()
        invariant raw == old(raw) + BytesOf(ShiftRight(w, 8 * (n - i)), i)
      {
        NextByte(w, n, i);
        EmitByte(ShiftRight(w, 8 * (n - i - 1)) % 256);
        i := i + 1;
      }
      assert ShiftRight(w, 0) == w;
    }

    /** FLUSH without one: the bytes go out as they are. */
    method CopyWord(w: nat)
      requires Holds() && |head| + 2 * (|raw| + n) <= buf.Length
      requires 0xFF !in BytesOf(w, n)
      modifies `pos, `raw, buf
      ensures Holds() && raw == old(raw) + BytesOf(w, n)
    {
      hide Stuff, ShiftRight, Pow2, BytesOf;
      StuffLength(raw);
      ghost var before, bytes := head + Stuff(raw), BytesOf(w, n);
      StuffNothing(bytes);
      StuffAppend(raw, bytes);
      assert head + Stuff(raw + bytes) == before + bytes;
      ShiftRightZero(w);
      NoBytes(ShiftRight(w, 8 * n));
      var i: nat := 0;
      while i < n
        invariant i <= n && pos + n <= buf.Length && pos == old(pos) && raw == old(raw)
        invariant buf[..pos] == before
        invariant buf[pos..pos + i] == BytesOf(ShiftRight(w, 8 * (n - i)), i)
      {
        NextByte(w, n, i);
        ghost var written := buf[pos..pos + i];
        buf[pos + i] := ShiftRight(w, 8 * (n - i - 1)) % 256;
        assert buf[pos..pos + i] == written;
        assert buf[pos..pos + i + 1] == written + [buf[pos + i]];
        i := i + 1;
      }
      assert buf[..pos + n] == before + bytes;
      pos := pos + n;
      raw := raw + bytes;
    }

    method Flush(w: nat)
      requires Holds() && |head| + 2 * (|raw| + n) <= buf.Length && w < Pow2(8 * n)
      modifies `pos, `raw, buf
      ensures Holds() && raw == old(raw) + BytesOf(w, n)
    {
      SwarTestFindsFF(w, n);
      FFAmongBytes(w, n);
      if SwarTest(w, n) != 0 {
        EmitWord(w);
      } else {
        CopyWord(w);
      }
    }

    /** PUT_AND_FLUSH: freeBits is already negative. */
    method PutAndFlush(code: nat, size: nat)
      requires Holds() && putBuffer < Pow2(8 * n) && |head| + 2 * (|raw| + n) <= buf.Length
      requires 0 <= size + freeBits && freeBits < 0 && size < 32 && size + freeBits <= 8 * n
      requires code < Pow2(size)
      modifies `putBuffer, `freeBits, `pos, `raw, buf
      ensures Holds() && putBuffer == code && freeBits == old(freeBits) + 8 * n
      ensures |raw| == old(|raw|) + n
      ensures BitsOf(raw) + ToBits(code, -old(freeBits))
           == old(BitsOf(raw)) + old(ToBits(putBuffer, 8 * n - size - freeBits)) + ToBits(code, size)
    {
      hide ToBits, BitsOf, BytesOf, Stuff, Pow2, BitOr, ShiftLeft, ShiftRight;
      var open: nat, rest: nat := size + freeBits, -freeBits;
      WordIsFull(putBuffer, 8 * n, open, code, rest);
      var word := BitOr(ShiftLeft(putBuffer, open) % Pow2(8 * n), ShiftRight(code, rest));
      BitsOfWord(word, n);
      BitsOfAppend(raw, BytesOf(word, n));
      ghost var before := BitsOf(raw);
      Flush(word);
      assert before + ToBits(word, 8 * n) + ToBits(code, rest)
          == before + (ToBits(word, 8 * n) + ToBits(code, rest));
      freeBits := freeBits + 8 * n;
      putBuffer := code;
    }

    /** PUT_BITS appends the code to the bit string. The shifts it makes are shorter than the
        accumulator, and the bits it writes are whole words. */
    method PutBits(code: nat, size: nat)
      requires Valid() && size < 32 && code < Pow2(size)
      requires |bits| + size < 4 * ROOM + 8
      modifies `putBuffer, `freeBits, `pos, `raw, `bits, buf
      ensures Valid() && bits == old(bits) + ToBits(code, size)
    {
      hide ToBits, BitsOf, BytesOf, Stuff, Pow2, BitOr, ShiftLeft, ShiftRight;
      freeBits := freeBits - size;
      Pow2Monotonic(size, 8 * n);
      if freeBits < 0 {
        PutAndFlush(code, size);
      } else {
        CodeFits(putBuffer, 8 * n, 8 * n - freeBits - size, code, size);
        putBuffer := BitOr(ShiftLeft(putBuffer, size) % Pow2(8 * n), code);
        assert BitsOf(raw) + Pending() == bits + ToBits(code, size);
      }
      bits := bits + ToBits(code, size);
    }

    /** flush_bits: the last partial byte is filled with ones and the accumulator emptied. */
    method FlushBits()
      requires Valid() && |bits| + 7 <= 4 * ROOM
      modifies `putBuffer, `freeBits, `pos, `raw, `bits, buf
      ensures Valid() && bits == old(Padded(bits))
      ensures putBuffer == 0 && freeBits == 8 * n
      ensures raw == BytesFrom(bits) && buf[..pos] == head + old(SegmentOf(bits))
    {
      hide BitsOf, ToBits, Stuff, Pow2, BitOr, ShiftLeft, ShiftRight, BytesFrom, Padded;
      var putBits := 8 * n - freeBits;
      while putBits >= 8
        invariant 0 <= putBits <= 8 * n && Holds()
        invariant BitsOf(raw) + ToBits(putBuffer, putBits) == bits
        invariant bits == old(bits) && putBuffer == old(putBuffer)
      {
        putBits := putBits - 8;
        TakeByte(raw, putBuffer, putBits);
        EmitByte(ShiftRight(putBuffer, putBits) % 256);
      }
      if putBits == 0 {
        PaddedBy(bits, 0);
      } else {
        FillWithOnes(raw, putBuffer, putBits, n);
        EmitByte(BitOr(ShiftLeft(putBuffer, 8 - putBits) % Pow2(8 * n), ShiftRight(0xFF, putBits)) % 256);
      }
      bits := Padded(bits);
      assert BitsOf(raw) == bits;
      BytesFromBitsOf(raw);
      putBuffer, freeBits := 0, 8 * n;
      assert BitsOf(raw) + Pending() == bits;
    }
  }

  lemma ShiftRightZero(w: nat)
    ensures ShiftRight(w, 0) == w
  {
  }

  lemma NoBytes(w: nat)
    ensures BytesOf(w, 0) == []
  {
  }

  /** Byte i of a word of n bytes, counted from the top. */
  lemma NextByte(w: nat, n: nat, i: nat)
    requires i < n
    ensures var k := 8 * (n - i - 1);
            BytesOf(ShiftRight(w, k), i + 1) == BytesOf(ShiftRight(w, 8 * (n - i)), i) + [ShiftRight(w, k) % 256]
  {
    hide ShiftRight;
    ByteAbove(w, 8 * (n - i - 1));
  }

  lemma ByteAbove(w: nat, k: nat)
    ensures ShiftRight(w, k + 8) == ShiftRight(w, k) / 256
  {
    var p := Pow2(k);
    Pow2Byte(k);
    var v := w / p;
    var a, b := v / 256, v % 256;
    assert w == v * p + w % p;
    assert v * p == a * (256 * p) + b * p by {
      MulDistributes(256 * a, b, p);
      MulAssociative(a, 256, p);
    }
    MulStrict(b, 256, p);
    DivideUnique(w, 256 * p, a, b * p + w % p);
  }

  lemma {:induction false} FFAmongBytes(w: nat, n: nat)
    ensures HasFF(w, n) <==> 0xFF in BytesOf(w, n)
  {
    if n > 0 {
      FFAmongBytes(w / 256, n - 1);
    }
  }

  lemma {:induction false} BitsOfWord(w: nat, n: nat)
    ensures BitsOf(BytesOf(w, n)) == ToBits(w, 8 * n)
  {
    if n > 0 {
      BitsOfWord(w / 256, n - 1);
      BitsOfSnoc(BytesOf(w / 256, n - 1), w % 256);
      ToBitsSplit(w, 8 * (n - 1), 8);
      Constants();
      ToBitsModulo(w, 8, 8);
    }
  }

  /** Shifting in a word of w bits keeps the low bits and drops the others. */
  lemma ShiftInWord(x: nat, m: nat, n: nat)
    ensures ShiftLeft(x, n) % Pow2(m + n) == ShiftLeft(x % Pow2(m), n)
  {
    hide Pow2;
    Pow2Add(m, n);
    ScaledRemainder(x, Pow2(m), Pow2(n));
  }

  lemma ScaledRemainder(x: nat, p: nat, q: nat)
    requires p > 0 && q > 0
    ensures p * q > 0 && x * q % (p * q) == x % p * q
  {
    var a, b := Quotient(x, p), x % p;
    assert x * q == a * (p * q) + b * q by {
      MulDistributes(a * p, b, q);
      MulAssociative(a, p, q);
    }
    MulStrict(b, p, q);
    DivideUnique(x * q, p * q, a, b * q);
  }

  lemma CodeFits(put: nat, w: nat, m: nat, code: nat, size: nat)
    requires m + size <= w && code < Pow2(size)
    ensures var r := BitOr(ShiftLeft(put, size) % Pow2(w), code);
            r < Pow2(w) && ToBits(r, m + size) == ToBits(put, m) + ToBits(code, size)
  {
    var x := put % Pow2(w - size);
    ShiftInWord(put, w - size, size);
    OrFillsIn(x, size, code);
    ToBitsAppend(x, m, code, size);
    ToBitsModulo(put, m, w - size);
    MulStrict(x, Pow2(w - size), Pow2(size));
    Pow2Add(w - size, size);
  }

  lemma TakeByte(raw: seq<nat>, put: nat, k: nat)
    ensures BitsOf(raw + [ShiftRight(put, k) % 256]) + ToBits(put, k) == BitsOf(raw) + ToBits(put, k + 8)
  {
    hide BitsOf, ToBits, ShiftRight;
    var x := ShiftRight(put, k);
    BitsOfSnoc(raw, x % 256);
    Constants();
    ToBitsModulo(x, 8, 8);
    assert k + 8 == 8 + k;
    ToBitsSplit(put, 8, k);
    assert BitsOf(raw) + ToBits(x, 8) + ToBits(put, k) == BitsOf(raw) + (ToBits(x, 8) + ToBits(put, k));
  }

  lemma FillWithOnes(raw: seq<nat>, put: nat, k: nat, n: nat)
    requires 0 < k < 8 && n > 0
    ensures var r := BitOr(ShiftLeft(put, 8 - k) % Pow2(8 * n), ShiftRight(0xFF, k)) % 256;
            BitsOf(raw + [r]) == Padded(BitsOf(raw) + ToBits(put, k))
  {
    hide BitsOf, BitOr, ToBits, Pow2, ShiftLeft, ShiftRight, Padded;
    var ones := ShiftRight(0xFF, k);
    AllOnes(k);
    var r := BitOr(ShiftLeft(put, 8 - k) % Pow2(8 * n), ones);
    CodeFits(put, 8 * n, k, ones, 8 - k);
    BitsOfSnoc(raw, r % 256);
    Constants();
    ToBitsModulo(r, 8, 8);
    assert k + (8 - k) == 8;
    var b, fill := BitsOf(raw), seq(8 - k, _ => true);
    PaddedBy(b + ToBits(put, k), 8 - k);
    assert b + ToBits(put, k) + fill == b + (ToBits(put, k) + fill);
  }

  lemma PaddedBy(b: seq<bool>, m: nat)
    requires m < 8 && (|b| + m) % 8 == 0
    ensures Padded(b) == b + seq(m, _ => true)
    ensures m == 0 ==> Padded(b) == b
  {
    assert (8 - |b| % 8) % 8 == m;
  }

  lemma AllOnes(k: nat)
    requires 0 < k < 8
    ensures ShiftRight(0xFF, k) < Pow2(8 - k)
    ensures ToBits(ShiftRight(0xFF, k), 8 - k) == seq(8 - k, _ => true)
  {
    var m := 8 - k;
    OnesAreOnes(m);
    OnesAreOnes(k);
    Constants();
    Pow2Add(m, k);
    assert (Pow2(m) - 1) * Pow2(k) + (Pow2(k) - 1) == 0xFF by { MulDistributes(Pow2(m), -1, Pow2(k)); }
    DivideUnique(0xFF, Pow2(k), Pow2(m) - 1, Pow2(k) - 1);
  }

  lemma {:induction false} OnesAreOnes(m: nat)
    ensures ToBits(Pow2(m) - 1, m) == seq(m, _ => true)
  {
    if m > 0 {
      OnesAreOnes(m - 1);
      assert Pow2(m) - 1 == 2 * (Pow2(m - 1) - 1) + 1;
      assert seq(m, _ => true) == seq(m - 1, _ => true) + [true];
    }
  }

  lemma WordIsFull(put: nat, w: nat, open: nat, code: nat, rest: nat)
    requires open <= w && code < Pow2(open + rest)
    ensures var r := BitOr(ShiftLeft(put, open) % Pow2(w), ShiftRight(code, rest));
            && r < Pow2(w)
            && ToBits(r, w) + ToBits(code, rest) == ToBits(put, w - open) + ToBits(code, open + rest)
  {
    var high := ShiftRight(code, rest);
    assert high < Pow2(open) by {
      Pow2Add(open, rest);
      if high >= Pow2(open) {
        MulMonotonic(Pow2(open), high, Pow2(rest));
      }
    }
    CodeFits(put, w, w - open, high, open);
    ToBitsSplit(code, open, rest);
  }
}
