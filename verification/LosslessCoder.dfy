/**
 * The lossless Huffman coder (jclhuff.c): a bit packer that keeps no more than 7 pending bits,
 * left-justified in the low 24 bits of its accumulator, and the coding of sample differences
 * modulo 2^16 (section H.1.2.2).
 */
module LosslessCoder {
  import opened Powers
  import opened CodeBytes
  import opened Bits
  import opened Words
  import opened BitPacker
  import opened HuffTable
  import opened BlockSymbols
  import opened HuffEncoder

  // ---------- the bit packer ----------

  /** savable_state: the register is a size_t of w bits. Bits above the low 24 are stale. */
  datatype Accumulator = Accumulator(putBuffer: nat, putBits: nat) {

    ghost predicate Valid() {
      putBits <= 7 && putBuffer == ShiftLeft(ShiftRight(putBuffer, 24 - putBits), 24 - putBits)
    }

    ghost function Pending(): seq<bool>
      requires putBits <= 24
    {
      ToBits(ShiftRight(putBuffer, 24 - putBits), putBits)
    }
  }

  datatype Outcome = Sent | MustSuspend | MissingCode

  predicate IsRegister(w: nat) {
    w == 32 || w == 64
  }

  /** The new bits, masked and aligned, merged with the old contents. */
  function Merge(acc: Accumulator, code: nat, size: nat): nat
    requires acc.putBits + size <= 24
  {
    BitOr(acc.putBuffer, ShiftLeft(code % Pow2(size), 24 - (acc.putBits + size)))
  }

  lemma MergeAppends(acc: Accumulator, code: nat, size: nat) returns (v: nat)
    requires acc.Valid() && acc.putBits + size <= 24
    ensures var n := acc.putBits + size;
            && Merge(acc, code, size) == ShiftLeft(v, 24 - n)
            && ToBits(v, n) == acc.Pending() + ToBits(code, size)
  {
    hide ToBits, Pow2, BitOr, ShiftLeft, ShiftRight;
    var n, low := acc.putBits + size, code % Pow2(size);
    var q := ShiftRight(acc.putBuffer, 24 - acc.putBits);
    var aligned := ShiftLeft(low, 24 - n);
    assert size + (24 - n) == 24 - acc.putBits;
    AlignedFits(low, size, 24 - n);
    OrFillsIn(q, 24 - acc.putBits, aligned);
    v := ShiftLeft(q, size) + low;
    ShiftTwice(q, size, low, 24 - n);
    ToBitsAppend(q, acc.putBits, low, size);
    ToBitsModulo(code, size, size);
  }

  lemma AlignedFits(low: nat, size: nat, n: nat)
    requires low < Pow2(size)
    ensures ShiftLeft(low, n) < Pow2(size + n)
  {
    MulStrict(low, Pow2(size), Pow2(n));
    Pow2Add(size, n);
  }

  lemma ShiftTwice(q: nat, m: nat, low: nat, n: nat)
    ensures ShiftLeft(ShiftLeft(q, m) + low, n) == ShiftLeft(q, m + n) + ShiftLeft(low, n)
  {
    MulDistributes(ShiftLeft(q, m), low, Pow2(n));
    MulAssociative(q, Pow2(m), Pow2(n));
    Pow2Add(m, n);
  }

  lemma ShiftBack(v: nat, n: nat)
    ensures ShiftRight(ShiftLeft(v, n), n) == v
  {
    DivideUnique(ShiftLeft(v, n), Pow2(n), v, 0);
  }

  /** The top byte of the low 24 bits goes out, and the rest moves up. What moves beyond the 24
      bits never gets out. */
  lemma TopByte(word: nat, v: nat, n: nat, w: nat)
    requires IsRegister(w) && 8 <= n <= 24 && word == ShiftLeft(v, 24 - n)
    ensures var rest := word * 256 % Pow2(w);
            var u := v % Pow2(w - 32 + n);
            && rest == ShiftLeft(u, 24 - (n - 8))
            && ToBits(v, n) == ToBits(ShiftRight(word, 16) % 256, 8) + ToBits(u, n - 8)
  {
    hide ToBits, Pow2, ShiftRight, ShiftLeft;
    var k := n - 8;
    ByteOf(v, n);
    var c := ShiftRight(v, k);
    assert 8 + k == n;
    ToBitsSplit(v, 8, k);
    Constants();
    ToBitsModulo(c, 8, 8);
    MoveUp(v, 24 - n);
    ShiftInWord(v, w - 32 + n, 32 - n);
    assert w - 32 + n + (32 - n) == w;
    ToBitsModulo(v, k, w - 32 + n);
  }

  lemma ByteOf(v: nat, n: nat)
    requires 8 <= n <= 24
    ensures ShiftRight(ShiftLeft(v, 24 - n), 16) == ShiftRight(v, n - 8)
  {
    hide Pow2;
    var p, u := Pow2(n - 8), Pow2(24 - n);
    Pow2Add(n - 8, 24 - n);
    assert n - 8 + (24 - n) == 16;
    CancelFactor(v, p, u);
  }

  lemma CancelFactor(v: nat, p: nat, u: nat)
    requires p > 0 && u > 0
    ensures p * u > 0 && Quotient(v * u, p * u) == Quotient(v, p)
  {
    var q, r := Quotient(v, p), v % p;
    assert v * u == q * (p * u) + r * u by {
      MulDistributes(q * p, r, u);
      MulAssociative(q, p, u);
    }
    MulStrict(r, p, u);
    DivideUnique(v * u, p * u, q, r * u);
  }

  lemma MoveUp(v: nat, n: nat)
    ensures ShiftLeft(v, n) * 256 == ShiftLeft(v, n + 8)
  {
    Pow2Byte(n);
    MulAssociative(v, Pow2(n), 256);
    MulCommutes(Pow2(n), 256);
  }

  /** emit_byte for the top byte, and the stuffed zero if it is 0xFF. */
  method EmitStuffed(dest: Destination, pos0: nat, c: nat) returns (ok: bool, pos: nat)
    requires pos0 < dest.buffer.Length && c < 256
    modifies dest, dest.buffer
    ensures ok ==> pos < dest.buffer.Length && dest.Work(pos) == old(dest.Work(pos0)) + Stuff([c])
    ensures dest.suspending ==> dest.next == old(dest.next) && dest.sent == old(dest.sent)
    ensures dest.suspending ==> dest.buffer[..pos0] == old(dest.buffer[..pos0])
    ensures dest.suspending && ok ==> pos0 <= pos
    ensures !ok ==> dest.suspending
  {
    StuffSnoc([], c);
    assert [] + [c] == [c];
    ghost var base := dest.Work(pos0);
    ok, pos := PutByte(dest, pos0, c);
    if ok && c == 0xFF {
      ghost var head, p1 := dest.buffer[..pos], pos;
      ok, pos := PutByte(dest, pos, 0);
      if dest.suspending {
        assert head[..pos0] == dest.buffer[..pos0];
      }
      assert [0xFF] + [0] == [0xFF, 0x00];
      assert base + [0xFF] + [0] == base + ([0xFF] + [0]);
    }
  }

  /**
   * emit_bits: the low size bits of the code join those pending; whole bytes go out, stuffed,
   * and at most 7 bits stay. A size of 0 means that a code is missing.
   */
  method EmitBits(dest: Destination, pos0: nat, acc0: Accumulator, w: nat, code: nat, size: nat)
    returns (outcome: Outcome, pos: nat, acc: Accumulator, ghost more: seq<nat>)
    requires pos0 < dest.buffer.Length && acc0.Valid() && IsRegister(w) && size <= 16
    modifies dest, dest.buffer
    ensures outcome.MissingCode? <==> size == 0
    ensures outcome.Sent? ==>
              && pos < dest.buffer.Length && dest.Work(pos) == old(dest.Work(pos0)) + Stuff(more)
              && acc.Valid() && IsBytes(more)
              && BitsOf(more) + acc.Pending() == acc0.Pending() + ToBits(code, size)
    ensures dest.suspending ==> dest.next == old(dest.next) && dest.sent == old(dest.sent)
    ensures dest.suspending ==> dest.buffer[..pos0] == old(dest.buffer[..pos0])
    ensures dest.suspending && outcome.Sent? ==> pos0 <= pos
    ensures outcome.MustSuspend? ==> dest.suspending
  {
    hide BitsOf, Stuff, ToBits, ShiftLeft, ShiftRight, Pow2;
    pos, acc, more := pos0, acc0, [];
    if size == 0 {
      return MissingCode, pos, acc, more;
    }
    var putBuffer: nat, putBits: nat := Merge(acc0, code, size), acc0.putBits + size;
    ghost var v: nat := MergeAppends(acc0, code, size);
    ghost var all, base := ToBits(v, putBits), dest.Work(pos0);
    NothingOut(base, all);
    while putBits >= 8
      invariant putBits <= 24 && pos < dest.buffer.Length && IsBytes(more)
      invariant putBuffer == ShiftLeft(v, 24 - putBits)
      invariant BitsOf(more) + ToBits(v, putBits) == all
      invariant dest.Work(pos) == base + Stuff(more)
      invariant dest.suspending ==> dest.next == old(dest.next) && dest.sent == old(dest.sent)
      invariant dest.suspending ==> dest.buffer[..pos0] == old(dest.buffer[..pos0]) && pos0 <= pos
      decreases putBits
    {
      TopByte(putBuffer, v, putBits, w);
      var c := ShiftRight(putBuffer, 16) % 256;
      ghost var head := dest.buffer[..pos];
      var ok;
      ok, pos := EmitStuffed(dest, pos, c);
      if dest.suspending {
        assert head[..pos0] == dest.buffer[..pos0];
      }
      if !ok {
        return MustSuspend, pos, acc, more;
      }
      ghost var u := v % Pow2(w - 32 + putBits);
      OneByteMore(base, more, c, ToBits(u, putBits - 8));
      more := more + [c];
      putBuffer := putBuffer * 256 % Pow2(w);
      putBits := putBits - 8;
      v := u;
    }
    ShiftBack(v, 24 - putBits);
    acc := Accumulator(putBuffer, putBits);
    outcome := Sent;
  }

  lemma NothingOut(base: seq<nat>, all: seq<bool>)
    ensures base + Stuff([]) == base && BitsOf([]) + all == all
  {
  }

  lemma OneByteMore(base: seq<nat>, more: seq<nat>, c: nat, rest: seq<bool>)
    ensures base + Stuff(more) + Stuff([c]) == base + Stuff(more + [c])
    ensures BitsOf(more + [c]) + rest == BitsOf(more) + (ToBits(c, 8) + rest)
  {
    hide BitsOf, Stuff, ToBits;
    StuffAppend(more, [c]);
    BitsOfSnoc(more, c);
    var b := BitsOf(more);
    assert (b + ToBits(c, 8)) + rest == b + (ToBits(c, 8) + rest);
    assert (base + Stuff(more)) + Stuff([c]) == base + (Stuff(more) + Stuff([c]));
  }

  /** flush_bits: the seven ones complete a partial byte; the accumulator is emptied. The output
      is what the word-wide packer's flush makes of the same bits. */
  method FlushBits(dest: Destination, pos0: nat, acc0: Accumulator, w: nat)
    returns (ok: bool, pos: nat, acc: Accumulator)
    requires pos0 < dest.buffer.Length && acc0.Valid() && IsRegister(w)
    modifies dest, dest.buffer
    ensures ok ==> pos < dest.buffer.Length && dest.Work(pos) == old(dest.Work(pos0)) + SegmentOf(acc0.Pending())
    ensures ok ==> acc == Accumulator(0, 0) && acc.Valid() && acc.Pending() == []
    ensures !ok ==> dest.suspending && dest.next == old(dest.next) && dest.sent == old(dest.sent)
    ensures !ok ==> dest.buffer[..pos0] == old(dest.buffer[..pos0])
  {
    var outcome;
    ghost var more;
    outcome, pos, acc, more := EmitBits(dest, pos0, acc0, w, 0x7F, 7);
    ok := outcome.Sent?;
    if ok {
      SevenOnes(acc0.Pending(), more, acc.Pending());
      acc := Accumulator(0, 0);
    }
  }

  lemma SevenOnes(pending: seq<bool>, more: seq<nat>, left: seq<bool>)
    requires |pending| <= 7 && |left| <= 7 && IsBytes(more)
    requires BitsOf(more) + left == pending + ToBits(0x7F, 7)
    ensures more == BytesFrom(Padded(pending))
  {
    hide BitsOf;
    OnesAreOnes(7);
    assert Pow2(7) == 0x80 by { Constants(); assert Pow2(8) == 2 * Pow2(7); }
    var all := pending + ToBits(0x7F, 7);
    var n := 8 * |more|;
    assert n == |all| - |left|;
    assert BitsOf(more) == all[..n];
    if pending == [] {
      assert |more| == 0;
      assert Padded(pending) == [];
    } else {
      assert |more| == 1;
      assert Padded(pending) == all[..8];
    }
    BytesFromBitsOf(more);
  }

  // ---------- differences ----------

  /** The difference as a signed 16-bit number. */
  function Wrapped(d: int): int {
    var u := d % 0x10000;
    if u >= 0x8000 then u - 0x10000 else u
  }

  /** Section H.1.2.2: the magnitude, and the number whose low bits are sent. */
  method SplitDifference(d: int) returns (temp: nat, temp2: int)
    ensures temp == Abs(Wrapped(d))
    ensures Wrapped(d) != -0x8000 ==> temp2 == if Wrapped(d) < 0 then Wrapped(d) - 1 else Wrapped(d)
  {
    var u := d % 0x10000;
    if u / 0x8000 % 2 == 1 {
      temp := -d % 0x8000;
      NegatedLow(d);
      if temp == 0 {
        temp := 0x8000;
      }
      temp2 := -(temp as int) - 1;
    } else {
      temp := d % 0x8000;
      LowHalf(d);
      temp2 := temp;
    }
  }

  lemma LowHalf(d: int)
    requires d % 0x10000 < 0x8000
    ensures d % 0x8000 == d % 0x10000
  {
    var q, u := d / 0x10000, d % 0x10000;
    assert d == 0x8000 * (2 * q) + u;
  }

  lemma NegatedLow(d: int)
    requires d % 0x10000 >= 0x8000
    ensures -d % 0x8000 == if d % 0x10000 == 0x8000 then 0 else 0x10000 - d % 0x10000
  {
    var q, u := d / 0x10000, d % 0x10000;
    assert -d == 0x8000 * (-2 * q - 2) + (0x10000 - u);
  }

  /** The symbol of a difference, and its extra bits: none for a magnitude of 32768. */
  function DiffItem(d: int): Item
  {
    var v := Wrapped(d);
    MagnitudeBits(d);
    Item(true, NBits(Abs(v)), if NBits(Abs(v)) == 16 then [] else Extra(v, NBits(Abs(v))))
  }

  lemma MagnitudeBits(d: int)
    ensures NBits(Abs(Wrapped(d))) <= 16
    ensures NBits(Abs(Wrapped(d))) == 16 <==> Wrapped(d) == -0x8000
  {
    Constants();
    NBitsBound(Abs(Wrapped(d)), 16);
    NBitsBound(Abs(Wrapped(d)), 15);
    assert Pow2(16) == 0x10000;
  }

  function DiffBits(d: int, dtbl: Derived): seq<bool>
    requires HasCodes(dtbl)
  {
    var it := DiffItem(d);
    ToBits(dtbl.ehufco[it.symbol], dtbl.ehufsi[it.symbol]) + it.extra
  }

  /** Section H.2.2, as decode_mcus of jdlhuff.c has it. */
  function DecodeDiff(t: Table, stream: seq<bool>): Option<(int, seq<bool>)>
    requires IsTable(t)
  {
    var symbol := DecodeSymbol(t, stream, 1);
    if symbol.None? then None
    else if symbol.value.0 == 16 then Some((0x8000, symbol.value.1))
    else Receive(symbol.value.1, symbol.value.0)
  }

  /** The decoded difference is congruent to the original modulo 2^16, 32768 included. */
  lemma DifferenceRoundTrip(t: Table, dtbl: Derived, d: int, rest: seq<bool>)
    requires HasCodes(dtbl) && Matches(t, dtbl) && dtbl.ehufsi[DiffItem(d).symbol] > 0
    ensures var r := DecodeDiff(t, DiffBits(d, dtbl) + rest);
            && r.Some? && r.value.1 == rest && (r.value.0 - d) % 0x10000 == 0
            && r.value.0 == if Wrapped(d) == -0x8000 then 0x8000 else Wrapped(d)
  {
    hide DecodeSymbol, ToBits, Receive, Extra, IsDerived, Acceptable;
    MagnitudeBits(d);
    var it := DiffItem(d);
    ItemIsDecoded(t, dtbl, it.symbol, it.extra, rest);
    if it.symbol == 16 {
      assert [] + rest == rest;
    } else {
      ExtraIsReceived(Wrapped(d), rest);
    }
    Congruent(d);
  }

  lemma Congruent(d: int)
    ensures (Wrapped(d) - d) % 0x10000 == 0 && (Wrapped(d) == -0x8000 ==> (0x8000 - d) % 0x10000 == 0)
  {
    var q := d / 0x10000;
    assert d == 0x10000 * q + d % 0x10000;
  }

  /** The number of bits of a magnitude, as the source counts them. */
  method CountDifferenceBits(d: int) returns (nbits: nat)
    ensures nbits == DiffItem(d).symbol <= 16
  {
    MagnitudeBits(d);
    var temp, temp2 := SplitDifference(d);
    nbits := 0;
    while temp != 0
      invariant nbits + NBits(temp) == NBits(Abs(Wrapped(d)))
    {
      nbits := nbits + 1;
      temp := temp / 2;
    }
  }

  /** One sample difference into the output. */
  method EmitDifference(dest: Destination, pos0: nat, acc0: Accumulator, w: nat, d: int, dtbl: Derived)
    returns (outcome: Outcome, pos: nat, acc: Accumulator, ghost more: seq<nat>)
    requires pos0 < dest.buffer.Length && acc0.Valid() && IsRegister(w) && HasCodes(dtbl)
    modifies dest, dest.buffer
    ensures outcome.MissingCode? <==> dtbl.ehufsi[DiffItem(d).symbol] == 0
    ensures outcome.Sent? ==>
              && pos < dest.buffer.Length && dest.Work(pos) == old(dest.Work(pos0)) + Stuff(more)
              && acc.Valid() && IsBytes(more)
              && BitsOf(more) + acc.Pending() == acc0.Pending() + DiffBits(d, dtbl)
    ensures dest.suspending ==> dest.next == old(dest.next) && dest.sent == old(dest.sent)
    ensures dest.suspending ==> dest.buffer[..pos0] == old(dest.buffer[..pos0])
    ensures dest.suspending && outcome.Sent? ==> pos0 <= pos
    ensures outcome.MustSuspend? ==> dest.suspending
  {
    hide BitsOf, Stuff, ToBits, Accumulator.Valid, Accumulator.Pending, Wrapped, NBits;
    MagnitudeBits(d);
    ghost var base := dest.Work(pos0);
    var temp, temp2 := SplitDifference(d);
    var nbits := CountDifferenceBits(d);
    outcome, pos, acc, more := EmitBits(dest, pos0, acc0, w, dtbl.ehufco[nbits], dtbl.ehufsi[nbits]);
    AtMostSeven(acc0);
    if !outcome.Sent? {
      return;
    }
    AtMostSeven(acc);
    if nbits != 0 && nbits != 16 {
      ghost var head, acc1, some, extra := dest.buffer[..pos], acc, more, [];
      outcome, pos, acc, extra := EmitBits(dest, pos, acc, w, temp2 % Pow2(nbits), nbits);
      if dest.suspending {
        assert head[..pos0] == dest.buffer[..pos0];
      }
      if outcome.Sent? {
        AtMostSeven(acc);
        more := some + extra;
        JoinParts(base, some, extra, acc0.Pending(), acc1.Pending(), acc.Pending(),
                  ToBits(dtbl.ehufco[nbits], dtbl.ehufsi[nbits]), Extra(Wrapped(d), nbits));
      }
    } else {
      NoExtra(d, acc0.Pending(), ToBits(dtbl.ehufco[nbits], dtbl.ehufsi[nbits]));
    }
  }

  lemma AtMostSeven(acc: Accumulator)
    requires acc.Valid()
    ensures acc.putBits <= 7
  {
  }

  lemma NoExtra(d: int, a: seq<bool>, b: seq<bool>)
    requires NBits(Abs(Wrapped(d))) == 0 || NBits(Abs(Wrapped(d))) == 16
    ensures DiffItem(d).extra == [] && a + (b + []) == a + b
  {
  }

  lemma JoinParts(base: seq<nat>, some: seq<nat>, extra: seq<nat>, p0: seq<bool>, p1: seq<bool>, p2: seq<bool>,
                  code: seq<bool>, bits: seq<bool>)
    requires BitsOf(some) + p1 == p0 + code && BitsOf(extra) + p2 == p1 + bits
    ensures base + Stuff(some) + Stuff(extra) == base + Stuff(some + extra)
    ensures BitsOf(some + extra) + p2 == p0 + (code + bits)
  {
    hide BitsOf, Stuff;
    StuffAppend(some, extra);
    BitsOfAppend(some, extra);
    assert base + Stuff(some) + Stuff(extra) == base + (Stuff(some) + Stuff(extra));
    var b := BitsOf(some);
    assert b + BitsOf(extra) + p2 == b + (BitsOf(extra) + p2);
    assert b + (p1 + bits) == b + p1 + bits;
    assert p0 + code + bits == p0 + (code + bits);
  }

  // ---------- the samples of an MCU ----------

  ghost predicate HaveCodes(tbls: seq<Derived>) {
    forall i :: 0 <= i < |tbls| ==> HasCodes(tbls[i])
  }

  /** Differences one after the other, sample i coded with table i. */
  function SamplesBits(ds: seq<int>, tbls: seq<Derived>): seq<bool>
    requires |ds| == |tbls| && HaveCodes(tbls)
  {
    if ds == [] then []
    else
      var n := |ds| - 1;
      SamplesBits(ds[..n], tbls[..n]) + DiffBits(ds[n], tbls[n])
  }

  function DecodeSamples(ts: seq<Table>, stream: seq<bool>): Option<(seq<int>, seq<bool>)>
    requires forall i :: 0 <= i < |ts| ==> IsTable(ts[i])
  {
    if ts == [] then Some(([], stream))
    else
      var n := |ts| - 1;
      var first := DecodeSamples(ts[..n], stream);
      if first.None? then None
      else
        var d := DecodeDiff(ts[n], first.value.1);
        if d.None? then None else Some((first.value.0 + [d.value.0], d.value.1))
  }

  /** Decoding an MCU gives differences congruent to the original ones modulo 2^16. */
  lemma {:induction false} SamplesRoundTrip(ts: seq<Table>, tbls: seq<Derived>, ds: seq<int>, rest: seq<bool>)
    requires |ts| == |tbls| == |ds| && HaveCodes(tbls) && forall i :: 0 <= i < |ts| ==> IsTable(ts[i])
    requires forall i :: 0 <= i < |ts| ==> Matches(ts[i], tbls[i]) && tbls[i].ehufsi[DiffItem(ds[i]).symbol] > 0
    ensures var r := DecodeSamples(ts, SamplesBits(ds, tbls) + rest);
            && r.Some? && r.value.1 == rest && |r.value.0| == |ds|
            && forall i :: 0 <= i < |ds| ==> (r.value.0[i] - ds[i]) % 0x10000 == 0
  {
    hide DecodeDiff, DiffBits, DiffItem, Matches, HasCodes;
    if ds == [] {
      assert [] + rest == rest;
    } else {
      var n := |ds| - 1;
      SamplesRoundTrip(ts[..n], tbls[..n], ds[..n], DiffBits(ds[n], tbls[n]) + rest);
      DifferenceRoundTrip(ts[n], tbls[n], ds[n], rest);
      Regroup(SamplesBits(ds[..n], tbls[..n]), DiffBits(ds[n], tbls[n]), rest);
    }
  }

  /** The inner loop of encode_mcus_huff: the samples of one MCU, in a working state. */
  method EmitSamples(dest: Destination, pos0: nat, acc0: Accumulator, w: nat, ds: seq<int>, tbls: seq<Derived>)
    returns (outcome: Outcome, pos: nat, acc: Accumulator, ghost more: seq<nat>)
    requires pos0 < dest.buffer.Length && acc0.Valid() && IsRegister(w) && |ds| == |tbls| && HaveCodes(tbls)
    modifies dest, dest.buffer
    ensures outcome.Sent? ==>
              && pos < dest.buffer.Length && dest.Work(pos) == old(dest.Work(pos0)) + Stuff(more)
              && acc.Valid() && IsBytes(more)
              && BitsOf(more) + acc.Pending() == acc0.Pending() + SamplesBits(ds, tbls)
    ensures outcome.MissingCode? ==> exists i :: 0 <= i < |ds| && tbls[i].ehufsi[DiffItem(ds[i]).symbol] == 0
    ensures dest.suspending ==> dest.next == old(dest.next) && dest.sent == old(dest.sent)
    ensures dest.suspending ==> dest.buffer[..pos0] == old(dest.buffer[..pos0])
    ensures outcome.MustSuspend? ==> dest.suspending
  {
    hide BitsOf, Stuff, ToBits, Accumulator.Valid, Accumulator.Pending, DiffItem, DiffBits, HasCodes;
    pos, acc, more := pos0, acc0, [];
    AtMostSeven(acc0);
    ghost var base := dest.Work(pos0);
    NothingOut(base, acc0.Pending());
    assert acc0.Pending() + [] == acc0.Pending();
    var sampn := 0;
    while sampn < |ds|
      invariant 0 <= sampn <= |ds| && pos < dest.buffer.Length && acc.Valid() && acc.putBits <= 7 && IsBytes(more)
      invariant dest.Work(pos) == base + Stuff(more)
      invariant BitsOf(more) + acc.Pending() == acc0.Pending() + SamplesBits(ds[..sampn], tbls[..sampn])
      invariant dest.suspending ==> dest.next == old(dest.next) && dest.sent == old(dest.sent)
      invariant dest.suspending ==> dest.buffer[..pos0] == old(dest.buffer[..pos0]) && pos0 <= pos
    {
      ghost var head, acc1, some, extra := dest.buffer[..pos], acc, more, [];
      outcome, pos, acc, extra := EmitDifference(dest, pos, acc, w, ds[sampn], tbls[sampn]);
      if dest.suspending {
        assert head[..pos0] == dest.buffer[..pos0];
      }
      if !outcome.Sent? {
        return;
      }
      AtMostSeven(acc);
      more := some + extra;
      OneSampleMore(ds, tbls, sampn);
      JoinParts(base, some, extra, acc0.Pending(), acc1.Pending(), acc.Pending(),
                SamplesBits(ds[..sampn], tbls[..sampn]), DiffBits(ds[sampn], tbls[sampn]));
      sampn := sampn + 1;
    }
    assert ds[..sampn] == ds && tbls[..sampn] == tbls;
    outcome := Sent;
  }

  lemma OneSampleMore(ds: seq<int>, tbls: seq<Derived>, n: nat)
    requires |ds| == |tbls| && HaveCodes(tbls) && n < |ds|
    ensures SamplesBits(ds[..n + 1], tbls[..n + 1]) == SamplesBits(ds[..n], tbls[..n]) + DiffBits(ds[n], tbls[n])
  {
    assert ds[..n + 1][..n] == ds[..n] && tbls[..n + 1][..n] == tbls[..n];
  }
}
