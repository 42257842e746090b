/** The arithmetic encoder of jcarith.c: a register machine that refines the interval coder. */
module ArithEncoder {
  import opened Powers
  import opened Aritab
  import opened CodeBytes
  import opened IntervalCoder
  import opened CodeString

  /** How far the C register can reach: the interval below it never grows, so after a byte
      output leaves 19 bits the next eight doublings keep it below 0x120 << 19. */
  function Limit(bytes: nat, ct: nat): nat
    requires ct <= 11 && (bytes > 0 ==> ct <= 8)
  {
    if bytes == 0 then 0x10000 * Pow2(11 - ct) else 0x90000 * Pow2(8 - ct)
  }

  /** The number that the bytes, followed by the C register, stand for. */
  function Position(bytes: nat, ct: nat, c: nat): nat
    requires ct <= 27
  {
    bytes * Pow2(27 - ct) + c
  }

  class Encoder {
    var c: nat         // base of the coding interval
    var a: nat         // normalized size of the interval
    var sc: nat        // stacked 0xFF bytes that a carry may still turn over
    var zc: nat        // pending 0x00 bytes that may be dropped at the end
    var ct: nat        // shifts until the next byte is complete
    var buffer: int    // most recent byte other than 0xFF, or -1
    const stats: array<nat>
    var out: seq<nat>  // everything given to the destination

    ghost var base: seq<nat>  // out at the start of the current segment
    ghost var sent: seq<nat>  // the bytes of the segment in out, before stuffing

    /** All bytes determined so far, up to a carry. */
    ghost function Bytes(): (s: seq<nat>)
      reads this
    {
      sent + Repeat(0, zc) + (if buffer >= 0 then [buffer] else []) + Repeat(0xFF, sc)
    }

    ghost function Shifts(): nat
      reads this
      requires ct <= 11
    {
      8 * |Bytes()| + 11 - ct
    }

    /** The exact low end of the coding interval. */
    ghost function Low(): nat
      reads this
      requires ct <= 11 && buffer >= -1
    {
      Position(Value(Bytes()), ct, c)
    }

    ghost function Current(): Interval
      reads this
      requires ct <= 11 && buffer >= -1
    {
      Interval(Low(), a, Shifts())
    }

    ghost predicate Written()
      reads this
    {
      IsBytes(sent) && out == base + Stuff(sent)
    }

    /** The output side: what was written and what is held back. */
    ghost predicate Holding()
      reads this
    {
      && -1 <= buffer < 0xFF
      && (buffer == -1 ==> sent == [] && zc == 0)
      && NoTrailingZero(sent)
      && Written()
    }

    /** What holds even between the shifts of a renormalization. */
    ghost predicate Consistent()
      reads this, stats
    {
      && ct <= 11
      && 0 < a <= 0x10000
      && Holding()
      && (|Bytes()| > 0 ==> ct <= 8)
      && c + a <= Limit(|Bytes()|, ct)
      && Current().InUnit()
      && ValidStats(stats[..])
    }

    ghost predicate Valid()
      reads this, stats
    {
      Consistent() && ct > 0 && Current().Normalized()
    }

    ghost function Now(): Model
      reads this, stats
      requires Valid()
    {
      Model(Current(), stats[..])
    }

    /** A fresh encoder: all bins zero except the fixed one at the end (start_pass and
        jinit_arith_encoder). */
    constructor (bins: nat)
      ensures Valid() && fresh(stats)
      ensures Now() == Model(UNIT, seq(bins + 1, i => if i == bins then 113 else 0))
      ensures out == base == []
    {
      FixedBinIsFixed();
      UnitIsValid();
      stats := new nat[bins + 1](i => if i == bins then 113 else 0);
      c, a, sc, zc, ct, buffer := 0, 0x10000, 0, 0, 11, -1;
      out, base, sent := [], [], [];
      new;
      assert stats[..] == seq(bins + 1, i => if i == bins then 113 else 0);
      FreshRegisters();
    }

    lemma FreshRegisters()
      requires c == 0 && a == 0x10000 && sc == 0 && zc == 0 && ct == 11 && buffer == -1
      requires sent == [] && out == base && ValidStats(stats[..])
      ensures Valid() && Current() == UNIT
    {
      UnitIsValid();
      assert Bytes() == [];
      assert Limit(0, 11) == 0x10000 by { assert Pow2(0) == 1; }
    }

    /** Clears the statistics areas; the fixed bin stands behind them. */
    method ClearStats()
      requires stats.Length > 0 && stats[stats.Length - 1] == 113
      modifies stats
      ensures stats[..] == seq(stats.Length, i => if i == stats.Length - 1 then 113 else 0)
    {
      var bins := stats.Length - 1;
      for i := 0 to bins
        invariant stats[bins] == 113
        invariant forall j :: 0 <= j < i ==> stats[j] == 0
      {
        stats[i] := 0;
      }
    }

    /** Resets the coding variables behind a restart marker; a new segment begins. */
    method Reset()
      requires ValidStats(stats[..])
      modifies `c, `a, `sc, `zc, `ct, `buffer, `base, `sent
      ensures Valid() && base == out
      ensures Now() == Model(UNIT, stats[..])
    {
      c, a, sc, zc, ct, buffer := 0, 0x10000, 0, 0, 11, -1;
      base, sent := out, [];
      FreshRegisters();
    }

    method EmitByte(val: nat)
      modifies `out
      ensures out == old(out) + [val]
    {
      out := out + [val];
    }

    /** Writes the pending zero bytes. */
    method FlushZeros()
      requires Written()
      modifies `out, `zc, `sent
      ensures Written()
      ensures zc == 0 && sent == old(sent) + Repeat(0, old(zc))
    {
      while zc > 0
        invariant zc <= old(zc)
        invariant Written()
        invariant sent == old(sent) + Repeat(0, old(zc) - zc)
      {
        StuffNext(base, sent, 0x00);
        RepeatSnoc(old(sent), 0x00, old(zc) - zc);
        EmitByte(0x00);
        zc := zc - 1;
        sent := sent + [0x00];
      }
    }

    /** Writes the stacked 0xFF bytes, each with its stuffed zero. */
    method FlushStack()
      requires Written()
      modifies `out, `sc, `sent
      ensures Written()
      ensures sc == 0 && sent == old(sent) + Repeat(0xFF, old(sc))
    {
      while sc > 0
        invariant sc <= old(sc)
        invariant Written()
        invariant sent == old(sent) + Repeat(0xFF, old(sc) - sc)
      {
        StuffNext(base, sent, 0xFF);
        RepeatSnoc(old(sent), 0xFF, old(sc) - sc);
        EmitByte(0xFF);
        EmitByte(0x00);
        sc := sc - 1;
        sent := sent + [0xFF];
      }
    }

    /** Writes one data byte, stuffed if need be. */
    method EmitData(val: nat)
      requires Written() && val < 256
      modifies `out, `sent
      ensures Written()
      ensures sent == old(sent) + [val]
    {
      StuffNext(base, sent, val);
      EmitByte(val);
      if val == 0xFF {
        EmitByte(0x00);
      }
      sent := sent + [val];
    }

    /** A carry reached the stored byte: it is written with the carry added, and the stacked
        0xFF bytes turn into pending zeros. */
    method ResolveCarry()
      requires Written() && -1 <= buffer < 0xFF && NoTrailingZero(sent)
      modifies `out, `zc, `sc, `sent
      ensures Written() && NoTrailingZero(sent)
      ensures sc == 0
      ensures buffer >= 0 ==>
                sent + Repeat(0, zc) == old(sent + Repeat(0, zc) + [buffer + 1] + Repeat(0, sc))
    {
      hide Stuff;
      if buffer >= 0 {
        FlushZeros();
        EmitData(buffer + 1);
      }
      zc := zc + sc;
      sc := 0;
    }

    /** No carry can reach the stored byte or the stack any more: both are written, except
        that zeros stay pending. */
    method ReleaseBuffer()
      requires Written() && -1 <= buffer < 0xFF && NoTrailingZero(sent)
      modifies `out, `zc, `sc, `sent
      ensures Written() && NoTrailingZero(sent)
      ensures sc == 0
      ensures sent + Repeat(0, zc) == old(Bytes())
    {
      hide Stuff;
      if buffer == 0 {
        RepeatSnoc(sent, 0, zc);
        zc := zc + 1;
      } else if buffer >= 0 {
        FlushZeros();
        EmitData(buffer);
      }
      assert sent + Repeat(0, zc) + Repeat(0xFF, sc) == old(Bytes());
      if sc > 0 {
        FlushZeros();
        FlushStack();
      }
    }

    /** The next byte, possibly with a carry above it, joins the bytes so far: either it is
        stacked, or everything before it is settled and it becomes the stored byte. */
    method TakeByte(temp: nat)
      requires Holding() && temp < 0x120 && (temp > 0xFF ==> buffer >= 0)
      modifies `out, `zc, `sc, `sent, `buffer
      ensures Holding()
      ensures |Bytes()| == old(|Bytes()|) + 1
      ensures Value(Bytes()) == 256 * old(Value(Bytes())) + temp
    {
      ghost var before := Bytes();
      if temp > 0xFF {
        CarryIntoByte(sent + Repeat(0, zc), buffer, sc, temp);
        ResolveCarry();
        buffer := temp % 0x100;
        assert Bytes() == sent + Repeat(0, zc) + [temp - 0x100];
      } else if temp == 0xFF {
        ValueSnoc(before, temp);
        sc := sc + 1;
        RepeatSnoc(sent + Repeat(0, zc) + (if buffer >= 0 then [buffer] else []), 0xFF, sc - 1);
        assert Bytes() == before + [temp];
      } else {
        ValueSnoc(before, temp);
        ReleaseBuffer();
        buffer := temp % 0x100;
        assert Bytes() == before + [temp];
      }
    }

    /** The three spacer bits and the interval's place below one bound what comes out at the
        top of the C register: at most a carry and a small byte, and no carry before there
        is a byte to take it. */
    lemma TopOfRegister()
      requires Consistent() && ct == 0
      ensures c / 0x80000 <= 0x11F
      ensures c / 0x80000 > 0xFF ==> buffer >= 0
    {
      Constants();
      assert c < 0x9000000;
      if buffer < 0 {
        assert Bytes() == Repeat(0xFF, sc);
        NoCarryWithoutBuffer(sc, c, a);
      }
    }

    /** A byte is complete in the C register. */
    method ByteOut()
      requires Consistent() && ct == 0
      modifies this
      ensures Consistent() && ct == 8
      ensures Current() == old(Current()) && base == old(base) && a == old(a)
    {
      hide Stuff, Value;
      TopOfRegister();
      ghost var v, n := Value(Bytes()), |Bytes()|;
      var temp := c / 0x80000;
      TakeByte(temp);
      ghost var bytes := Bytes();
      SplitRegister(v, c, a, n);
      c := c % 0x80000;
      ct := ct + 8;
      assert Bytes() == bytes;
      assert Low() == Position(256 * v + temp, 8, c);
      assert Shifts() == old(Shifts());
    }

    /** One shift of the renormalization. */
    method Double()
      requires Consistent() && ct > 0 && a < 0x8000
      modifies this
      ensures Consistent() && ct > 0
      ensures Current() == old(var iv := Current(); Interval(2 * iv.low, 2 * iv.a, iv.shifts + 1))
      ensures base == old(base)
    {
      hide Stuff, Value;
      ghost var bytes := Bytes();
      DoubledPosition(Value(bytes), ct, c, a, |bytes|);
      a := 2 * a;
      c := 2 * c;
      ct := ct - 1;
      assert Bytes() == bytes;
      assert Low() == 2 * old(Low());
      assert Shifts() == old(Shifts()) + 1;
      if ct == 0 {
        ByteOut();
      }
    }

    /** Section D.1.6: at least one shift, until the interval is large enough again. */
    method Renormalize()
      requires Consistent() && ct > 0 && a < 0x8000
      modifies this
      ensures Valid() && base == old(base)
      ensures Current() == Renorm(old(Current()))
    {
      Double();
      while a < 0x8000
        invariant Consistent() && ct > 0 && base == old(base)
        invariant Renorm(Current()) == Renorm(old(Current()))
        decreases 0x10000 - a
      {
        Double();
      }
    }

    /** Section D.1.4: cuts the interval down to the part of the less or more probable symbol,
        exchanging the two when that one's part would be the larger. */
    method Cut(qe: nat, lps: bool)
      requires Valid() && 0 < qe < 0x8000
      modifies `c, `a
      ensures Consistent() && ct > 0
      ensures Current() == Part(old(Current()), qe, lps)
    {
      PositionAdd(Value(Bytes()), ct, c, a - qe);
      a := a - qe;
      if lps {
        if a >= qe {
          c := c + a;
          a := qe;
        }
      } else if a < 0x8000 && a < qe {
        c := c + a;
        a := qe;
      }
      assert Bytes() == old(Bytes());
      assert c + a <= old(c + a);
      assert Current() == Part(old(Current()), qe, lps);
    }

    /** Section D.1.5: the statistics bin adapts unless a more probable symbol left the
        interval large enough; then there is nothing to renormalize either. */
    method Adjust(st: nat, lps: bool) returns (done: bool)
      requires st < stats.Length && IsStat(stats[st]) && 0 < a
      modifies stats
      ensures done == (!lps && a >= 0x8000)
      ensures stats[..] == old(stats[..][st := if done then stats[st]
                                               else if lps then AfterLps(stats[st])
                                               else AfterMps(stats[st])])
    {
      done := !lps && a >= 0x8000;
      if lps {
        stats[st] := AfterLps(stats[st]);
      } else if !done {
        stats[st] := AfterMps(stats[st]);
      }
    }

    /** Codes one binary decision: exactly one step of the interval coder. */
    method Encode(st: nat, val: nat)
      requires Valid() && st < stats.Length && val < 2
      modifies this, stats
      ensures Valid() && base == old(base)
      ensures Now() == old(Now().Step(Decision(st, val)))
    {
      var sv := stats[st];
      var lps := IsLps(sv, val);
      Cut(Qe(sv), lps);
      var done := Adjust(st, lps);
      if !done {
        Renormalize();
      }
    }

    /** The last two bytes in the C register, unless everything that remains is zero. */
    method WriteRest() returns (ghost z: nat)
      requires Written() && NoTrailingZero(sent)
      modifies `out, `zc, `sent
      ensures Written() && NoTrailingZero(sent)
      ensures |sent| + z == old(|sent| + zc) + 2
      ensures Value(sent + Repeat(0, z)) == WithLastBytes(old(Value(sent + Repeat(0, zc))), c)
    {
      hide Stuff, Value, WithLastBytes;
      LastBytes(sent, zc, c);
      RegisterBytes(c);
      if c / 0x800 % 0x10000 != 0 {
        FlushZeros();
        EmitData(c / 0x80000 % 0x100);
        z := 1;
        if c / 0x800 % 0x100 != 0 {
          EmitData(c / 0x800 % 0x100);
          z := 0;
        }
      } else {
        z := zc + 2;
      }
    }

    /** The final carry, if there is one, and everything it can no longer reach. */
    method SettleAll()
      requires Holding() && (c / 0x8000000 % 0x20 != 0 ==> buffer >= 0)
      modifies `out, `zc, `sc, `sent
      ensures Written() && NoTrailingZero(sent)
      ensures |sent| + zc == old(|Bytes()|)
      ensures Value(sent + Repeat(0, zc)) == old(Value(Bytes())) + FinalCarry(c)
    {
      if c / 0x8000000 % 0x20 != 0 {
        CarryThroughStack(sent + Repeat(0, zc), buffer, sc);
        ResolveCarry();
      } else {
        ReleaseBuffer();
      }
    }

    /** The code string in the final interval with the most trailing zeros, moved to the top
        of the register. */
    method ChooseCode()
      requires Valid()
      modifies `c
      ensures c == ShiftLeft(FinalCode(old(c), a), ct)
      ensures FinalCarry(c) != 0 ==> buffer >= 0
    {
      hide Pow2, Value, ShiftLeft, Position;
      ghost var n := |Bytes()|;
      FinalCodeFits(Value(Bytes()), c, a, n, ct);
      if buffer < 0 {
        assert Bytes() == Repeat(0xFF, sc);
        NoCarryWithoutBuffer(n, ShiftLeft(FinalCode(c, a), ct), 1);
      }
      var temp := (a - 1 + c) / 0x10000 * 0x10000;
      c := if temp < c then temp + 0x8000 else temp;
      c := ShiftLeft(c, ct);
    }

    /** Section D.1.8: ends the segment with the code string in the final interval that has the
        most trailing zeros, and drops the zero bytes at its end. */
    method Finish()
      requires Valid()
      modifies this
      ensures Written() && base == old(base)
      ensures IsCodeString(sent, old(Current()))
    {
      ghost var v, n := Value(Bytes()), |Bytes()|;
      ChooseCode();
      assert Bytes() == old(Bytes());
      SettleAll();
      ghost var z := WriteRest();
      WrittenCodeIsFinal(sent, z, v, n, ct, old(c), old(a));
    }

    /** emit_restart: ends the segment, writes the restart marker and starts afresh. */
    method Restart(num: nat) returns (ghost e: seq<nat>)
      requires Valid() && num < 8 && stats.Length > 0 && stats[stats.Length - 1] == 113
      modifies this, stats
      ensures IsCodeString(e, old(Current()))
      ensures Valid() && out == base == old(base) + Stuff(e) + [0xFF, 0xD0 + num]
      ensures Now() == Model(UNIT, seq(stats.Length, i => if i == stats.Length - 1 then 113 else 0))
    {
      Finish();
      e := sent;
      EmitByte(0xFF);
      EmitByte(0xD0 + num);
      ClearStats();
      FixedBinIsFixed();
      Reset();
    }
  }

  /** Bits 27 to 31 of the final register: one last overflow. */
  function FinalCarry(c: nat): nat {
    if c / 0x8000000 % 0x20 != 0 then 1 else 0
  }

  /** The chosen code, shifted to the byte boundary, still fits the register, and ends in
      zeros below its last two bytes. */
  lemma FinalCodeFits(v: nat, c: nat, a: nat, n: nat, ct: nat)
    requires 0 < ct <= 11 && (n > 0 ==> ct <= 8)
    requires 0x8000 <= a <= 0x10000 && c + a <= Limit(n, ct)
    requires Position(v, ct, c) + a <= Pow2(16 + 8 * n + 11 - ct)
    ensures var last := ShiftLeft(FinalCode(c, a), ct);
            last < 0x10000000 && last % 0x800 == 0 && v * 0x8000000 + last + 1 <= Pow2(8 * n + 27)
  {
    hide Pow2, Limit, Position, FinalCode;
    var chosen, p := FinalCode(c, a), Pow2(ct);
    assert chosen * p < 0x10000000 by {
      LimitAtByte(n, ct);
      MulMonotonic(chosen, Limit(n, ct), p);
    }
    assert chosen * p % 0x800 == 0 by {
      FinalCodeIsAligned(c, a);
      var q := chosen / 0x8000;
      MulAssociative(0x8000, q, p);
      assert chosen * p == 0x8000 * (q * p);
      MultipleOf(chosen * p, 16 * (q * p), 0x800);
    }
    assert v * 0x8000000 + chosen * p + 1 <= Pow2(8 * n + 27) by {
      ScaledPosition(v, ct, chosen);
      PositionAdd(v, ct, c, chosen - c);
      Pow2Add(27 + 8 * n - ct, ct);
      MulStrict(Position(v, ct, chosen), Pow2(27 + 8 * n - ct), p);
    }
  }

  /** The carry and the last two bytes are all there is in the final register. */
  lemma FinalBytes(v: nat, c: nat)
    requires c < 0x10000000 && c % 0x800 == 0
    ensures (256 * (256 * (v + FinalCarry(c)) + c / 0x80000 % 0x100) + c / 0x800 % 0x100) * 0x800
          == v * 0x8000000 + c
  {
    var q := c / 0x800;
    assert c == 0x800 * q && c / 0x80000 == q / 0x100 && c / 0x8000000 == q / 0x10000;
  }

  lemma LimitAtByte(n: nat, ct: nat)
    requires ct <= 11 && (n > 0 ==> ct <= 8)
    ensures Limit(n, ct) * Pow2(ct) <= 0x9000000
  {
    Constants();
    if n == 0 {
      Pow2Add(11 - ct, ct);
      MulAssociative(0x10000, Pow2(11 - ct), Pow2(ct));
    } else {
      Pow2Add(8 - ct, ct);
      MulAssociative(0x90000, Pow2(8 - ct), Pow2(ct));
    }
  }

  lemma ScaledPosition(v: nat, ct: nat, x: nat)
    requires ct <= 27
    ensures Position(v, ct, x) * Pow2(ct) == v * 0x8000000 + x * Pow2(ct)
  {
    Constants();
    Pow2Add(27 - ct, ct);
    MulAssociative(v, Pow2(27 - ct), Pow2(ct));
    MulDistributes(v * Pow2(27 - ct), x, Pow2(ct));
  }

  function WithLastBytes(v: nat, c: nat): nat {
    256 * (256 * v + c / 0x80000 % 0x100) + c / 0x800 % 0x100
  }

  lemma RegisterBytes(c: nat)
    ensures c / 0x800 % 0x10000 == 0x100 * (c / 0x80000 % 0x100) + c / 0x800 % 0x100
  {
    var q := c / 0x800;
    assert c / 0x80000 == q / 0x100;
  }

  lemma LastBytes(s: seq<nat>, zc: nat, c: nat)
    ensures var v, b1, b2 := Value(s + Repeat(0, zc)), c / 0x80000 % 0x100, c / 0x800 % 0x100;
            && Value(s + Repeat(0, zc) + [b1] + [b2] + Repeat(0, 0)) == WithLastBytes(v, c)
            && (b2 == 0 ==> Value(s + Repeat(0, zc) + [b1] + Repeat(0, 1)) == WithLastBytes(v, c))
            && (c / 0x800 % 0x10000 == 0 ==> Value(s + Repeat(0, zc + 2)) == WithLastBytes(v, c))
  {
    var t, b1, b2 := s + Repeat(0, zc), c / 0x80000 % 0x100, c / 0x800 % 0x100;
    hide Value;
    RegisterBytes(c);
    ValueSnoc(t, b1);
    ValueSnoc(t + [b1], b2);
    assert t + [b1] + [b2] + Repeat(0, 0) == t + [b1] + [b2];
    if b2 == 0 {
      assert Repeat(0, 1) == [0];
    }
    if c / 0x800 % 0x10000 == 0 {
      RepeatSnoc(s, 0, zc);
      RepeatSnoc(s, 0, zc + 1);
    }
  }

  lemma FourBytesOn(e: seq<nat>, z: nat, n: nat)
    requires |e| + z == n + 2
    ensures Prefix(e, n + 4) == 0x10000 * Value(e + Repeat(0, z))
  {
    PrefixWithZeros(e, z);
    assert Prefix(e, n + 3) == 256 * Prefix(e, n + 2) + At(e, n + 2);
    assert Prefix(e, n + 4) == 256 * Prefix(e, n + 3) + At(e, n + 3);
  }

  lemma AtByteBoundary(v: nat, ct: nat, x: nat)
    requires ct <= 27
    ensures Position(v, ct, x) * Pow2(5 + ct) == 32 * (v * 0x8000000 + ShiftLeft(x, ct))
  {
    Pow2Add(5, ct);
    assert Pow2(5) == 32 by { assert Pow2(3) == 8; }
    ScaledPosition(v, ct, x);
    MulAssociative(Position(v, ct, x), Pow2(ct), 32);
  }

  lemma FinalPosition(v: nat, ct: nat, c: nat, a: nat)
    requires ct <= 11 && 0x8000 <= a <= 0x10000
    ensures FinalCode(Position(v, ct, c), a) == Position(v, ct, FinalCode(c, a))
  {
    var t := v * Pow2(11 - ct);
    assert v * Pow2(27 - ct) == 0x10000 * t by {
      Constants();
      Pow2Add(11 - ct, 16);
      MulAssociative(v, Pow2(11 - ct), 0x10000);
    }
    FinalCodeMoves(c, a, t);
  }

  lemma WrittenCodeIsFinal(e: seq<nat>, z: nat, v: nat, n: nat, ct: nat, c: nat, a: nat)
    requires 0 < ct <= 11 && (n > 0 ==> ct <= 8)
    requires 0x8000 <= a <= 0x10000 && c + a <= Limit(n, ct)
    requires Position(v, ct, c) + a <= Pow2(16 + 8 * n + 11 - ct)
    requires IsBytes(e) && |e| + z == n + 2
    requires var final := ShiftLeft(FinalCode(c, a), ct);
             Value(e + Repeat(0, z)) == WithLastBytes(v + FinalCarry(final), final)
    ensures Spells(e, n + 4, Interval(Position(v, ct, c), a, 8 * n + 11 - ct))
  {
    var chosen := FinalCode(c, a);
    FinalPosition(v, ct, c, a);
    FinalCodeFits(v, c, a, n, ct);
    FinalBytes(v, ShiftLeft(chosen, ct));
    FourBytesOn(e, z, n);
    AtByteBoundary(v, ct, chosen);
  }

  lemma PositionAdd(v: nat, ct: nat, c: nat, x: nat)
    requires ct <= 27
    ensures Position(v, ct, c + x) == Position(v, ct, c) + x
  {
  }

  /** One doubling of both registers doubles the low end. */
  lemma DoubledPosition(v: nat, ct: nat, c: nat, a: nat, n: nat)
    requires 0 < ct <= 11 && (n > 0 ==> ct <= 8)
    ensures Position(v, ct - 1, 2 * c) == 2 * Position(v, ct, c)
    ensures c + a <= Limit(n, ct) ==> 2 * c + 2 * a <= Limit(n, ct - 1)
  {
    var p := Pow2(27 - ct);
    assert Pow2(27 - (ct - 1)) == 2 * p;
    assert v * (2 * p) == 2 * (v * p);
  }

  /** Moving the top of the C register into the byte string does not move the low end. */
  lemma SplitRegister(v: nat, c: nat, a: nat, n: nat)
    requires a <= 0x10000
    ensures Position(256 * v + c / 0x80000, 8, c % 0x80000) == Position(v, 0, c)
    ensures c % 0x80000 + a <= Limit(n + 1, 8)
  {
    Constants();
    assert Pow2(8 - 8) == 1;
  }

  /** The value of the bytes after a carry was taken out of the C register. */
  lemma CarryIntoByte(s: seq<nat>, b: nat, n: nat, temp: nat)
    requires 0x100 <= temp
    ensures Value(s + [b + 1] + Repeat(0, n) + [temp - 0x100])
         == 256 * Value(s + [b] + Repeat(0xFF, n)) + temp
  {
    CarryThroughStack(s, b, n);
    ValueSnoc(s + [b + 1] + Repeat(0, n), temp - 0x100);
  }

  /** While only 0xFF bytes are known, the interval's position below one rules out a carry. */
  lemma NoCarryWithoutBuffer(n: nat, c: nat, a: nat)
    requires Value(Repeat(0xFF, n)) * 0x8000000 + c + a <= Pow2(8 * n + 27)
    requires 0 < a
    ensures c < 0x8000000
  {
    FullStack(n);
    Pow2Add(8 * n, 27);
    Constants();
  }
}
