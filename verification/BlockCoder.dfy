/**
 * encode_one_block and htest_one_block: the pass that writes a block's Huffman symbols into
 * the bit packer and the pass that counts them, both proved against the same list of symbols.
 */
module BlockCoder {
  import opened Powers
  import opened Bits
  import opened Words
  import opened BitPacker
  import opened HuffTable
  import opened ZigZag
  import opened BlockSymbols

  // ---------- writing ----------

  /** The value whose low bits are sent, and the magnitude, both without a branch: the sign is
      spread over the word and added, then exclusive-ored. */
  method Magnitude(v: int) returns (temp: int, magnitude: nat)
    ensures magnitude == Abs(v) && temp == if v < 0 then v - 1 else v
  {
    var sign := if v < 0 then -1 else 0;
    temp := v + sign;
    magnitude := if sign == -1 then -temp - 1 else temp;
  }

  /** PUT_CODE: the code of a symbol and n extra bits in one go. */
  method PutCode(p: Packer, d: Derived, symbol: nat, temp: int, n: nat)
    requires p.Valid() && HasCodes(d) && symbol < 256 && n < 16
    requires |p.bits| + 16 + n < 4 * ROOM + 8
    modifies p, p.buf
    ensures p.Valid()
            && p.bits == old(p.bits) + (ToBits(d.ehufco[symbol], d.ehufsi[symbol]) + ToBits(temp % Pow2(n), n))
  {
    var low: nat := temp % Pow2(n);
    var code, size := d.ehufco[symbol], d.ehufsi[symbol];
    CodeAndExtra(code, size, low, n);
    p.PutBits(BitOr(ShiftLeft(code, n), low), size + n);
  }

  lemma CodeAndExtra(code: nat, size: nat, low: nat, n: nat)
    requires code < Pow2(size) && low < Pow2(n)
    ensures BitOr(ShiftLeft(code, n), low) < Pow2(size + n)
    ensures ToBits(BitOr(ShiftLeft(code, n), low), size + n) == ToBits(code, size) + ToBits(low, n)
  {
    OrFillsIn(code, n, low);
    ToBitsAppend(code, size, low, n);
    MulStrict(code, Pow2(size), Pow2(n));
    Pow2Add(size, n);
  }

  /** The symbol of one coefficient behind r / 16 zeros, and as many ZRL as it takes. */
  method PutRun(p: Packer, ts: Tables, v: int, temp: int, r0: nat, n: nat)
    requires p.Valid() && IsTables(ts) && v != 0 && r0 % 16 == 0 && r0 < 64 * 16
    requires n == NBits(Abs(v)) < 15 && temp == if v < 0 then v - 1 else v
    requires |p.bits| + r0 + 30 < 4 * ROOM + 8
    modifies p, p.buf
    ensures p.Valid() && p.bits == old(p.bits) + ItemsBits(RunItems(r0 / 16, v), ts)
    ensures |p.bits| <= old(|p.bits|) + r0 + 30
  {
    hide ItemsBits, IsTables, HasCodes, Packer.Valid, RunItems;
    var r := r0;
    ghost var all := ItemsBits(RunItems(r0 / 16, v), ts);
    while r >= 16 * 16
      invariant 0 <= r <= r0 && r % 16 == 0 && p.Valid()
      invariant p.bits + ItemsBits(RunItems(r / 16, v), ts) == old(p.bits) + all
      invariant |p.bits| + r <= old(|p.bits|) + r0
    {
      ZrlFirst(r / 16, v, ts);
      ghost var before, more := p.bits, ItemsBits(RunItems(r / 16 - 16, v), ts);
      r := r - 16 * 16;
      p.PutBits(ts.ac.ehufco[ZRL], ts.ac.ehufsi[ZRL]);
      Regroup(before, ToBits(ts.ac.ehufco[ZRL], ts.ac.ehufsi[ZRL]), more);
      assert (r + 256) / 16 - 16 == r / 16;
    }
    RunEnds(r / 16, v, ts);
    r := r + n;
    PutCode(p, ts.ac, r, temp, n);
  }

  lemma ZrlFirst(r: nat, v: int, ts: Tables)
    requires r >= 16 && NBits(Abs(v)) < 16 && IsTables(ts)
    ensures |ts.ac.ehufco| == |ts.ac.ehufsi| == 256 && ts.ac.ehufsi[ZRL] <= 16
    ensures ts.ac.ehufco[ZRL] < Pow2(ts.ac.ehufsi[ZRL])
    ensures ItemsBits(RunItems(r, v), ts)
         == ToBits(ts.ac.ehufco[ZRL], ts.ac.ehufsi[ZRL]) + ItemsBits(RunItems(r - 16, v), ts)
  {
    var items := RunItems(r, v);
    assert items[1..] == RunItems(r - 16, v);
    assert ItemBits(items[0], ts) == ToBits(ts.ac.ehufco[ZRL], ts.ac.ehufsi[ZRL]);
  }

  lemma RunEnds(r: nat, v: int, ts: Tables)
    requires r < 16 && NBits(Abs(v)) < 16 && IsTables(ts)
    ensures var n := NBits(Abs(v));
            && HasCodes(ts.ac) && 16 * r + n < 256
            && |ts.ac.ehufco| == |ts.ac.ehufsi| == 256 && ts.ac.ehufsi[16 * r + n] <= 16
            && ItemsBits(RunItems(r, v), ts)
               == ToBits(ts.ac.ehufco[16 * r + n], ts.ac.ehufsi[16 * r + n]) + Extra(v, n)
  {
    OneItem(RunItems(r, v)[0], ts);
  }

  /** What a block makes of an accumulator's bits. */
  function BlockBits(diff: int, block: Block, precision: nat, ts: Tables): seq<bool>
    requires precision <= 12 && InRange(diff, ToZigZag(block), precision + 2) && IsTables(ts)
  {
    ItemsBits(BlockItems(diff, ToZigZag(block), precision + 2), ts)
  }

  /** The DC part; fails on a difference that is out of range. */
  method PutDc(p: Packer, ts: Tables, diff: int, maxCoefBits: nat) returns (ok: bool)
    requires p.Valid() && IsTables(ts) && maxCoefBits < 15 && |p.bits| <= 64
    modifies p, p.buf
    ensures ok <==> NBits(Abs(diff)) <= maxCoefBits + 1
    ensures p.Valid() && |p.bits| <= 95
    ensures ok ==> p.bits == old(p.bits) + ItemBits(DcItem(diff), ts)
  {
    hide Packer.Valid;
    var temp, magnitude := Magnitude(diff);
    var nbits := NBits(magnitude);
    ok := nbits <= maxCoefBits + 1;
    if ok {
      PutCode(p, ts.dc, nbits, temp, nbits);
    }
  }

  lemma ZigZagAt(block: Block, k: nat)
    requires k < 64
    ensures ToZigZag(block)[k] == block[Natural(k)]
  {
  }

  lemma NothingBehind(z: Block, m: nat)
    ensures AcInRange(z, 64, m)
  {
  }

  lemma DcFirst(diff: int, z: Block, m: nat, ts: Tables, before: seq<bool>)
    requires m < 15 && InRange(diff, z, m) && IsTables(ts)
    ensures before + ItemBits(DcItem(diff), ts) + ItemsBits(AcItems(z, 1, 0, m), ts)
         == before + ItemsBits(BlockItems(diff, z, m), ts)
  {
    var items := BlockItems(diff, z, m);
    assert items[0] == DcItem(diff) && items[1..] == AcItems(z, 1, 0, m);
    Regroup(before, ItemBits(DcItem(diff), ts), ItemsBits(AcItems(z, 1, 0, m), ts));
  }

  /** What is still to come, one coefficient later. */
  lemma AcStep(z: Block, k: nat, r: nat, m: nat, ts: Tables, sofar: seq<bool>)
    requires 1 <= k < 64 && m < 15 && IsTables(ts)
    ensures AcInRange(z, k, m) <==> NBits(Abs(z[k])) <= m && AcInRange(z, k + 1, m)
    ensures AcInRange(z, k, m) && z[k] == 0 ==> AcItems(z, k, r, m) == AcItems(z, k + 1, r + 1, m)
    ensures AcInRange(z, k, m) && z[k] != 0 ==>
              sofar + ItemsBits(AcItems(z, k, r, m), ts)
              == sofar + ItemsBits(RunItems(r, z[k]), ts) + ItemsBits(AcItems(z, k + 1, 0, m), ts)
  {
    if AcInRange(z, k, m) && z[k] != 0 {
      ItemsBitsAppend(RunItems(r, z[k]), AcItems(z, k + 1, 0, m), ts);
      Regroup(sofar, ItemsBits(RunItems(r, z[k]), ts), ItemsBits(AcItems(z, k + 1, 0, m), ts));
    }
  }

  lemma BlockEnds(z: Block, r: nat, m: nat, ts: Tables, sofar: seq<bool>)
    requires m < 15 && IsTables(ts) && AcInRange(z, 64, m)
    ensures |ts.ac.ehufco| == |ts.ac.ehufsi| == 256 && ts.ac.ehufsi[EOB] <= 16
    ensures ts.ac.ehufco[EOB] < Pow2(ts.ac.ehufsi[EOB])
    ensures sofar + ItemsBits(AcItems(z, 64, r, m), ts)
         == if r > 0 then sofar + ToBits(ts.ac.ehufco[EOB], ts.ac.ehufsi[EOB]) else sofar
  {
    if r > 0 {
      OneItem(Item(false, EOB, []), ts);
    }
  }

  /**
   * encode_one_block without its copying of the output. The block's bits are appended; no more
   * than 1985 bits are then in hand, so neither the local buffer nor a destination with BUFSIZE
   * bytes of room is overrun. Fails exactly on a coefficient that is out of range.
   */
  method EncodeBlock(p: Packer, ts: Tables, block: Block, lastDc: int, precision: nat) returns (ok: bool)
    requires p.Valid() && IsTables(ts) && precision <= 12 && |p.bits| <= 64
    modifies p, p.buf
    ensures p.Valid() && |p.bits| <= 1985 && p.pos <= |p.head| + ROOM
    ensures ok <==> InRange(block[0] - lastDc, ToZigZag(block), precision + 2)
    ensures ok ==> p.bits == old(p.bits) + BlockBits(block[0] - lastDc, block, precision, ts)
  {
    hide ItemsBits, ItemBits, IsTables, Packer.Valid, AcItems, RunItems, AcInRange, ToZigZag, Natural, NBits;
    var maxCoefBits, diff := precision + 2, block[0] - lastDc;
    ghost var z, before := ToZigZag(block), p.bits;
    ok := PutDc(p, ts, diff, maxCoefBits);
    p.Extent();
    if !ok {
      return;
    }
    ghost var good := AcInRange(z, 1, maxCoefBits);
    ghost var bits := if good then BlockBits(diff, block, precision, ts) else [];
    if good {
      DcFirst(diff, z, maxCoefBits, ts, before);
    }
    var r, k := 0, 1;
    ghost var run := 0;
    while k < 64
      invariant 1 <= k <= 64 && r == 16 * run && run < k
      invariant p.Valid() && |p.bits| + 30 * run <= 95 + 30 * (k - 1)
      invariant good <==> AcInRange(z, k, maxCoefBits)
      invariant good ==> p.bits + ItemsBits(AcItems(z, k, run, maxCoefBits), ts) == before + bits
    {
      ZigZagAt(block, k);
      AcStep(z, k, run, maxCoefBits, ts, p.bits);
      if block[Natural(k)] == 0 {
        r, run := r + 16, run + 1;
      } else {
        var temp, magnitude := Magnitude(block[Natural(k)]);
        var nbits := NBits(magnitude);
        if nbits > maxCoefBits {
          p.Extent();
          return false;
        }
        PutRun(p, ts, block[Natural(k)], temp, r, nbits);
        r, run := 0, 0;
      }
      k := k + 1;
    }
    NothingBehind(z, maxCoefBits);
    BlockEnds(z, run, maxCoefBits, ts, p.bits);
    if r > 0 {
      p.PutBits(ts.ac.ehufco[EOB], ts.ac.ehufsi[EOB]);
    }
    p.Extent();
  }

  // ---------- counting ----------

  /** How often a DC or AC symbol occurs. */
  function Occurs(items: seq<Item>, dc: bool, v: nat): nat {
    if items == [] then 0
    else (if items[0].dc == dc && items[0].symbol == v then 1 else 0) + Occurs(items[1..], dc, v)
  }

  lemma {:induction false} OccursAppend(a: seq<Item>, b: seq<Item>, dc: bool, v: nat)
    ensures Occurs(a + b, dc, v) == Occurs(a, dc, v) + Occurs(b, dc, v)
  {
    if a == [] {
      assert a + b == b;
    } else {
      assert (a + b)[1..] == a[1..] + b;
      OccursAppend(a[1..], b, dc, v);
    }
  }

  /** The counts with those of the items added. */
  function Counted(counts: seq<nat>, items: seq<Item>, dc: bool): (c: seq<nat>)
    ensures |c| == |counts| && forall v :: 0 <= v < |c| ==> c[v] == counts[v] + Occurs(items, dc, v)
  {
    seq(|counts|, v requires 0 <= v < |counts| => counts[v] + Occurs(items, dc, v))
  }

  lemma CountedAppend(counts: seq<nat>, a: seq<Item>, b: seq<Item>, dc: bool)
    ensures Counted(counts, a + b, dc) == Counted(Counted(counts, a, dc), b, dc)
  {
    forall v | 0 <= v < |counts|
      ensures Counted(counts, a + b, dc)[v] == Counted(Counted(counts, a, dc), b, dc)[v]
    {
      OccursAppend(a, b, dc, v);
    }
  }

  lemma CountedOne(counts: seq<nat>, it: Item)
    requires it.symbol < |counts|
    ensures Counted(counts, [it], it.dc) == counts[it.symbol := counts[it.symbol] + 1]
    ensures Counted(counts, [it], !it.dc) == counts
  {
    assert [it][1..] == [];
    forall v | 0 <= v < |counts|
      ensures Occurs([it], it.dc, v) == if v == it.symbol then 1 else 0
      ensures Occurs([it], !it.dc, v) == 0
    {
      assert Occurs([it][1..], it.dc, v) == 0 && Occurs([it][1..], !it.dc, v) == 0;
    }
  }

  lemma CountedNone(counts: seq<nat>, dc: bool)
    ensures Counted(counts, [], dc) == counts
  {
  }

  /** The number of bits of a magnitude, shifted out one by one. */
  method CountBits(magnitude: nat) returns (nbits: nat)
    ensures nbits == NBits(magnitude)
  {
    var temp := magnitude;
    nbits := 0;
    while temp != 0
      invariant nbits + NBits(temp) == NBits(magnitude)
    {
      nbits := nbits + 1;
      temp := temp / 2;
    }
  }

  /** Counts one coefficient behind r zeros; fails on one out of range. */
  method CountRun(v: int, r0: nat, maxCoefBits: nat, acCounts: array<nat>) returns (ok: bool)
    requires v != 0 && maxCoefBits < 15 && acCounts.Length == 257
    modifies acCounts
    ensures ok <==> NBits(Abs(v)) <= maxCoefBits
    ensures ok ==> acCounts[..] == Counted(old(acCounts[..]), RunItems(r0, v), false)
  {
    hide RunItems, Counted;
    var r: nat := r0;
    ghost var good := NBits(Abs(v)) <= maxCoefBits;
    ghost var all := if good then Counted(acCounts[..], RunItems(r0, v), false) else [];
    while r > 15
      invariant good ==> Counted(acCounts[..], RunItems(r, v), false) == all
    {
      if good {
        RunCounted(acCounts[..], r, v);
      }
      ghost var before := acCounts[..];
      acCounts[ZRL] := acCounts[ZRL] + 1;
      assert acCounts[..] == before[ZRL := before[ZRL] + 1];
      r := r - 16;
    }
    var nbits := CountBits(Abs(v));
    if nbits > maxCoefBits {
      return false;
    }
    LastCounted(acCounts[..], r, v);
    ghost var before := acCounts[..];
    acCounts[16 * r + nbits] := acCounts[16 * r + nbits] + 1;
    assert acCounts[..] == before[16 * r + nbits := before[16 * r + nbits] + 1];
    ok := true;
  }

  lemma RunCounted(counts: seq<nat>, r: nat, v: int)
    requires r >= 16 && NBits(Abs(v)) < 16 && |counts| == 257
    ensures Counted(counts, RunItems(r, v), false)
         == Counted(counts[ZRL := counts[ZRL] + 1], RunItems(r - 16, v), false)
  {
    CountedAppend(counts, [Item(false, ZRL, [])], RunItems(r - 16, v), false);
    CountedOne(counts, Item(false, ZRL, []));
  }

  lemma LastCounted(counts: seq<nat>, r: nat, v: int)
    requires r < 16 && NBits(Abs(v)) < 16 && |counts| == 257
    ensures var s := 16 * r + NBits(Abs(v));
            s < 256 && Counted(counts, RunItems(r, v), false) == counts[s := counts[s] + 1]
  {
    CountedOne(counts, RunItems(r, v)[0]);
  }

  /** htest_one_block: exactly the symbols that encode_one_block sends are counted. */
  method CountBlock(block: Block, lastDc: int, precision: nat, dcCounts: array<nat>, acCounts: array<nat>)
    returns (ok: bool)
    requires precision <= 12 && dcCounts.Length == acCounts.Length == 257 && dcCounts != acCounts
    modifies dcCounts, acCounts
    ensures ok <==> InRange(block[0] - lastDc, ToZigZag(block), precision + 2)
    ensures ok ==>
              var items := BlockItems(block[0] - lastDc, ToZigZag(block), precision + 2);
              && dcCounts[..] == Counted(old(dcCounts[..]), items, true)
              && acCounts[..] == Counted(old(acCounts[..]), items, false)
  {
    hide AcItems, RunItems, AcInRange, Counted;
    var maxCoefBits, diff := precision + 2, block[0] - lastDc;
    ghost var z, dcBefore, acBefore := ToZigZag(block), dcCounts[..], acCounts[..];
    var nbits := CountBits(Abs(diff));
    if nbits > maxCoefBits + 1 {
      return false;
    }
    dcCounts[nbits] := dcCounts[nbits] + 1;
    assert dcCounts[..] == dcBefore[nbits := dcBefore[nbits] + 1];
    ghost var good := AcInRange(z, 1, maxCoefBits);
    ghost var all: seq<nat> := if good then Counted(acBefore, AcItems(z, 1, 0, maxCoefBits), false) else [];
    var r, k: nat := 0, 1;
    while k < 64
      invariant 1 <= k <= 64 && 0 <= r < k && dcCounts[..] == dcBefore[nbits := dcBefore[nbits] + 1]
      invariant good <==> AcInRange(z, k, maxCoefBits)
      invariant good ==> Counted(acCounts[..], AcItems(z, k, r, maxCoefBits), false) == all
    {
      ZigZagAt(block, k);
      CountStep(z, k, r, maxCoefBits, acCounts[..]);
      if block[Natural(k)] == 0 {
        r := r + 1;
      } else {
        var inRange := CountRun(block[Natural(k)], r, maxCoefBits, acCounts);
        if !inRange {
          return false;
        }
        r := 0;
      }
      k := k + 1;
    }
    NothingBehind(z, maxCoefBits);
    EndCounted(z, r, maxCoefBits, acCounts[..]);
    if r > 0 {
      ghost var before := acCounts[..];
      acCounts[0] := acCounts[0] + 1;
      assert acCounts[..] == before[0 := before[0] + 1];
    }
    DcCounted(diff, z, maxCoefBits, dcBefore, acBefore);
    ok := true;
  }

  lemma CountStep(z: Block, k: nat, r: nat, m: nat, counts: seq<nat>)
    requires 1 <= k < 64 && m < 15 && |counts| == 257
    ensures AcInRange(z, k, m) <==> NBits(Abs(z[k])) <= m && AcInRange(z, k + 1, m)
    ensures AcInRange(z, k, m) && z[k] == 0 ==> AcItems(z, k, r, m) == AcItems(z, k + 1, r + 1, m)
    ensures AcInRange(z, k, m) && z[k] != 0 ==>
              Counted(counts, AcItems(z, k, r, m), false)
              == Counted(Counted(counts, RunItems(r, z[k]), false), AcItems(z, k + 1, 0, m), false)
  {
    if AcInRange(z, k, m) && z[k] != 0 {
      CountedAppend(counts, RunItems(r, z[k]), AcItems(z, k + 1, 0, m), false);
    }
  }

  lemma EndCounted(z: Block, r: nat, m: nat, counts: seq<nat>)
    requires m < 15 && AcInRange(z, 64, m) && |counts| == 257
    ensures Counted(counts, AcItems(z, 64, r, m), false) == if r > 0 then counts[0 := counts[0] + 1] else counts
  {
    if r > 0 {
      CountedOne(counts, Item(false, EOB, []));
    } else {
      CountedNone(counts, false);
    }
  }

  lemma DcCounted(diff: int, z: Block, m: nat, dcCounts: seq<nat>, acCounts: seq<nat>)
    requires m < 15 && InRange(diff, z, m) && |dcCounts| == |acCounts| == 257
    ensures var n := NBits(Abs(diff)); Counted(dcCounts, BlockItems(diff, z, m), true) == dcCounts[n := dcCounts[n] + 1]
    ensures Counted(acCounts, BlockItems(diff, z, m), false) == Counted(acCounts, AcItems(z, 1, 0, m), false)
  {
    var it, ac := DcItem(diff), AcItems(z, 1, 0, m);
    CountedAppend(dcCounts, [it], ac, true);
    CountedAppend(acCounts, [it], ac, false);
    CountedOne(dcCounts, it);
    CountedOne(acCounts, it);
    NoDcAmongAc(z, 1, 0, m);
    assert Counted(dcCounts, [it], true) == dcCounts[it.symbol := dcCounts[it.symbol] + 1];
    forall v | 0 <= v < 257
      ensures Occurs(ac, true, v) == 0
    {
      NoneOccurs(ac, v);
    }
  }

  lemma {:induction false} NoDcAmongAc(z: Block, k: nat, r: nat, m: nat)
    requires 1 <= k <= 64 && m < 15 && AcInRange(z, k, m)
    ensures forall i :: 0 <= i < |AcItems(z, k, r, m)| ==> !AcItems(z, k, r, m)[i].dc
    decreases 64 - k
  {
    if k < 64 {
      if z[k] == 0 {
        NoDcAmongAc(z, k + 1, r + 1, m);
      } else {
        NoDcInRun(r, z[k]);
        NoDcAmongAc(z, k + 1, 0, m);
      }
    }
  }

  lemma {:induction false} NoDcInRun(r: nat, v: int)
    requires NBits(Abs(v)) < 16
    ensures forall i :: 0 <= i < |RunItems(r, v)| ==> !RunItems(r, v)[i].dc
  {
    if r >= 16 {
      NoDcInRun(r - 16, v);
    }
  }

  lemma {:induction false} NoneOccurs(items: seq<Item>, v: nat)
    requires forall i :: 0 <= i < |items| ==> !items[i].dc
    ensures Occurs(items, true, v) == 0
  {
    if items != [] {
      NoneOccurs(items[1..], v);
    }
  }

  /** A symbol of the list has been counted. */
  lemma {:induction false} ItemOccurs(items: seq<Item>, i: nat)
    requires i < |items|
    ensures Occurs(items, items[i].dc, items[i].symbol) > 0
  {
    if i > 0 {
      ItemOccurs(items[1..], i - 1);
    }
  }
}
