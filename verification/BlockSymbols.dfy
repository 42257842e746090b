/**
 * One block as Huffman symbols with their extra bits (sections F.1.2.1 and F.1.2.2), the bits
 * they make up, and the decoder of section F.2.2 as decode_mcu_slow has it.
 */
module BlockSymbols {
  import opened Powers
  import opened Bits
  import opened HuffTable
  import opened ZigZag

  type Symbol = v: nat | v < 256

  const ZRL: Symbol := 0xF0
  const EOB: Symbol := 0x00

  datatype Item = Item(dc: bool, symbol: Symbol, extra: seq<bool>)

  /** The number of bits of a magnitude. */
  function NBits(x: nat): (n: nat)
    ensures n == 0 <==> x == 0
  {
    if x == 0 then 0 else NBits(x / 2) + 1
  }

  lemma {:induction false} NBitsIsTight(x: nat)
    ensures x < Pow2(NBits(x)) && (x > 0 ==> Pow2(NBits(x) - 1) <= x)
  {
    if x > 0 {
      NBitsIsTight(x / 2);
    }
  }

  lemma {:induction false} NBitsBound(x: nat, n: nat)
    ensures NBits(x) <= n <==> x < Pow2(n)
  {
    NBitsIsTight(x);
    if NBits(x) <= n {
      Pow2Monotonic(NBits(x), n);
    } else {
      Pow2Monotonic(n, NBits(x) - 1);
    }
  }

  /** The value, or for a negative one its ones' complement, in n bits. */
  function Extra(v: int, n: nat): seq<bool> {
    ToBits((if v < 0 then v - 1 else v) % Pow2(n), n)
  }

  /** Figure F.12. */
  function Extend(x: nat, s: nat): int
    requires s > 0
  {
    if x < Pow2(s - 1) then x - Pow2(s) + 1 else x
  }

  lemma ExtendIsRight(v: int)
    requires v != 0
    ensures var s := NBits(Abs(v)); Extend(FromBits(Extra(v, s)), s) == v
  {
    var s := NBits(Abs(v));
    NBitsIsTight(Abs(v));
    var p := Pow2(s);
    if v < 0 {
      DivideNegative(v - 1, p);
      FromToBits(v - 1 + p, s);
    } else {
      SmallModulo(v, p);
      FromToBits(v, s);
    }
  }

  lemma SmallModulo(v: nat, p: nat)
    requires v < p
    ensures v % p == v
  {
    DivideUnique(v, p, 0, v);
  }

  lemma DivideNegative(v: int, p: nat)
    requires 0 <= v + p && v < 0
    ensures p > 0 && v % p == v + p
  {
    var q, r := v / p, v % p;
    assert v == q * p + r;
    if q < -1 {
      MulMonotonic(q, -2, p);
    } else if q >= 0 {
      MulMonotonic(0, q, p);
    }
  }

  // ---------- the symbols of a block ----------

  /** Coefficients that can be coded: max_coef_bits is the data precision plus 2. */
  ghost predicate InRange(diff: int, z: Block, maxCoefBits: nat) {
    NBits(Abs(diff)) <= maxCoefBits + 1 && AcInRange(z, 1, maxCoefBits)
  }

  ghost predicate AcInRange(z: Block, k: nat, maxCoefBits: nat) {
    forall i :: k <= i < 64 ==> NBits(Abs(z[i])) <= maxCoefBits
  }

  function DcItem(diff: int): Item
    requires NBits(Abs(diff)) < 256
  {
    Item(true, NBits(Abs(diff)), Extra(diff, NBits(Abs(diff))))
  }

  /** A nonzero coefficient behind r zeros. */
  function RunItems(r: nat, v: int): seq<Item>
    requires NBits(Abs(v)) < 16
  {
    if r >= 16 then [Item(false, ZRL, [])] + RunItems(r - 16, v)
    else [Item(false, 16 * r + NBits(Abs(v)), Extra(v, NBits(Abs(v))))]
  }

  /** The coefficients from k on, behind r zeros. */
  function AcItems(z: Block, k: nat, r: nat, maxCoefBits: nat): seq<Item>
    requires 1 <= k <= 64 && maxCoefBits < 16 && AcInRange(z, k, maxCoefBits)
    decreases 64 - k
  {
    if k == 64 then (if r > 0 then [Item(false, EOB, [])] else [])
    else if z[k] == 0 then AcItems(z, k + 1, r + 1, maxCoefBits)
    else RunItems(r, z[k]) + AcItems(z, k + 1, 0, maxCoefBits)
  }

  function BlockItems(diff: int, z: Block, maxCoefBits: nat): seq<Item>
    requires maxCoefBits < 16 && InRange(diff, z, maxCoefBits)
  {
    [DcItem(diff)] + AcItems(z, 1, 0, maxCoefBits)
  }

  // ---------- their bits ----------

  datatype Tables = Tables(dc: Derived, ac: Derived)

  ghost predicate IsTables(ts: Tables) {
    HasCodes(ts.dc) && HasCodes(ts.ac)
  }

  /** Every code is written in its own length, which is at most 16. */
  ghost predicate HasCodes(d: Derived) {
    && |d.ehufco| == |d.ehufsi| == 256
    && forall v :: 0 <= v < 256 ==> d.ehufsi[v] <= 16 && d.ehufco[v] < Pow2(d.ehufsi[v])
  }

  function TableOf(it: Item, ts: Tables): Derived {
    if it.dc then ts.dc else ts.ac
  }

  function ItemBits(it: Item, ts: Tables): (b: seq<bool>)
    requires IsTables(ts)
  {
    var d := TableOf(it, ts);
    ToBits(d.ehufco[it.symbol], d.ehufsi[it.symbol]) + it.extra
  }

  function ItemsBits(items: seq<Item>, ts: Tables): seq<bool>
    requires IsTables(ts)
  {
    if items == [] then [] else ItemBits(items[0], ts) + ItemsBits(items[1..], ts)
  }

  lemma {:induction false} ItemsBitsAppend(a: seq<Item>, b: seq<Item>, ts: Tables)
    requires IsTables(ts)
    ensures ItemsBits(a + b, ts) == ItemsBits(a, ts) + ItemsBits(b, ts)
  {
    if a == [] {
      assert a + b == b;
    } else {
      assert (a + b)[1..] == a[1..] + b;
      ItemsBitsAppend(a[1..], b, ts);
    }
  }

  lemma OneItem(it: Item, ts: Tables)
    requires IsTables(ts)
    ensures ItemsBits([it], ts) == ItemBits(it, ts)
  {
    assert [it][1..] == [];
  }

  /** The tables derived from acceptable ones have codes that fit. */
  lemma DerivedHasCodes(t: Table, d: Derived, maxSymbol: nat)
    requires IsTable(t) && Acceptable(t, maxSymbol) && IsDerived(d, t)
    ensures HasCodes(d)
  {
    var sizes := Sizes(t.bits, 16);
    SizesAscend(t.bits, 16);
    forall v | 0 <= v < 256
      ensures d.ehufsi[v] <= 16 && d.ehufco[v] < Pow2(d.ehufsi[v])
    {
      if v in t.huffval[..|sizes|] {
        var p :| 0 <= p < |sizes| && t.huffval[p] == v;
        CodeFitsItsLength(sizes, p);
      }
    }
  }

  // ---------- decoding ----------

  /** GET_BITS and HUFF_EXTEND; nothing when the bits run out. */
  function Receive(stream: seq<bool>, s: nat): Option<(int, seq<bool>)> {
    if |stream| < s then None
    else Some((if s == 0 then 0 else Extend(FromBits(stream[..s]), s), stream[s..]))
  }

  /** Section F.2.2.2 from coefficient k on. Corrupt data may run past the last coefficient; the
      table of the zigzag order is extended so that this hits number 63. */
  function DecodeAc(t: Table, stream: seq<bool>, k: nat, z: Block): Option<(Block, seq<bool>)>
    requires IsTable(t)
    decreases 64 - k
  {
    if k >= 64 then Some((z, stream))
    else match DecodeSymbol(t, stream, 1) {
      case None => None
      case Some((symbol, rest)) =>
        var r, s := symbol / 16, symbol % 16;
        if s == 0 then
          if r != 15 then Some((z, rest)) else DecodeAc(t, rest, k + 16, z)
        else match Receive(rest, s) {
          case None => None
          case Some((v, rest')) => DecodeAc(t, rest', k + r + 1, z[(if k + r < 64 then k + r else 63) := v])
        }
    }
  }

  /** A block: the DC difference, the zigzag sequence with DC left out, and the bits behind. */
  function DecodeBlock(dc: Table, ac: Table, stream: seq<bool>): Option<(int, Block, seq<bool>)>
    requires IsTable(dc) && IsTable(ac)
  {
    var symbol := DecodeSymbol(dc, stream, 1);
    if symbol.None? then None
    else
      var diff := Receive(symbol.value.1, symbol.value.0);
      if diff.None? then None
      else
        var coefs := DecodeAc(ac, diff.value.1, 1, DcOnly(0));
        if coefs.None? then None else Some((diff.value.0, coefs.value.0, coefs.value.1))
  }

  /** A table that can be used and what is derived from it. */
  ghost predicate Matches(t: Table, d: Derived) {
    IsTable(t) && Acceptable(t, 255) && IsDerived(d, t)
  }

  /** Decoding the code of a symbol that has one. */
  lemma ItemIsDecoded(t: Table, d: Derived, v: Symbol, extra: seq<bool>, rest: seq<bool>)
    requires Matches(t, d) && d.ehufsi[v] > 0
    ensures DecodeSymbol(t, ToBits(d.ehufco[v], d.ehufsi[v]) + extra + rest, 1) == Some((v, extra + rest))
  {
    hide DecodeSymbol, ToBits;
    var sizes := Sizes(t.bits, 16);
    SizesAscend(t.bits, 16);
    assert v in t.huffval[..|sizes|];
    var p :| 0 <= p < |sizes| && t.huffval[p] == v;
    SymbolIsDecoded(t, p, extra + rest, 1);
    Regroup(CodeWord(sizes, p), extra, rest);
  }

  lemma ExtraIsReceived(v: int, rest: seq<bool>)
    ensures Receive(Extra(v, NBits(Abs(v))) + rest, NBits(Abs(v))) == Some((v, rest))
  {
    var s := NBits(Abs(v));
    var e := Extra(v, s);
    assert (e + rest)[..s] == e && (e + rest)[s..] == rest;
    if v != 0 {
      ExtendIsRight(v);
    }
  }

  ghost predicate AllCoded(items: seq<Item>, ts: Tables)
    requires IsTables(ts)
  {
    forall i :: 0 <= i < |items| ==> TableOf(items[i], ts).ehufsi[items[i].symbol] > 0
  }

  lemma AllCodedParts(a: seq<Item>, b: seq<Item>, ts: Tables)
    requires IsTables(ts) && AllCoded(a + b, ts)
    ensures AllCoded(a, ts) && AllCoded(b, ts)
  {
    assert forall i :: 0 <= i < |a| ==> a[i] == (a + b)[i];
    assert forall i :: 0 <= i < |b| ==> b[i] == (a + b)[|a| + i];
  }

  /** The first k coefficients without DC, and zeros. */
  function AcUpto(z: Block, k: nat): Block
    requires k <= 64
  {
    Upto(z[0 := 0], k)
  }

  lemma ZrlSkips(t: Table, stream: seq<bool>, k: nat, z: Block, rest: seq<bool>)
    requires IsTable(t) && k < 64 && DecodeSymbol(t, stream, 1) == Some((ZRL as nat, rest))
    ensures DecodeAc(t, stream, k, z) == DecodeAc(t, rest, k + 16, z)
  {
    hide DecodeSymbol, Receive, IsTable;
  }

  lemma CoefIsStored(t: Table, stream: seq<bool>, k: nat, z: Block, r: nat, s: nat, v: int, behind: seq<bool>,
                     rest: seq<bool>)
    requires IsTable(t) && r < 16 && 0 < s < 16 && k + r < 64
    requires DecodeSymbol(t, stream, 1) == Some((16 * r + s, behind)) && Receive(behind, s) == Some((v, rest))
    ensures DecodeAc(t, stream, k, z) == DecodeAc(t, rest, k + r + 1, z[k + r := v])
  {
    hide DecodeSymbol, Receive, IsTable;
    assert (16 * r + s) / 16 == r && (16 * r + s) % 16 == s;
  }

  lemma {:induction false} RunIsDecoded(t: Table, ts: Tables, z: Block, k: nat, r: nat, rest: seq<bool>)
    requires IsTables(ts) && Matches(t, ts.ac) && 1 <= k < 64 && r < k && z[k] != 0 && NBits(Abs(z[k])) < 16
    requires AllCoded(RunItems(r, z[k]), ts)
    requires forall i :: k - r <= i < k ==> z[i] == 0
    ensures DecodeAc(t, ItemsBits(RunItems(r, z[k]), ts) + rest, k - r, AcUpto(z, k))
            == DecodeAc(t, rest, k + 1, AcUpto(z, k + 1))
    decreases r
  {
    hide DecodeSymbol, DecodeAc, ItemBits, Receive, IsDerived, Acceptable, ItemsBits;
    var items, v := RunItems(r, z[k]), z[k];
    var stream := ItemsBits(items, ts) + rest;
    ItemStream(items, ts, rest);
    assert TableOf(items[0], ts).ehufsi[items[0].symbol] > 0;
    if r >= 16 {
      var more := RunItems(r - 16, v);
      assert items[1..] == more;
      AllCodedParts([items[0]], more, ts);
      RunIsDecoded(t, ts, z, k, r - 16, rest);
      ItemIsDecoded(t, ts.ac, ZRL, [], ItemsBits(more, ts) + rest);
      assert [] + (ItemsBits(more, ts) + rest) == ItemsBits(more, ts) + rest;
      ZrlSkips(t, stream, k - r, AcUpto(z, k), ItemsBits(more, ts) + rest);
    } else {
      var s := NBits(Abs(v));
      assert items[1..] == [];
      NoItems(ts, rest);
      ItemIsDecoded(t, ts.ac, 16 * r + s, Extra(v, s), rest);
      ExtraIsReceived(v, rest);
      CoefIsStored(t, stream, k - r, AcUpto(z, k), r, s, v, Extra(v, s) + rest, rest);
      assert AcUpto(z, k)[k := v] == AcUpto(z, k + 1);
    }
  }

  lemma NoItems(ts: Tables, rest: seq<bool>)
    requires IsTables(ts)
    ensures ItemsBits([], ts) + rest == rest
  {
  }

  lemma Regroup(a: seq<bool>, b: seq<bool>, c: seq<bool>)
    ensures a + b + c == a + (b + c)
  {
  }

  lemma ItemStream(items: seq<Item>, ts: Tables, rest: seq<bool>)
    requires IsTables(ts) && items != []
    ensures var it, d := items[0], TableOf(items[0], ts);
            ItemsBits(items, ts) + rest
            == ToBits(d.ehufco[it.symbol], d.ehufsi[it.symbol]) + it.extra + (ItemsBits(items[1..], ts) + rest)
  {
  }

  lemma {:induction false} AcAreDecoded(t: Table, ts: Tables, z: Block, k: nat, r: nat, m: nat, rest: seq<bool>)
    requires IsTables(ts) && Matches(t, ts.ac) && 1 <= k <= 64 && r < k && m < 16 && AcInRange(z, k, m)
    requires AllCoded(AcItems(z, k, r, m), ts)
    requires forall i :: k - r <= i < k ==> z[i] == 0
    ensures DecodeAc(t, ItemsBits(AcItems(z, k, r, m), ts) + rest, k - r, AcUpto(z, k)) == Some((AcUpto(z, 64), rest))
    decreases 64 - k
  {
    hide DecodeSymbol, DecodeAc, ItemsBits, RunItems, AllCoded, IsDerived, Acceptable;
    if k == 64 {
      EndIsCoded(r, ts);
      EndIsDecoded(t, ts, AcUpto(z, 64), r, rest);
    } else if z[k] == 0 {
      assert AcUpto(z, k) == AcUpto(z, k + 1);
      AcAreDecoded(t, ts, z, k + 1, r + 1, m, rest);
    } else {
      var run, more := RunItems(r, z[k]), AcItems(z, k + 1, 0, m);
      AllCodedParts(run, more, ts);
      ItemsBitsAppend(run, more, ts);
      Regroup(ItemsBits(run, ts), ItemsBits(more, ts), rest);
      RunIsDecoded(t, ts, z, k, r, ItemsBits(more, ts) + rest);
      AcAreDecoded(t, ts, z, k + 1, 0, m, rest);
    }
  }

  lemma EndIsCoded(r: nat, ts: Tables)
    requires IsTables(ts) && AllCoded(if r > 0 then [Item(false, EOB, [])] else [], ts)
    ensures r > 0 ==> ts.ac.ehufsi[EOB] > 0
  {
    if r > 0 {
      assert TableOf([Item(false, EOB, [])][0], ts).ehufsi[EOB] > 0;
    }
  }

  lemma EndIsDecoded(t: Table, ts: Tables, z: Block, r: nat, rest: seq<bool>)
    requires IsTables(ts) && Matches(t, ts.ac) && r < 64
    requires r > 0 ==> ts.ac.ehufsi[EOB] > 0
    ensures DecodeAc(t, ItemsBits(if r > 0 then [Item(false, EOB, [])] else [], ts) + rest, 64 - r, z)
            == Some((z, rest))
  {
    hide DecodeSymbol, ItemBits, IsDerived;
    var items := if r > 0 then [Item(false, EOB, [])] else [];
    if r > 0 {
      assert items[1..] == [];
      ItemStream(items, ts, rest);
      NoItems(ts, rest);
      ItemIsDecoded(t, ts.ac, EOB, [], rest);
      assert [] + rest == rest;
    } else {
      NoItems(ts, rest);
    }
  }

  /** Section F.2.2 undoes section F.1.2: the block comes back, and the bits behind it are left. */
  lemma BlockRoundTrip(dc: Table, ac: Table, ts: Tables, diff: int, z: Block, m: nat, rest: seq<bool>)
    requires IsTables(ts) && Matches(dc, ts.dc) && Matches(ac, ts.ac)
    requires m < 16 && InRange(diff, z, m) && AllCoded(BlockItems(diff, z, m), ts)
    ensures DecodeBlock(dc, ac, ItemsBits(BlockItems(diff, z, m), ts) + rest) == Some((diff, z[0 := 0], rest))
  {
    hide DecodeSymbol, DecodeAc, ItemsBits, IsDerived, Receive, Extra, AcItems;
    var items, more := BlockItems(diff, z, m), AcItems(z, 1, 0, m);
    assert items[1..] == more;
    AllCodedParts([items[0]], more, ts);
    ItemStream(items, ts, rest);
    assert TableOf(items[0], ts).ehufsi[items[0].symbol] > 0;
    ItemIsDecoded(dc, ts.dc, NBits(Abs(diff)), Extra(diff, NBits(Abs(diff))), ItemsBits(more, ts) + rest);
    ExtraIsReceived(diff, ItemsBits(more, ts) + rest);
    assert AcUpto(z, 1) == DcOnly(0);
    AcAreDecoded(ac, ts, z, 1, 0, m, rest);
    assert AcUpto(z, 64) == z[0 := 0];
  }
}
