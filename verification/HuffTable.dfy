/**
 * Huffman tables: the derived encoding table of jpeg_make_c_derived_tbl (Annex C), and the
 * bit-sequential decoder that section F.2.2.3 builds from the same table.
 */
module HuffTable {
  import opened Powers
  import opened CodeBytes
  import opened Bits

  /** JHUFF_TBL: bits[l] codes of length l (bits[0] is unused), and the symbols in code order. */
  datatype Table = Table(bits: seq<nat>, huffval: seq<nat>)

  ghost predicate IsTable(t: Table) {
    |t.bits| == 17 && |t.huffval| == 256
  }

  /** c_derived_tbl: code and code length by symbol; length 0 means no code. */
  datatype Derived = Derived(ehufco: seq<nat>, ehufsi: seq<nat>)

  datatype Option<T> = None | Some(value: T)

  // ---------- code lengths and codes ----------

  /** The code lengths up to l in code order (Figure C.1). */
  function Sizes(bits: seq<nat>, l: nat): (s: seq<nat>)
    requires l < |bits|
  {
    if l == 0 then [] else Sizes(bits, l - 1) + Repeat(l, bits[l])
  }

  function MaxSymbol(isDC: bool, lossless: bool): nat {
    if isDC then (if lossless then 16 else 15) else 255
  }

  /** The part of the code space that the first p codes take up, in units of 2^-16. */
  function Left(sizes: seq<nat>, p: nat): nat
    requires p <= |sizes| && IsLengths(sizes)
  {
    if p == 0 then 0 else Left(sizes, p - 1) + Pow2(16 - sizes[p - 1])
  }

  ghost predicate IsLengths(sizes: seq<nat>) {
    forall i :: 0 <= i < |sizes| ==> 1 <= sizes[i] <= 16
  }

  ghost predicate Ascending(sizes: seq<nat>) {
    forall i, j :: 0 <= i < j < |sizes| ==> sizes[i] <= sizes[j]
  }

  /** Annex C code p: where the codes before it end, cut to its own length. */
  function Code(sizes: seq<nat>, p: nat): nat
    requires p < |sizes| && IsLengths(sizes)
  {
    ShiftRight(Left(sizes, p), 16 - sizes[p])
  }

  ghost predicate Distinct(s: seq<nat>, n: nat)
    requires n <= |s|
  {
    forall i, j :: 0 <= i < j < n ==> s[i] != s[j]
  }

  /** The tables that can be used: the Kraft sum leaves room, which also keeps the code of all
      ones free, and the symbols are distinct and in range. */
  ghost predicate Acceptable(t: Table, maxSymbol: nat)
    requires IsTable(t)
  {
    var sizes := Sizes(t.bits, 16);
    && |sizes| <= 256
    && IsLengths(sizes) && Left(sizes, |sizes|) < Pow2(16)
    && Distinct(t.huffval, |sizes|)
    && forall i :: 0 <= i < |sizes| ==> t.huffval[i] <= maxSymbol
  }

  /** Symbol huffval[p] has code p; the other symbols have none. */
  ghost predicate IsDerived(d: Derived, t: Table)
    requires IsTable(t)
  {
    var sizes := Sizes(t.bits, 16);
    && |d.ehufco| == |d.ehufsi| == 256
    && |sizes| <= 256 && IsLengths(sizes)
    && (forall p :: 0 <= p < |sizes| ==> t.huffval[p] < 256)
    && (forall p :: 0 <= p < |sizes| ==>
          d.ehufco[t.huffval[p]] == Code(sizes, p) && d.ehufsi[t.huffval[p]] == sizes[p])
    && (forall v :: 0 <= v < 256 && v !in t.huffval[..|sizes|] ==> d.ehufco[v] == 0 && d.ehufsi[v] == 0)
  }

  lemma {:induction false} SizesAscend(bits: seq<nat>, l: nat)
    requires l < |bits| && l <= 16
    ensures var s := Sizes(bits, l);
            IsLengths(s) && Ascending(s) && (forall i :: 0 <= i < |s| ==> s[i] <= l)
  {
    if l > 0 {
      SizesAscend(bits, l - 1);
    }
  }

  lemma {:induction false} SizesExtend(bits: seq<nat>, l: nat, m: nat)
    requires l <= m < |bits|
    ensures Sizes(bits, l) <= Sizes(bits, m)
    decreases m
  {
    if l < m {
      SizesExtend(bits, l, m - 1);
    }
  }

  lemma {:induction false} LeftMonotonic(sizes: seq<nat>, p: nat, q: nat)
    requires p <= q <= |sizes| && IsLengths(sizes)
    ensures Left(sizes, p) <= Left(sizes, q)
    decreases q
  {
    if p < q {
      LeftMonotonic(sizes, p, q - 1);
    }
  }

  /** Codes of lengths up to s end at a multiple of the unit of length s. */
  lemma {:induction false} LeftIsCodes(sizes: seq<nat>, p: nat, s: nat)
    requires p <= |sizes| && IsLengths(sizes) && s <= 16
    requires forall i :: 0 <= i < p ==> sizes[i] <= s
    ensures Left(sizes, p) == ShiftLeft(ShiftRight(Left(sizes, p), 16 - s), 16 - s)
  {
    var u := Pow2(16 - s);
    if p == 0 {
      DivideUnique(0, u, 0, 0);
    } else {
      LeftIsCodes(sizes, p - 1, s);
      var d := s - sizes[p - 1];
      assert d + (16 - s) == 16 - sizes[p - 1];
      Pow2Add(d, 16 - s);
      var q := ShiftRight(Left(sizes, p - 1), 16 - s);
      MulDistributes(q, Pow2(d), u);
      DivideUnique(Left(sizes, p), u, q + Pow2(d), 0);
    }
  }

  /** The next code of the same length is the next number; a longer one is shifted as well. */
  lemma CodeAfter(sizes: seq<nat>, p: nat, s: nat)
    requires p < |sizes| && IsLengths(sizes) && Ascending(sizes) && sizes[p] <= s <= 16
    ensures Left(sizes, p + 1) == ShiftLeft(ShiftLeft(Code(sizes, p) + 1, s - sizes[p]), 16 - s)
    ensures Left(sizes, p) == ShiftLeft(Code(sizes, p), 16 - sizes[p])
    ensures p + 1 < |sizes| && s == sizes[p + 1] ==> Code(sizes, p + 1) == ShiftLeft(Code(sizes, p) + 1, s - sizes[p])
  {
    var d, u, c := s - sizes[p], Pow2(16 - s), Code(sizes, p);
    LeftIsCodes(sizes, p, sizes[p]);
    Pow2Add(d, 16 - s);
    assert d + (16 - s) == 16 - sizes[p];
    MulDistributes(c, 1, Pow2(16 - sizes[p]));
    MulAssociative(c + 1, Pow2(d), u);
    if p + 1 < |sizes| && s == sizes[p + 1] {
      DivideUnique(Left(sizes, p + 1), u, ShiftLeft(c + 1, d), 0);
    }
  }

  /** A later code lies beyond the whole range of an earlier one. */
  lemma CodesApart(sizes: seq<nat>, p: nat, q: nat)
    requires p < q < |sizes| && IsLengths(sizes) && Ascending(sizes)
    ensures ShiftRight(Code(sizes, q), sizes[q] - sizes[p]) > Code(sizes, p)
  {
    var s, d := sizes[p], sizes[q] - sizes[p];
    var c, u := Code(sizes, p), Pow2(16 - s);
    CodeAfter(sizes, p, s);
    LeftMonotonic(sizes, p + 1, q);
    LeftIsCodes(sizes, q, sizes[q]);
    Pow2Add(d, 16 - sizes[q]);
    assert d + (16 - sizes[q]) == 16 - s;
    Above(Code(sizes, q), Pow2(d), Pow2(16 - sizes[q]), c + 1);
  }

  lemma Above(x: nat, d: nat, u: nat, c: nat)
    requires d > 0 && u > 0 && c * (d * u) <= x * u
    ensures Quotient(x, d) >= c
  {
    var q := Quotient(x, d);
    if q < c {
      assert x < c * d by { MulMonotonic(q + 1, c, d); MulDistributes(q, 1, d); }
      MulStrict(x, c * d, u);
      MulAssociative(c, d, u);
    }
  }

  /** The code space up to and including code p. */
  lemma EndOfCode(sizes: seq<nat>, p: nat)
    requires p < |sizes| && IsLengths(sizes) && Ascending(sizes)
    ensures Left(sizes, p + 1) == (Code(sizes, p) + 1) * Pow2(16 - sizes[p])
  {
    hide Left, Code;
    CodeAfter(sizes, p, sizes[p]);
    assert Pow2(0) == 1;
  }

  lemma CodeFitsItsLength(sizes: seq<nat>, p: nat)
    requires p < |sizes| && IsLengths(sizes) && Ascending(sizes) && Left(sizes, |sizes|) < Pow2(16)
    ensures Code(sizes, p) + 1 < Pow2(sizes[p])
  {
    hide Left, Pow2, Code, ShiftLeft;
    var s, c := sizes[p], Code(sizes, p);
    EndOfCode(sizes, p);
    LeftMonotonic(sizes, p + 1, |sizes|);
    Pow2Add(s, 16 - s);
    assert s + (16 - s) == 16;
    if c + 1 >= Pow2(s) {
      MulMonotonic(Pow2(s), c + 1, Pow2(16 - s));
    }
  }

  function CodeWord(sizes: seq<nat>, p: nat): seq<bool>
    requires p < |sizes| && IsLengths(sizes)
  {
    ToBits(Code(sizes, p), sizes[p])
  }

  ghost predicate IsCode(sizes: seq<nat>) {
    IsLengths(sizes) && Ascending(sizes) && Left(sizes, |sizes|) < Pow2(16)
  }

  /** No code word begins another, and none is all ones: padding is never taken for a code. */
  lemma CodeIsPrefixFree(sizes: seq<nat>, p: nat, q: nat)
    requires p < |sizes| && q < |sizes| && IsCode(sizes)
    ensures CodeWord(sizes, p) <= CodeWord(sizes, q) ==> p == q
    ensures false in CodeWord(sizes, p)
  {
    hide CodeWord, Left, ToBits;
    if p < q {
      EarlierIsNoPrefix(sizes, p, q);
    } else if q < p {
      WordLength(sizes, p);
      WordLength(sizes, q);
      Beginning(CodeWord(sizes, p), CodeWord(sizes, q));
      EarlierIsNoPrefix(sizes, q, p);
    }
    NotAllOnes(sizes, p);
  }

  lemma Beginning(a: seq<bool>, b: seq<bool>)
    ensures a <= b ==> a == b[..|a|]
    ensures a <= b && |a| >= |b| ==> b <= a
  {
  }

  lemma WordLength(sizes: seq<nat>, p: nat)
    requires p < |sizes| && IsLengths(sizes)
    ensures |CodeWord(sizes, p)| == sizes[p]
  {
  }

  lemma EarlierIsNoPrefix(sizes: seq<nat>, p: nat, q: nat)
    requires p < q < |sizes| && IsCode(sizes)
    ensures !(CodeWord(sizes, p) <= CodeWord(sizes, q))
  {
    hide Left, ToBits, ShiftRight;
    var s, d, x := sizes[p], sizes[q] - sizes[p], Code(sizes, q);
    CodeFitsItsLength(sizes, p);
    CodeFitsItsLength(sizes, q);
    CodesApart(sizes, p, q);
    ToBitsSplit(x, s, d);
    assert s + d == sizes[q];
    ShiftedFits(x, s, d);
    FromToBits(Code(sizes, p), s);
    FromToBits(ShiftRight(x, d), s);
    assert CodeWord(sizes, q)[..s] == ToBits(ShiftRight(x, d), s);
    Beginning(CodeWord(sizes, p), CodeWord(sizes, q));
  }

  lemma NotAllOnes(sizes: seq<nat>, p: nat)
    requires p < |sizes| && IsCode(sizes)
    ensures false in CodeWord(sizes, p)
  {
    hide Left;
    CodeFitsItsLength(sizes, p);
    FromToBits(Code(sizes, p), sizes[p]);
    if false !in CodeWord(sizes, p) {
      AllOnesValue(CodeWord(sizes, p));
    }
  }

  lemma {:induction false} AllOnesValue(b: seq<bool>)
    requires false !in b
    ensures FromBits(b) + 1 == Pow2(|b|)
  {
    if b != [] {
      AllOnesValue(b[..|b| - 1]);
    }
  }

  lemma ShiftedFits(x: nat, m: nat, d: nat)
    requires x < Pow2(m + d)
    ensures ShiftRight(x, d) < Pow2(m)
  {
    Pow2Add(m, d);
    if ShiftRight(x, d) >= Pow2(m) {
      MulMonotonic(Pow2(m), ShiftRight(x, d), Pow2(d));
    }
  }

  // ---------- jpeg_make_c_derived_tbl ----------

  /** Figure C.1: the code lengths, followed by a zero; fails on more than 256 codes. */
  method MakeSizes(t: Table) returns (ok: bool, huffsize: array<nat>, lastp: nat)
    requires IsTable(t)
    ensures fresh(huffsize) && huffsize.Length == 257
    ensures ok <==> |Sizes(t.bits, 16)| <= 256
    ensures ok ==> lastp <= 256 && huffsize[..lastp] == Sizes(t.bits, 16) && huffsize[lastp] == 0
  {
    huffsize := new nat[257];
    lastp := 0;
    var l := 1;
    while l <= 16
      invariant 1 <= l <= 17 && lastp <= 256
      invariant huffsize[..lastp] == Sizes(t.bits, l - 1)
    {
      if lastp + t.bits[l] > 256 {
        SizesExtend(t.bits, l, 16);
        return false, huffsize, lastp;
      }
      ghost var before := huffsize[..lastp];
      var i: nat := 0;
      while i < t.bits[l]
        invariant i <= t.bits[l] && |before| + i == lastp <= 256
        invariant huffsize[..lastp] == before + Repeat(l, i)
      {
        huffsize[lastp] := l;
        lastp := lastp + 1;
        RepeatSnoc(before, l, i);
        assert huffsize[..lastp - 1] == before + Repeat(l, i);
        i := i + 1;
      }
      l := l + 1;
    }
    huffsize[lastp] := 0;
    ok := true;
  }

  lemma OneMore(code: nat, si: nat)
    requires si <= 16
    ensures ShiftLeft(code + 1, 16 - si) == ShiftLeft(code, 16 - si) + Pow2(16 - si)
    ensures ShiftRight(ShiftLeft(code, 16 - si), 16 - si) == code
  {
    MulDistributes(code, 1, Pow2(16 - si));
    DivideUnique(ShiftLeft(code, 16 - si), Pow2(16 - si), code, 0);
  }

  lemma LengthIsFull(code: nat, si: nat)
    requires si <= 16
    ensures code >= Pow2(si) <==> ShiftLeft(code, 16 - si) >= Pow2(16)
    ensures si < 16 ==> ShiftLeft(2 * code, 15 - si) == ShiftLeft(code, 16 - si)
  {
    assert si + (16 - si) == 16;
    Pow2Add(si, 16 - si);
    if code >= Pow2(si) {
      MulMonotonic(Pow2(si), code, Pow2(16 - si));
    } else {
      MulStrict(code, Pow2(si), Pow2(16 - si));
    }
    if si < 16 {
      MulAssociative(code, 2, Pow2(15 - si));
      assert code * 2 == 2 * code;
    }
  }

  lemma NothingShifted(n: int)
    ensures n >= 0 ==> ShiftLeft(0, n) == 0
  {
  }

  /** Figure C.2: the codes; fails when the codes of some length run over. */
  method MakeCodes(huffsize: array<nat>, ghost sizes: seq<nat>) returns (ok: bool, huffcode: array<nat>)
    requires huffsize.Length == 257 && |sizes| <= 256
    requires huffsize[..|sizes|] == sizes && huffsize[|sizes|] == 0
    requires IsLengths(sizes) && Ascending(sizes)
    ensures fresh(huffcode) && huffcode.Length == 257
    ensures ok <==> Left(sizes, |sizes|) < Pow2(16)
    ensures ok ==> forall i :: 0 <= i < |sizes| ==> huffcode[i] == Code(sizes, i)
  {
    hide Pow2, ShiftLeft, ShiftRight;
    huffcode := new nat[257];
    var code: nat, si := 0, huffsize[0];
    NothingShifted(16 - si);
    var p := 0;
    while huffsize[p] != 0
      invariant 0 <= p <= |sizes|
      invariant p < |sizes| ==> si <= sizes[p] && ShiftLeft(code, 16 - si) == Left(sizes, p)
      invariant Left(sizes, p) < Pow2(16)
      invariant forall i :: 0 <= i < p ==> huffcode[i] == Code(sizes, i)
      decreases |sizes| - p, if p < |sizes| then sizes[p] - si else 0
    {
      ghost var start := p;
      while huffsize[p] == si
        invariant start <= p <= |sizes| && si <= 16
        invariant ShiftLeft(code, 16 - si) == Left(sizes, p)
        invariant p < |sizes| ==> si <= sizes[p]
        invariant forall i :: start <= i < p ==> sizes[i] == si
        invariant forall i :: 0 <= i < p ==> huffcode[i] == Code(sizes, i)
        decreases |sizes| - p
      {
        OneMore(code, si);
        huffcode[p] := code;
        p := p + 1;
        code := code + 1;
      }
      LengthIsFull(code, si);
      if code >= Pow2(si) {
        LeftMonotonic(sizes, p, |sizes|);
        return false, huffcode;
      }
      code := 2 * code;
      si := si + 1;
    }
    ok := true;
  }

  /** Figure C.3: codes and lengths by symbol; fails on a symbol out of range or met before. */
  method AssignCodes(t: Table, maxSymbol: nat, huffsize: array<nat>, huffcode: array<nat>, lastp: nat)
    returns (ok: bool, d: Derived)
    requires IsTable(t) && maxSymbol < 256 && lastp <= 256
    requires huffsize.Length == huffcode.Length == 257
    requires forall i :: 0 <= i < lastp ==> huffsize[i] != 0
    ensures ok <==> Distinct(t.huffval, lastp) && forall i :: 0 <= i < lastp ==> t.huffval[i] <= maxSymbol
    ensures ok ==> |d.ehufco| == |d.ehufsi| == 256
    ensures ok ==> forall i :: 0 <= i < lastp ==>
                     && t.huffval[i] < 256
                     && d.ehufco[t.huffval[i]] == huffcode[i] && d.ehufsi[t.huffval[i]] == huffsize[i]
    ensures ok ==> forall v :: 0 <= v < 256 && v !in t.huffval[..lastp] ==> d.ehufco[v] == 0 && d.ehufsi[v] == 0
  {
    var ehufco := new nat[256](_ => 0);
    var ehufsi := new nat[256](_ => 0);
    var p := 0;
    while p < lastp
      invariant 0 <= p <= lastp && Distinct(t.huffval, p)
      invariant forall i :: 0 <= i < p ==>
                  && t.huffval[i] <= maxSymbol
                  && ehufco[t.huffval[i]] == huffcode[i] && ehufsi[t.huffval[i]] == huffsize[i]
      invariant forall v :: 0 <= v < 256 && v !in t.huffval[..p] ==> ehufco[v] == 0 && ehufsi[v] == 0
    {
      var i := t.huffval[p];
      if i > maxSymbol || ehufsi[i] != 0 {
        return false, Derived([], []);
      }
      assert i !in t.huffval[..p];
      assert t.huffval[..p + 1] == t.huffval[..p] + [i];
      ehufco[i] := huffcode[p];
      ehufsi[i] := huffsize[p];
      p := p + 1;
    }
    ok, d := true, Derived(ehufco[..], ehufsi[..]);
  }

  /** The table is derived exactly when it is acceptable. */
  method MakeDerivedTable(t: Table, isDC: bool, lossless: bool) returns (r: Option<Derived>)
    requires IsTable(t)
    ensures r.Some? <==> Acceptable(t, MaxSymbol(isDC, lossless))
    ensures r.Some? ==> IsDerived(r.value, t)
  {
    SizesAscend(t.bits, 16);
    ghost var sizes := Sizes(t.bits, 16);
    var ok, huffsize, lastp := MakeSizes(t);
    if !ok {
      return None;
    }
    var fits, huffcode := MakeCodes(huffsize, sizes);
    if !fits {
      return None;
    }
    var d;
    ok, d := AssignCodes(t, MaxSymbol(isDC, lossless), huffsize, huffcode, lastp);
    r := if ok then Some(d) else None;
  }

  // ---------- decoding (Figures F.15 and F.16) ----------

  /** The largest code of length l, or -1. */
  function MaxCode(bits: seq<nat>, l: nat): int
    requires |bits| == 17 && 1 <= l <= 16
  {
    SizesAscend(bits, 16);
    SizesExtend(bits, l, 16);
    if bits[l] == 0 then -1 else Code(Sizes(bits, 16), |Sizes(bits, l)| - 1)
  }

  /** What turns a code of length l into its place in the symbol list. */
  function ValOffset(bits: seq<nat>, l: nat): int
    requires |bits| == 17 && 1 <= l <= 16 && bits[l] > 0
  {
    SizesAscend(bits, 16);
    SizesExtend(bits, l, 16);
    var first := |Sizes(bits, l - 1)|;
    first - Code(Sizes(bits, 16), first)
  }

  /** jpeg_huff_decode from l bits on: the symbol and the bits behind it; nothing when the bits
      run out. A code that does not exist decodes as 0. */
  function DecodeSymbol(t: Table, stream: seq<bool>, l: nat): (r: Option<(nat, seq<bool>)>)
    requires IsTable(t) && 1 <= l <= 17
    ensures r.Some? ==> |r.value.1| < |stream|
    decreases 17 - l
  {
    if |stream| < l then None
    else if l > 16 then Some((0, stream[l..]))
    else if FromBits(stream[..l]) > MaxCode(t.bits, l) then DecodeSymbol(t, stream, l + 1)
    else
      var index := FromBits(stream[..l]) + ValOffset(t.bits, l);
      Some((if 0 <= index < 256 then t.huffval[index] else 0, stream[l..]))
  }

  lemma {:induction false} SizesAbove(bits: seq<nat>, l: nat, m: nat)
    requires l <= m < |bits|
    ensures |Sizes(bits, l)| <= |Sizes(bits, m)|
    ensures forall i :: |Sizes(bits, l)| <= i < |Sizes(bits, m)| ==> Sizes(bits, m)[i] > l
    decreases m
  {
    if l < m {
      SizesAbove(bits, l, m - 1);
    }
  }

  /** The codes of length l are those from |Sizes(bits, l - 1)| up to |Sizes(bits, l)|. */
  lemma PlacesOfLength(bits: seq<nat>, l: nat, p: nat)
    requires |bits| == 17 && 1 <= l <= 16 && p < |Sizes(bits, 16)|
    ensures Sizes(bits, 16)[p] == l <==> |Sizes(bits, l - 1)| <= p < |Sizes(bits, l)|
    ensures |Sizes(bits, l - 1)| + bits[l] == |Sizes(bits, l)| <= |Sizes(bits, 16)|
    ensures Sizes(bits, 16)[p] > l ==> |Sizes(bits, l)| <= p
  {
    SizesExtend(bits, l - 1, 16);
    SizesExtend(bits, l, 16);
    SizesAscend(bits, l - 1);
    SizesAscend(bits, l);
    SizesAbove(bits, l - 1, 16);
    SizesAbove(bits, l, 16);
  }

  lemma {:induction false} CodesInARow(sizes: seq<nat>, p: nat, q: nat)
    requires p <= q < |sizes| && IsLengths(sizes) && Ascending(sizes) && sizes[p] == sizes[q]
    ensures Code(sizes, q) == Code(sizes, p) + (q - p)
    decreases q
  {
    if p < q {
      CodesInARow(sizes, p, q - 1);
      CodeAfter(sizes, q - 1, sizes[q]);
    }
  }

  /** Decoding inverts encoding and takes no bit more than the code word. */
  lemma {:induction false} SymbolIsDecoded(t: Table, p: nat, rest: seq<bool>, l: nat)
    requires IsTable(t) && |Sizes(t.bits, 16)| <= 256 && IsCode(Sizes(t.bits, 16))
    requires p < |Sizes(t.bits, 16)| && 1 <= l <= Sizes(t.bits, 16)[p]
    ensures DecodeSymbol(t, CodeWord(Sizes(t.bits, 16), p) + rest, l) == Some((t.huffval[p], rest))
    decreases Sizes(t.bits, 16)[p] - l
  {
    hide Code, Left, Sizes, ToBits;
    var sizes := Sizes(t.bits, 16);
    var s, stream := sizes[p], CodeWord(sizes, p) + rest;
    PlacesOfLength(t.bits, l, p);
    if l < s {
      TooShort(t.bits, p, l);
      assert stream[..l] == CodeWord(sizes, p)[..l];
      SymbolIsDecoded(t, p, rest, l + 1);
    } else {
      RightLength(t.bits, p);
      assert stream[..l] == CodeWord(sizes, p);
      CodeFitsItsLength(sizes, p);
      FromToBits(Code(sizes, p), s);
      assert stream[l..] == rest;
    }
  }

  /** The first l bits of a longer code word exceed every code of length l. */
  lemma TooShort(bits: seq<nat>, p: nat, l: nat)
    requires |bits| == 17 && IsCode(Sizes(bits, 16))
    requires p < |Sizes(bits, 16)| && 1 <= l < Sizes(bits, 16)[p]
    ensures FromBits(CodeWord(Sizes(bits, 16), p)[..l]) > MaxCode(bits, l)
  {
    hide Code, Left, Sizes, ToBits;
    var sizes := Sizes(bits, 16);
    var c, d := Code(sizes, p), sizes[p] - l;
    ToBitsSplit(c, l, d);
    assert l + d == sizes[p];
    assert CodeWord(sizes, p)[..l] == ToBits(ShiftRight(c, d), l);
    CodeFitsItsLength(sizes, p);
    ShiftedFits(c, l, d);
    FromToBits(ShiftRight(c, d), l);
    PlacesOfLength(bits, l, p);
    if bits[l] > 0 {
      var q := |Sizes(bits, l)| - 1;
      PlacesOfLength(bits, l, q);
      CodesApart(sizes, q, p);
    }
  }

  lemma RightLength(bits: seq<nat>, p: nat)
    requires |bits| == 17 && IsCode(Sizes(bits, 16)) && p < |Sizes(bits, 16)|
    ensures var sizes := Sizes(bits, 16);
            var s := sizes[p];
            bits[s] > 0 && Code(sizes, p) <= MaxCode(bits, s) && Code(sizes, p) + ValOffset(bits, s) == p
  {
    hide Code, Left, Sizes;
    var sizes := Sizes(bits, 16);
    var s := sizes[p];
    PlacesOfLength(bits, s, p);
    var f, q := |Sizes(bits, s - 1)|, |Sizes(bits, s)| - 1;
    PlacesOfLength(bits, s, f);
    PlacesOfLength(bits, s, q);
    CodesInARow(sizes, f, p);
    CodesInARow(sizes, p, q);
  }
}
