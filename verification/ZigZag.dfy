/** The zig-zag order of a block's coefficients (jpeg_natural_order in jutils.c). */
module ZigZag {

  type Block = b: seq<int> | |b| == 64 witness seq(64, _ => 0)

  /** All zeroes but for the DC value. */
  function DcOnly(dc: int): Block {
    seq(64, i => if i == 0 then dc else 0)
  }

  /** The first k coefficients, and zeros. */
  function Upto(z: seq<int>, k: nat): (p: seq<int>)
    requires k <= |z|
    ensures |p| == |z|
  {
    z[..k] + seq(|z| - k, _ => 0)
  }

  lemma UptoNext(z: seq<int>, k: nat)
    requires k <= |z|
    ensures k < |z| ==> Upto(z, k + 1) == Upto(z, k)[k := z[k]]
    ensures k < |z| && z[k] == 0 ==> Upto(z, k + 1) == Upto(z, k)
    ensures (forall i :: k <= i < |z| ==> z[i] == 0) ==> Upto(z, k) == z
  {
  }

  lemma UptoOne(z: Block)
    ensures Upto(z, 1) == DcOnly(z[0])
  {
  }

  /** jpeg_natural_order: the position in the block of element k of zig-zag order. */
  function Natural(k: nat): (i: nat)
    requires k < 64
    ensures i < 64
  {
    if k < 32 then (if k < 16 then Natural0(k) else Natural16(k))
    else if k < 48 then Natural32(k) else Natural48(k)
  }

  function Natural0(k: nat): (i: nat)
    requires 0 <= k < 16
    ensures i < 64
  {
    match k
    case 0 => 0
    case 1 => 1
    case 2 => 8
    case 3 => 16
    case 4 => 9
    case 5 => 2
    case 6 => 3
    case 7 => 10
    case 8 => 17
    case 9 => 24
    case 10 => 32
    case 11 => 25
    case 12 => 18
    case 13 => 11
    case 14 => 4
    case 15 => 5
  }

  function Natural16(k: nat): (i: nat)
    requires 16 <= k < 32
    ensures i < 64
  {
    match k
    case 16 => 12
    case 17 => 19
    case 18 => 26
    case 19 => 33
    case 20 => 40
    case 21 => 48
    case 22 => 41
    case 23 => 34
    case 24 => 27
    case 25 => 20
    case 26 => 13
    case 27 => 6
    case 28 => 7
    case 29 => 14
    case 30 => 21
    case 31 => 28
  }

  function Natural32(k: nat): (i: nat)
    requires 32 <= k < 48
    ensures i < 64
  {
    match k
    case 32 => 35
    case 33 => 42
    case 34 => 49
    case 35 => 56
    case 36 => 57
    case 37 => 50
    case 38 => 43
    case 39 => 36
    case 40 => 29
    case 41 => 22
    case 42 => 15
    case 43 => 23
    case 44 => 30
    case 45 => 37
    case 46 => 44
    case 47 => 51
  }

  function Natural48(k: nat): (i: nat)
    requires 48 <= k < 64
    ensures i < 64
  {
    match k
    case 48 => 58
    case 49 => 59
    case 50 => 52
    case 51 => 45
    case 52 => 38
    case 53 => 31
    case 54 => 39
    case 55 => 46
    case 56 => 53
    case 57 => 60
    case 58 => 61
    case 59 => 54
    case 60 => 47
    case 61 => 55
    case 62 => 62
    case 63 => 63
  }

  /** Where position i of the block stands in zig-zag order. */
  function ZigZagOf(i: nat): (k: nat)
    requires i < 64
    ensures k < 64
  {
    if i < 32 then (if i < 16 then ZigZagOf0(i) else ZigZagOf16(i))
    else if i < 48 then ZigZagOf32(i) else ZigZagOf48(i)
  }

  function ZigZagOf0(i: nat): (k: nat)
    requires 0 <= i < 16
    ensures k < 64
  {
    match i
    case 0 => 0
    case 1 => 1
    case 2 => 5
    case 3 => 6
    case 4 => 14
    case 5 => 15
    case 6 => 27
    case 7 => 28
    case 8 => 2
    case 9 => 4
    case 10 => 7
    case 11 => 13
    case 12 => 16
    case 13 => 26
    case 14 => 29
    case 15 => 42
  }

  function ZigZagOf16(i: nat): (k: nat)
    requires 16 <= i < 32
    ensures k < 64
  {
    match i
    case 16 => 3
    case 17 => 8
    case 18 => 12
    case 19 => 17
    case 20 => 25
    case 21 => 30
    case 22 => 41
    case 23 => 43
    case 24 => 9
    case 25 => 11
    case 26 => 18
    case 27 => 24
    case 28 => 31
    case 29 => 40
    case 30 => 44
    case 31 => 53
  }

  function ZigZagOf32(i: nat): (k: nat)
    requires 32 <= i < 48
    ensures k < 64
  {
    match i
    case 32 => 10
    case 33 => 19
    case 34 => 23
    case 35 => 32
    case 36 => 39
    case 37 => 45
    case 38 => 52
    case 39 => 54
    case 40 => 20
    case 41 => 22
    case 42 => 33
    case 43 => 38
    case 44 => 46
    case 45 => 51
    case 46 => 55
    case 47 => 60
  }

  function ZigZagOf48(i: nat): (k: nat)
    requires 48 <= i < 64
    ensures k < 64
  {
    match i
    case 48 => 21
    case 49 => 34
    case 50 => 37
    case 51 => 47
    case 52 => 50
    case 53 => 56
    case 54 => 59
    case 55 => 61
    case 56 => 35
    case 57 => 36
    case 58 => 48
    case 59 => 49
    case 60 => 57
    case 61 => 58
    case 62 => 62
    case 63 => 63
  }

  /** The order visits every position exactly once. */
  lemma NaturalIsPermutation(k: nat)
    requires k < 64
    ensures ZigZagOf(Natural(k)) == k && Natural(ZigZagOf(k)) == k
  {
    if k < 16 { First16(k); } else if k < 32 { Second16(k); }
    else if k < 48 { Third16(k); } else { Last16(k); }
  }

  lemma First16(k: nat)
    requires 0 <= k < 16
    ensures ZigZagOf(Natural(k)) == k && Natural(ZigZagOf(k)) == k
  {
    match k
    case 0 =>
    case 1 =>
    case 2 =>
    case 3 =>
    case 4 =>
    case 5 =>
    case 6 =>
    case 7 =>
    case 8 =>
    case 9 =>
    case 10 =>
    case 11 =>
    case 12 =>
    case 13 =>
    case 14 =>
    case 15 =>
  }

  lemma Second16(k: nat)
    requires 16 <= k < 32
    ensures ZigZagOf(Natural(k)) == k && Natural(ZigZagOf(k)) == k
  {
    match k
    case 16 =>
    case 17 =>
    case 18 =>
    case 19 =>
    case 20 =>
    case 21 =>
    case 22 =>
    case 23 =>
    case 24 =>
    case 25 =>
    case 26 =>
    case 27 =>
    case 28 =>
    case 29 =>
    case 30 =>
    case 31 =>
  }

  lemma Third16(k: nat)
    requires 32 <= k < 48
    ensures ZigZagOf(Natural(k)) == k && Natural(ZigZagOf(k)) == k
  {
    match k
    case 32 =>
    case 33 =>
    case 34 =>
    case 35 =>
    case 36 =>
    case 37 =>
    case 38 =>
    case 39 =>
    case 40 =>
    case 41 =>
    case 42 =>
    case 43 =>
    case 44 =>
    case 45 =>
    case 46 =>
    case 47 =>
  }

  lemma Last16(k: nat)
    requires 48 <= k < 64
    ensures ZigZagOf(Natural(k)) == k && Natural(ZigZagOf(k)) == k
  {
    match k
    case 48 =>
    case 49 =>
    case 50 =>
    case 51 =>
    case 52 =>
    case 53 =>
    case 54 =>
    case 55 =>
    case 56 =>
    case 57 =>
    case 58 =>
    case 59 =>
    case 60 =>
    case 61 =>
    case 62 =>
    case 63 =>
  }

  function ToZigZag(block: Block): (z: Block) {
    seq(64, k requires 0 <= k < 64 => block[Natural(k)])
  }

  function FromZigZag(z: Block): (block: Block) {
    seq(64, i requires 0 <= i < 64 => z[ZigZagOf(i)])
  }

  lemma ZigZagIsUndone(block: Block)
    ensures FromZigZag(ToZigZag(block)) == block && ToZigZag(FromZigZag(block)) == block
  {
    forall i | 0 <= i < 64
      ensures FromZigZag(ToZigZag(block))[i] == block[i]
      ensures ToZigZag(FromZigZag(block))[i] == block[i]
    {
      NaturalIsPermutation(i);
    }
  }
}
