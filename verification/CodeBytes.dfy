/** Byte strings of entropy-coded segments: their value, byte stuffing and stuffing's inverse. */
module CodeBytes {
  import opened Powers

  /** The bytes read as one big-endian number in base 256. */
  function Value(s: seq<nat>): (v: nat)
  {
    if s == [] then 0 else 256 * Value(s[..|s| - 1]) + s[|s| - 1]
  }

  lemma ValueSnoc(s: seq<nat>, b: nat)
    ensures Value(s + [b]) == 256 * Value(s) + b
  {
    assert (s + [b])[..|s|] == s;
  }

  function Repeat(b: nat, n: nat): (s: seq<nat>)
    ensures |s| == n && forall i :: 0 <= i < n ==> s[i] == b
  {
    seq(n, _ => b)
  }

  lemma RepeatSnoc(s: seq<nat>, b: nat, n: nat)
    ensures s + Repeat(b, n) + [b] == s + Repeat(b, n + 1)
  {
    assert Repeat(b, n) + [b] == Repeat(b, n + 1);
  }

  /** A carry out of the stack turns its 0xFF bytes into zeros and adds one to the byte before. */
  lemma {:induction false} CarryThroughStack(s: seq<nat>, b: nat, n: nat)
    ensures Value(s + [b] + Repeat(0xFF, n)) + 1 == Value(s + [b + 1] + Repeat(0, n))
  {
    if n == 0 {
      ValueSnoc(s, b);
      ValueSnoc(s, b + 1);
      assert s + [b] + Repeat(0xFF, n) == s + [b] && s + [b + 1] + Repeat(0, n) == s + [b + 1];
    } else {
      CarryThroughStack(s, b, n - 1);
      assert s + [b] + Repeat(0xFF, n) == (s + [b] + Repeat(0xFF, n - 1)) + [0xFF];
      assert s + [b + 1] + Repeat(0, n) == (s + [b + 1] + Repeat(0, n - 1)) + [0];
      ValueSnoc(s + [b] + Repeat(0xFF, n - 1), 0xFF);
      ValueSnoc(s + [b + 1] + Repeat(0, n - 1), 0);
    }
  }

  /** A stack of 0xFF bytes alone leaves no room for a carry. */
  lemma {:induction false} FullStack(n: nat)
    ensures Value(Repeat(0xFF, n)) + 1 == Pow2(8 * n)
  {
    if n == 0 {
    } else {
      FullStack(n - 1);
      assert Repeat(0xFF, n) == Repeat(0xFF, n - 1) + [0xFF];
      ValueSnoc(Repeat(0xFF, n - 1), 0xFF);
      Pow2Byte(8 * (n - 1));
    }
  }

  /** Byte stuffing: every 0xFF is followed by 0x00. */
  function Stuff(s: seq<nat>): (t: seq<nat>)
  {
    if s == [] then []
    else Stuff(s[..|s| - 1]) + (if s[|s| - 1] == 0xFF then [0xFF, 0x00] else [s[|s| - 1]])
  }

  lemma StuffSnoc(s: seq<nat>, b: nat)
    ensures Stuff(s + [b]) == Stuff(s) + (if b == 0xFF then [0xFF, 0x00] else [b])
  {
    assert (s + [b])[..|s|] == s;
  }

  lemma {:induction false} StuffLength(s: seq<nat>)
    ensures |s| <= |Stuff(s)| <= 2 * |s|
  {
    if s != [] {
      StuffLength(s[..|s| - 1]);
    }
  }

  lemma {:induction false} StuffNothing(s: seq<nat>)
    requires 0xFF !in s
    ensures Stuff(s) == s
  {
    if s != [] {
      StuffNothing(s[..|s| - 1]);
      assert s == s[..|s| - 1] + [s[|s| - 1]];
    }
  }

  /** Writing one more data byte after a stuffed segment. */
  lemma StuffNext(base: seq<nat>, s: seq<nat>, b: nat)
    ensures b != 0xFF ==> base + Stuff(s) + [b] == base + Stuff(s + [b])
    ensures b == 0xFF ==> base + Stuff(s) + [0xFF] + [0x00] == base + Stuff(s + [b])
  {
    StuffSnoc(s, b);
    if b == 0xFF {
      assert [0xFF] + [0x00] == [0xFF, 0x00];
    }
  }

  lemma {:induction false} StuffAppend(s: seq<nat>, t: seq<nat>)
    ensures Stuff(s + t) == Stuff(s) + Stuff(t)
  {
    if t == [] {
      assert s + t == s;
    } else {
      var u, b := t[..|t| - 1], t[|t| - 1];
      assert s + t == (s + u) + [b] && t == u + [b];
      StuffSnoc(s + u, b);
      StuffSnoc(u, b);
      StuffAppend(s, u);
    }
  }

  ghost predicate IsBytes(s: seq<nat>) {
    forall i :: 0 <= i < |s| ==> s[i] < 256
  }

  ghost predicate NoTrailingZero(s: seq<nat>) {
    s != [] ==> s[|s| - 1] != 0
  }

  /** Byte i of the string continued with zeros without end. */
  function At(s: seq<nat>, i: nat): nat {
    if i < |s| then s[i] else 0
  }

  /** The value of the first r bytes of the string continued with zeros. */
  function Prefix(s: seq<nat>, r: nat): nat {
    if r == 0 then 0 else 256 * Prefix(s, r - 1) + At(s, r - 1)
  }

  lemma {:induction false} PrefixOfPart(s: seq<nat>, r: nat)
    requires r <= |s|
    ensures Prefix(s, r) == Value(s[..r])
  {
    if r > 0 {
      PrefixOfPart(s, r - 1);
      assert s[..r] == s[..r - 1] + [s[r - 1]];
      ValueSnoc(s[..r - 1], s[r - 1]);
    }
  }

  lemma {:induction false} PrefixWithZeros(s: seq<nat>, z: nat)
    ensures Prefix(s, |s| + z) == Value(s + Repeat(0, z))
  {
    if z == 0 {
      PrefixOfPart(s, |s|);
      assert s[..|s|] == s && s + Repeat(0, 0) == s;
    } else {
      PrefixWithZeros(s, z - 1);
      RepeatSnoc(s, 0, z - 1);
      ValueSnoc(s + Repeat(0, z - 1), 0);
    }
  }

  /** The m bytes of v, most significant first. */
  function BytesOf(v: nat, m: nat): (s: seq<nat>)
    ensures |s| == m && IsBytes(s)
  {
    if m == 0 then [] else BytesOf(v / 0x100, m - 1) + [v % 0x100]
  }

  lemma {:induction false} BytesOfValue(v: nat, m: nat)
    requires v < Pow2(8 * m)
    ensures Value(BytesOf(v, m)) == v
  {
    if m > 0 {
      Pow2Byte(8 * (m - 1));
      BytesOfValue(v / 0x100, m - 1);
      ValueSnoc(BytesOf(v / 0x100, m - 1), v % 0x100);
    }
  }

  lemma Join(a: seq<nat>, b: seq<nat>, c: seq<nat>, d: seq<nat>)
    ensures a + (b + c + d) == a + b + c + d && a + (b + c) == a + b + c
  {
  }

  lemma JoinRight(a: seq<nat>, b: seq<nat>, c: seq<nat>, d: seq<nat>)
    ensures a + b + c + d == a + (b + (c + d))
  {
  }
}
