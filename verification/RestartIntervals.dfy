/** The division of a scan into restart intervals, by the number of MCUs; 0 means no restarts. */
module RestartIntervals {
  import opened Products

  /** The length of the next restart interval. */
  function GroupSize(interval: nat, count: nat): (n: nat)
    ensures n <= count && (count > 0 ==> n > 0)
  {
    if interval == 0 || count <= interval then count else interval
  }

  /** How many MCUs are in the restart interval that is still open. */
  function OpenSize(interval: nat, count: nat): (size: nat)
    ensures size <= count && (interval > 0 ==> size <= interval)
    decreases count
  {
    var k := GroupSize(interval, count);
    if k == count then count else OpenSize(interval, count - k)
  }

  /** The number of the next restart marker, if the first is n. */
  function NextNum(interval: nat, count: nat, n: nat): (m: nat)
    requires n < 8
    ensures m < 8
    decreases count
  {
    var k := GroupSize(interval, count);
    if k == count then n else NextNum(interval, count - k, (n + 1) % 8)
  }

  /** Behind the first complete interval everything is counted anew. */
  lemma FirstOfMany(interval: nat, count: nat, n: nat)
    requires 0 < interval < count && n < 8
    ensures GroupSize(interval, count) == interval
    ensures OpenSize(interval, count) == OpenSize(interval, count - interval)
    ensures NextNum(interval, count, n) == NextNum(interval, count - interval, (n + 1) % 8)
  {
  }

  /** The open interval is full when a restart interval is set and reached. */
  predicate Full(interval: nat, count: nat) {
    interval > 0 && OpenSize(interval, count) == interval
  }

  lemma {:induction false} OneMoreMcu(interval: nat, count: nat, n: nat)
    requires n < 8
    ensures OpenSize(interval, count + 1) == if Full(interval, count) then 1 else OpenSize(interval, count) + 1
    ensures NextNum(interval, count + 1, n)
         == if Full(interval, count) then (NextNum(interval, count, n) + 1) % 8 else NextNum(interval, count, n)
    decreases count
  {
    if interval > 0 && count > interval {
      OneMoreMcu(interval, count - interval, (n + 1) % 8);
    }
  }

  /** With restarts, the open interval and the marker number in closed form. */
  lemma {:induction false} RestartsInClosedForm(interval: nat, count: nat, n: nat)
    requires interval > 0 && count > 0 && n < 8
    ensures OpenSize(interval, count) == (count - 1) % interval + 1
    ensures NextNum(interval, count, n) == (n + (count - 1) / interval) % 8
    decreases count
  {
    if count > interval {
      FirstOfMany(interval, count, n);
      hide OpenSize, NextNum, GroupSize;
      RestartsInClosedForm(interval, count - interval, (n + 1) % 8);
      OneGroupLess(count - 1, interval);
      OneMarkerLess(n, (count - 1) / interval);
    } else {
      SmallGroup(count - 1, interval);
    }
  }

  lemma OneMarkerLess(n: nat, q: nat)
    requires q > 0
    ensures ((n + 1) % 8 + (q - 1)) % 8 == (n + q) % 8
  {
  }

  lemma OneGroupLess(m: nat, k: nat)
    requires k > 0 && m >= k
    ensures m / k > 0 && (m - k) / k == m / k - 1 && (m - k) % k == m % k
  {
    hide Prod;
    DivisionIs(m, k);
    DivisionIs(m - k, k);
    var q := m / k;
    ProdSum(q, -1, k);
    ProdIsTimes(-1, k);
    ProdIsTimes(0, k);
    BetweenMultiples(m, k, 0);
    BetweenMultiples(m - k, k, q - 1);
  }

  lemma SmallGroup(m: nat, k: nat)
    requires m < k
    ensures m / k == 0 && m % k == m
  {
    BetweenMultiples(m, k, 0);
  }

  /** An interval starts at MCU i. */
  predicate StartsInterval(interval: nat, i: nat) {
    interval > 0 && i % interval == 0
  }

  lemma WholeIntervals(count: nat, k: nat)
    requires k > 0 && count > 0 && count % k == 0
    ensures count >= k && (count > k ==> (count - k) % k == 0)
  {
    hide Prod;
    DivisionIs(count, k);
    var q := count / k;
    if q == 0 {
      ProdIsTimes(0, k);
    }
    ProdMonotonic(1, q, k);
    ProdSum(q, -1, k);
    ProdIsTimes(-1, k);
    BetweenMultiples(count - k, k, q - 1);
    if count > k {
      DivisionIs(count - k, k);
    }
  }
}
