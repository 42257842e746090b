/** The rows of Table D.2 seen as states of the estimator: how far each is from switching the sense,
    and what holds of every row. */
module EstimatorRows {
  import opened Aritab

  /** The rows in which the less probable symbol switches the sense. */
  predicate Switches(i: nat) {
    i in {0, 14, 36, 64, 80, 88, 95, 105, 110, 112}
  }

  const FIXED_ROW := 113
  const LAST_ROW := 13   // the smallest estimate

  /** How many less probable symbols on end it takes to switch the sense. */
  function Patience(i: nat): (n: nat)
    requires i < FIXED_ROW
    ensures 1 <= n <= 29
  {
    if i < 32 then
      if i < 16 then (if i < 8 then Patience0(i) else Patience8(i))
      else (if i < 24 then Patience16(i) else Patience24(i))
    else if i < 64 then
      if i < 48 then (if i < 40 then Patience32(i) else Patience40(i))
      else (if i < 56 then Patience48(i) else Patience56(i))
    else if i < 96 then
      if i < 80 then (if i < 72 then Patience64(i) else Patience72(i))
      else (if i < 88 then Patience80(i) else Patience88(i))
    else if i < 104 then Patience96(i)
    else if i < 112 then Patience104(i)
    else Patience112(i)
  }

  function Patience0(i: nat): (n: nat)
    requires 0 <= i < 8
    ensures 1 <= n <= 29
  {
    match i
    case 0 => 1
    case 1 => 2
    case 2 => 5
    case 3 => 9
    case 4 => 14
    case 5 => 18
    case 6 => 20
    case 7 => 22
  }

  function Patience8(i: nat): (n: nat)
    requires 8 <= i < 16
    ensures 1 <= n <= 29
  {
    match i
    case 8 => 24
    case 9 => 26
    case 10 => 27
    case 11 => 27
    case 12 => 28
    case 13 => 29
    case 14 => 1
    case 15 => 2
  }

  function Patience16(i: nat): (n: nat)
    requires 16 <= i < 24
    ensures 1 <= n <= 29
  {
    match i
    case 16 => 4
    case 17 => 6
    case 18 => 8
    case 19 => 12
    case 20 => 13
    case 21 => 14
    case 22 => 15
    case 23 => 17
  }

  function Patience24(i: nat): (n: nat)
    requires 24 <= i < 32
    ensures 1 <= n <= 29
  {
    match i
    case 24 => 17
    case 25 => 19
    case 26 => 19
    case 27 => 20
    case 28 => 21
    case 29 => 22
    case 30 => 23
    case 31 => 23
  }

  function Patience32(i: nat): (n: nat)
    requires 32 <= i < 40
    ensures 1 <= n <= 29
  {
    match i
    case 32 => 25
    case 33 => 25
    case 34 => 26
    case 35 => 26
    case 36 => 1
    case 37 => 2
    case 38 => 3
    case 39 => 5
  }

  function Patience40(i: nat): (n: nat)
    requires 40 <= i < 48
    ensures 1 <= n <= 29
  {
    match i
    case 40 => 7
    case 41 => 9
    case 42 => 11
    case 43 => 12
    case 44 => 13
    case 45 => 13
    case 46 => 14
    case 47 => 15
  }

  function Patience48(i: nat): (n: nat)
    requires 48 <= i < 56
    ensures 1 <= n <= 29
  {
    match i
    case 48 => 16
    case 49 => 16
    case 50 => 17
    case 51 => 18
    case 52 => 18
    case 53 => 19
    case 54 => 19
    case 55 => 20
  }

  function Patience56(i: nat): (n: nat)
    requires 56 <= i < 64
    ensures 1 <= n <= 29
  {
    match i
    case 56 => 20
    case 57 => 21
    case 58 => 21
    case 59 => 22
    case 60 => 22
    case 61 => 23
    case 62 => 24
    case 63 => 24
  }

  function Patience64(i: nat): (n: nat)
    requires 64 <= i < 72
    ensures 1 <= n <= 29
  {
    match i
    case 64 => 1
    case 65 => 2
    case 66 => 3
    case 67 => 4
    case 68 => 6
    case 69 => 8
    case 70 => 10
    case 71 => 11
  }

  function Patience72(i: nat): (n: nat)
    requires 72 <= i < 80
    ensures 1 <= n <= 29
  {
    match i
    case 72 => 11
    case 73 => 12
    case 74 => 12
    case 75 => 13
    case 76 => 13
    case 77 => 14
    case 78 => 15
    case 79 => 15
  }

  function Patience80(i: nat): (n: nat)
    requires 80 <= i < 88
    ensures 1 <= n <= 29
  {
    match i
    case 80 => 1
    case 81 => 2
    case 82 => 3
    case 83 => 5
    case 84 => 7
    case 85 => 9
    case 86 => 9
    case 87 => 10
  }

  function Patience88(i: nat): (n: nat)
    requires 88 <= i < 96
    ensures 1 <= n <= 29
  {
    match i
    case 88 => 1
    case 89 => 2
    case 90 => 4
    case 91 => 6
    case 92 => 8
    case 93 => 8
    case 94 => 9
    case 95 => 1
  }

  function Patience96(i: nat): (n: nat)
    requires 96 <= i < 104
    ensures 1 <= n <= 29
  {
    match i
    case 96 => 3
    case 97 => 5
    case 98 => 6
    case 99 => 7
    case 100 => 8
    case 101 => 2
    case 102 => 4
    case 103 => 5
  }

  function Patience104(i: nat): (n: nat)
    requires 104 <= i < 112
    ensures 1 <= n <= 29
  {
    match i
    case 104 => 6
    case 105 => 1
    case 106 => 3
    case 107 => 4
    case 108 => 2
    case 109 => 3
    case 110 => 1
    case 111 => 2
  }

  function Patience112(i: nat): (n: nat)
    requires 112 <= i < 113
    ensures 1 <= n <= 29
  {
    match i
    case 112 => 1
  }

  /** What holds of each row but the fixed one. */
  ghost predicate Lawful(i: nat) {
    && i < FIXED_ROW
    && var r := JpegRow(i);
       && r.nextLps < FIXED_ROW && r.nextMps < FIXED_ROW
       && (r.switchMps == 1 <==> Switches(i))
       && (r.switchMps == 1 <==> Patience(i) == 1)
       && (r.switchMps == 0 ==> Patience(r.nextLps) == Patience(i) - 1 && JpegRow(r.nextLps).qe > r.qe)
       && (if i == LAST_ROW then r.nextMps == LAST_ROW else JpegRow(r.nextMps).qe < r.qe)
  }
}
