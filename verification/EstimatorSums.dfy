/** The entries of the table by their sums: no entry can be changed, and no two of a group exchanged,
    without one of them changing. */
module EstimatorSums {
  import opened Aritab

  /** The first entry from i on, twice the second, and so on to n times the last. */
  function Added(i: nat, n: nat): int
    requires i + n <= 114
  {
    hide JpegAritab;
    if n == 0 then 0 else Added(i, n - 1) + n * JpegAritab(i + n - 1)
  }

  /** What jpeg_aritab adds up to, six entries at a time. */
  function Total(i: nat): int
    requires i % 6 == 0 && i < 114
  {
    match i
    case 0 => 4679097603
    case 6 => 53664532
    case 12 => 15833061639
    case 18 => 3424835767
    case 24 => 597972857
    case 30 => 107754191
    case 36 => 16361215206
    case 42 => 4995928862
    case 48 => 1676496752
    case 54 => 566676874
    case 60 => 15506329344
    case 66 => 14229228534
    case 72 => 6058952987
    case 78 => 21847509392
    case 84 => 21921334516
    case 90 => 22058080994
    case 96 => 24015870827
    case 102 => 27093144515
    case 108 => 30991393324
  }

  ghost predicate AddsUp(i: nat) {
    i % 6 == 0 && i < 114 && Added(i, 6) == Total(i)
  }

  lemma EntriesAddUp(i: nat)
    requires i % 6 == 0 && i < 114
    ensures AddsUp(i)
  {
    hide AddsUp;
    match i
    case 0 => Entries0();
    case 6 => Entries6();
    case 12 => Entries12();
    case 18 => Entries18();
    case 24 => Entries24();
    case 30 => Entries30();
    case 36 => Entries36();
    case 42 => Entries42();
    case 48 => Entries48();
    case 54 => Entries54();
    case 60 => Entries60();
    case 66 => Entries66();
    case 72 => Entries72();
    case 78 => Entries78();
    case 84 => Entries84();
    case 90 => Entries90();
    case 96 => Entries96();
    case 102 => Entries102();
    case 108 => Entries108();
  }

  lemma Entries0()
    ensures AddsUp(0)
  {
  }

  lemma Entries6()
    ensures AddsUp(6)
  {
  }

  lemma Entries12()
    ensures AddsUp(12)
  {
  }

  lemma Entries18()
    ensures AddsUp(18)
  {
  }

  lemma Entries24()
    ensures AddsUp(24)
  {
  }

  lemma Entries30()
    ensures AddsUp(30)
  {
  }

  lemma Entries36()
    ensures AddsUp(36)
  {
  }

  lemma Entries42()
    ensures AddsUp(42)
  {
  }

  lemma Entries48()
    ensures AddsUp(48)
  {
  }

  lemma Entries54()
    ensures AddsUp(54)
  {
  }

  lemma Entries60()
    ensures AddsUp(60)
  {
  }

  lemma Entries66()
    ensures AddsUp(66)
  {
  }

  lemma Entries72()
    ensures AddsUp(72)
  {
  }

  lemma Entries78()
    ensures AddsUp(78)
  {
  }

  lemma Entries84()
    ensures AddsUp(84)
  {
  }

  lemma Entries90()
    ensures AddsUp(90)
  {
  }

  lemma Entries96()
    ensures AddsUp(96)
  {
  }

  lemma Entries102()
    ensures AddsUp(102)
  {
  }

  lemma Entries108()
    ensures AddsUp(108)
  {
  }
}
