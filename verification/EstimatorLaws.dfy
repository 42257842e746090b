/** Every row of Table D.2 is lawful, row by row. */
module EstimatorLaws {
  import opened EstimatorRows

  lemma RowsAreLawful(i: nat)
    requires i < FIXED_ROW
    ensures Lawful(i)
  {
    hide Lawful;
    Rows0(); Rows4(); Rows8(); Rows12(); Rows16(); Rows20();
    Rows24(); Rows28(); Rows32(); Rows36(); Rows40(); Rows44();
    Rows48(); Rows52(); Rows56(); Rows60(); Rows64(); Rows68();
    Rows72(); Rows76(); Rows80(); Rows84(); Rows88(); Rows92();
    Rows96(); Rows100(); Rows104(); Rows108(); Rows112();
  }

  lemma Rows0()
    ensures forall i :: 0 <= i < 4 ==> Lawful(i)
  {
    assert Lawful(0); assert Lawful(1); assert Lawful(2); assert Lawful(3);
  }

  lemma Rows4()
    ensures forall i :: 4 <= i < 8 ==> Lawful(i)
  {
    assert Lawful(4); assert Lawful(5); assert Lawful(6); assert Lawful(7);
  }

  lemma Rows8()
    ensures forall i :: 8 <= i < 12 ==> Lawful(i)
  {
    assert Lawful(8); assert Lawful(9); assert Lawful(10); assert Lawful(11);
  }

  lemma Rows12()
    ensures forall i :: 12 <= i < 16 ==> Lawful(i)
  {
    assert Lawful(12); assert Lawful(13); assert Lawful(14); assert Lawful(15);
  }

  lemma Rows16()
    ensures forall i :: 16 <= i < 20 ==> Lawful(i)
  {
    assert Lawful(16); assert Lawful(17); assert Lawful(18); assert Lawful(19);
  }

  lemma Rows20()
    ensures forall i :: 20 <= i < 24 ==> Lawful(i)
  {
    assert Lawful(20); assert Lawful(21); assert Lawful(22); assert Lawful(23);
  }

  lemma Rows24()
    ensures forall i :: 24 <= i < 28 ==> Lawful(i)
  {
    assert Lawful(24); assert Lawful(25); assert Lawful(26); assert Lawful(27);
  }

  lemma Rows28()
    ensures forall i :: 28 <= i < 32 ==> Lawful(i)
  {
    assert Lawful(28); assert Lawful(29); assert Lawful(30); assert Lawful(31);
  }

  lemma Rows32()
    ensures forall i :: 32 <= i < 36 ==> Lawful(i)
  {
    assert Lawful(32); assert Lawful(33); assert Lawful(34); assert Lawful(35);
  }

  lemma Rows36()
    ensures forall i :: 36 <= i < 40 ==> Lawful(i)
  {
    assert Lawful(36); assert Lawful(37); assert Lawful(38); assert Lawful(39);
  }

  lemma Rows40()
    ensures forall i :: 40 <= i < 44 ==> Lawful(i)
  {
    assert Lawful(40); assert Lawful(41); assert Lawful(42); assert Lawful(43);
  }

  lemma Rows44()
    ensures forall i :: 44 <= i < 48 ==> Lawful(i)
  {
    assert Lawful(44); assert Lawful(45); assert Lawful(46); assert Lawful(47);
  }

  lemma Rows48()
    ensures forall i :: 48 <= i < 52 ==> Lawful(i)
  {
    assert Lawful(48); assert Lawful(49); assert Lawful(50); assert Lawful(51);
  }

  lemma Rows52()
    ensures forall i :: 52 <= i < 56 ==> Lawful(i)
  {
    assert Lawful(52); assert Lawful(53); assert Lawful(54); assert Lawful(55);
  }

  lemma Rows56()
    ensures forall i :: 56 <= i < 60 ==> Lawful(i)
  {
    assert Lawful(56); assert Lawful(57); assert Lawful(58); assert Lawful(59);
  }

  lemma Rows60()
    ensures forall i :: 60 <= i < 64 ==> Lawful(i)
  {
    assert Lawful(60); assert Lawful(61); assert Lawful(62); assert Lawful(63);
  }

  lemma Rows64()
    ensures forall i :: 64 <= i < 68 ==> Lawful(i)
  {
    assert Lawful(64); assert Lawful(65); assert Lawful(66); assert Lawful(67);
  }

  lemma Rows68()
    ensures forall i :: 68 <= i < 72 ==> Lawful(i)
  {
    assert Lawful(68); assert Lawful(69); assert Lawful(70); assert Lawful(71);
  }

  lemma Rows72()
    ensures forall i :: 72 <= i < 76 ==> Lawful(i)
  {
    assert Lawful(72); assert Lawful(73); assert Lawful(74); assert Lawful(75);
  }

  lemma Rows76()
    ensures forall i :: 76 <= i < 80 ==> Lawful(i)
  {
    assert Lawful(76); assert Lawful(77); assert Lawful(78); assert Lawful(79);
  }

  lemma Rows80()
    ensures forall i :: 80 <= i < 84 ==> Lawful(i)
  {
    assert Lawful(80); assert Lawful(81); assert Lawful(82); assert Lawful(83);
  }

  lemma Rows84()
    ensures forall i :: 84 <= i < 88 ==> Lawful(i)
  {
    assert Lawful(84); assert Lawful(85); assert Lawful(86); assert Lawful(87);
  }

  lemma Rows88()
    ensures forall i :: 88 <= i < 92 ==> Lawful(i)
  {
    assert Lawful(88); assert Lawful(89); assert Lawful(90); assert Lawful(91);
  }

  lemma Rows92()
    ensures forall i :: 92 <= i < 96 ==> Lawful(i)
  {
    assert Lawful(92); assert Lawful(93); assert Lawful(94); assert Lawful(95);
  }

  lemma Rows96()
    ensures forall i :: 96 <= i < 100 ==> Lawful(i)
  {
    assert Lawful(96); assert Lawful(97); assert Lawful(98); assert Lawful(99);
  }

  lemma Rows100()
    ensures forall i :: 100 <= i < 104 ==> Lawful(i)
  {
    assert Lawful(100); assert Lawful(101); assert Lawful(102); assert Lawful(103);
  }

  lemma Rows104()
    ensures forall i :: 104 <= i < 108 ==> Lawful(i)
  {
    assert Lawful(104); assert Lawful(105); assert Lawful(106); assert Lawful(107);
  }

  lemma Rows108()
    ensures forall i :: 108 <= i < 112 ==> Lawful(i)
  {
    assert Lawful(108); assert Lawful(109); assert Lawful(110); assert Lawful(111);
  }

  lemma Rows112()
    ensures forall i :: 112 <= i < 113 ==> Lawful(i)
  {
    assert Lawful(112);
  }
}
