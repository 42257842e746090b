/** The table of the zig-zag order is the walk, and what that says about the order. */
module ZigZagLaws {
  import opened ZigZag
  import opened ZigZagWalk

  /** Element k of the order is where the walk is after k steps. */
  lemma OrderIsWalk(k: nat)
    requires k < 64
    ensures Walk(k).row < 8 && Walk(k).column < 8 && Natural(k) == 8 * Walk(k).row + Walk(k).column
  {
    hide Agrees;
    if k < 4 {
      From0();
      assert k == 0 || k == 1 || k == 2 || k == 3;
    } else if k < 8 {
      From4();
      assert k == 4 || k == 5 || k == 6 || k == 7;
    } else if k < 12 {
      From8();
      assert k == 8 || k == 9 || k == 10 || k == 11;
    } else if k < 16 {
      From12();
      assert k == 12 || k == 13 || k == 14 || k == 15;
    } else if k < 20 {
      From16();
      assert k == 16 || k == 17 || k == 18 || k == 19;
    } else if k < 24 {
      From20();
      assert k == 20 || k == 21 || k == 22 || k == 23;
    } else if k < 28 {
      From24();
      assert k == 24 || k == 25 || k == 26 || k == 27;
    } else if k < 32 {
      From28();
      assert k == 28 || k == 29 || k == 30 || k == 31;
    } else if k < 36 {
      From32();
      assert k == 32 || k == 33 || k == 34 || k == 35;
    } else if k < 40 {
      From36();
      assert k == 36 || k == 37 || k == 38 || k == 39;
    } else if k < 44 {
      From40();
      assert k == 40 || k == 41 || k == 42 || k == 43;
    } else if k < 48 {
      From44();
      assert k == 44 || k == 45 || k == 46 || k == 47;
    } else if k < 52 {
      From48();
      assert k == 48 || k == 49 || k == 50 || k == 51;
    } else if k < 56 {
      From52();
      assert k == 52 || k == 53 || k == 54 || k == 55;
    } else if k < 60 {
      From56();
      assert k == 56 || k == 57 || k == 58 || k == 59;
    } else {
      From60();
      assert k == 60 || k == 61 || k == 62 || k == 63;
    }
    Agree(k);
  }

  lemma Agree(k: nat)
    requires Agrees(k)
    ensures k < 64 && Walk(k).row < 8 && Walk(k).column < 8 && Natural(k) == 8 * Walk(k).row + Walk(k).column
  {
  }

  /** So the coefficients are taken from there. */
  lemma ZigZagIsWalk(block: Block, k: nat)
    requires k < 64
    ensures Walk(k).row < 8 && Walk(k).column < 8 && ToZigZag(block)[k] == block[8 * Walk(k).row + Walk(k).column]
  {
    hide Natural, Walk;
    OrderIsWalk(k);
  }

  /** The walk goes up along even antidiagonals and down along odd ones. */
  lemma {:induction false} DirectionIsParity(k: nat)
    requires k < 64
    ensures Walk(k).up <==> (Walk(k).row + Walk(k).column) % 2 == 0
  {
    hide Walk, Natural;
    if k == 0 {
      Reach0();
    } else {
      DirectionIsParity(k - 1);
      OrderIsWalk(k - 1);
      OrderIsWalk(k);
      Step(k - 1);
    }
  }

  /** Antidiagonal comes after antidiagonal, and along each of them the rows fall if it is even
      and rise if it is odd. */
  lemma {:induction false} AntidiagonalsInOrder(k: nat, l: nat)
    requires k < l < 64
    ensures var p, q := Walk(k), Walk(l);
            && p.row + p.column <= q.row + q.column
            && (p.row + p.column == q.row + q.column ==>
                  if (p.row + p.column) % 2 == 0 then q.row < p.row else p.row < q.row)
    decreases l
  {
    hide Walk, Natural;
    OrderIsWalk(k);
    DirectionIsParity(l - 1);
    OrderIsWalk(l - 1);
    OrderIsWalk(l);
    Step(l - 1);
    if k < l - 1 {
      AntidiagonalsInOrder(k, l - 1);
    }
  }

  lemma Step(k: nat)
    ensures Walk(k + 1) == Next(Walk(k))
  {
  }

  // ---------- the walk, four steps at a time ----------

  lemma Reach0()
    ensures Walk(0) == Place(0, 0, true)
  {
  }

  lemma From0()
    ensures Agrees(0) && Agrees(1) && Agrees(2) && Agrees(3)
  {
    hide Walk;
    Reach0();
    Step(0); Step(1); Step(2); Step(3);
  }

  lemma Reach4()
    ensures Walk(4) == Place(1, 1, true)
  {
    hide Walk;
    Reach0();
    Step(0); Step(1); Step(2); Step(3);
  }

  lemma From4()
    ensures Agrees(4) && Agrees(5) && Agrees(6) && Agrees(7)
  {
    hide Walk;
    Reach4();
    Step(4); Step(5); Step(6); Step(7);
  }

  lemma Reach8()
    ensures Walk(8) == Place(2, 1, false)
  {
    hide Walk;
    Reach4();
    Step(4); Step(5); Step(6); Step(7);
  }

  lemma From8()
    ensures Agrees(8) && Agrees(9) && Agrees(10) && Agrees(11)
  {
    hide Walk;
    Reach8();
    Step(8); Step(9); Step(10); Step(11);
  }

  lemma Reach12()
    ensures Walk(12) == Place(2, 2, true)
  {
    hide Walk;
    Reach8();
    Step(8); Step(9); Step(10); Step(11);
  }

  lemma From12()
    ensures Agrees(12) && Agrees(13) && Agrees(14) && Agrees(15)
  {
    hide Walk;
    Reach12();
    Step(12); Step(13); Step(14); Step(15);
  }

  lemma Reach16()
    ensures Walk(16) == Place(1, 4, false)
  {
    hide Walk;
    Reach12();
    Step(12); Step(13); Step(14); Step(15);
  }

  lemma From16()
    ensures Agrees(16) && Agrees(17) && Agrees(18) && Agrees(19)
  {
    hide Walk;
    Reach16();
    Step(16); Step(17); Step(18); Step(19);
  }

  lemma Reach20()
    ensures Walk(20) == Place(5, 0, false)
  {
    hide Walk;
    Reach16();
    Step(16); Step(17); Step(18); Step(19);
  }

  lemma From20()
    ensures Agrees(20) && Agrees(21) && Agrees(22) && Agrees(23)
  {
    hide Walk;
    Reach20();
    Step(20); Step(21); Step(22); Step(23);
  }

  lemma Reach24()
    ensures Walk(24) == Place(3, 3, true)
  {
    hide Walk;
    Reach20();
    Step(20); Step(21); Step(22); Step(23);
  }

  lemma From24()
    ensures Agrees(24) && Agrees(25) && Agrees(26) && Agrees(27)
  {
    hide Walk;
    Reach24();
    Step(24); Step(25); Step(26); Step(27);
  }

  lemma Reach28()
    ensures Walk(28) == Place(0, 7, false)
  {
    hide Walk;
    Reach24();
    Step(24); Step(25); Step(26); Step(27);
  }

  lemma From28()
    ensures Agrees(28) && Agrees(29) && Agrees(30) && Agrees(31)
  {
    hide Walk;
    Reach28();
    Step(28); Step(29); Step(30); Step(31);
  }

  lemma Reach32()
    ensures Walk(32) == Place(4, 3, false)
  {
    hide Walk;
    Reach28();
    Step(28); Step(29); Step(30); Step(31);
  }

  lemma From32()
    ensures Agrees(32) && Agrees(33) && Agrees(34) && Agrees(35)
  {
    hide Walk;
    Reach32();
    Step(32); Step(33); Step(34); Step(35);
  }

  lemma Reach36()
    ensures Walk(36) == Place(7, 1, true)
  {
    hide Walk;
    Reach32();
    Step(32); Step(33); Step(34); Step(35);
  }

  lemma From36()
    ensures Agrees(36) && Agrees(37) && Agrees(38) && Agrees(39)
  {
    hide Walk;
    Reach36();
    Step(36); Step(37); Step(38); Step(39);
  }

  lemma Reach40()
    ensures Walk(40) == Place(3, 5, true)
  {
    hide Walk;
    Reach36();
    Step(36); Step(37); Step(38); Step(39);
  }

  lemma From40()
    ensures Agrees(40) && Agrees(41) && Agrees(42) && Agrees(43)
  {
    hide Walk;
    Reach40();
    Step(40); Step(41); Step(42); Step(43);
  }

  lemma Reach44()
    ensures Walk(44) == Place(3, 6, false)
  {
    hide Walk;
    Reach40();
    Step(40); Step(41); Step(42); Step(43);
  }

  lemma From44()
    ensures Agrees(44) && Agrees(45) && Agrees(46) && Agrees(47)
  {
    hide Walk;
    Reach44();
    Step(44); Step(45); Step(46); Step(47);
  }

  lemma Reach48()
    ensures Walk(48) == Place(7, 2, false)
  {
    hide Walk;
    Reach44();
    Step(44); Step(45); Step(46); Step(47);
  }

  lemma From48()
    ensures Agrees(48) && Agrees(49) && Agrees(50) && Agrees(51)
  {
    hide Walk;
    Reach48();
    Step(48); Step(49); Step(50); Step(51);
  }

  lemma Reach52()
    ensures Walk(52) == Place(4, 6, true)
  {
    hide Walk;
    Reach48();
    Step(48); Step(49); Step(50); Step(51);
  }

  lemma From52()
    ensures Agrees(52) && Agrees(53) && Agrees(54) && Agrees(55)
  {
    hide Walk;
    Reach52();
    Step(52); Step(53); Step(54); Step(55);
  }

  lemma Reach56()
    ensures Walk(56) == Place(6, 5, false)
  {
    hide Walk;
    Reach52();
    Step(52); Step(53); Step(54); Step(55);
  }

  lemma From56()
    ensures Agrees(56) && Agrees(57) && Agrees(58) && Agrees(59)
  {
    hide Walk;
    Reach56();
    Step(56); Step(57); Step(58); Step(59);
  }

  lemma Reach60()
    ensures Walk(60) == Place(5, 7, true)
  {
    hide Walk;
    Reach56();
    Step(56); Step(57); Step(58); Step(59);
  }

  lemma From60()
    ensures Agrees(60) && Agrees(61) && Agrees(62) && Agrees(63)
  {
    hide Walk;
    Reach60();
    Step(60); Step(61); Step(62);
  }
}
