/**
 * The permutation generator for three and five cities, proved by evaluating
 * the definitions step by step: in each of the (n-1)!/2 rounds the exhaustive
 * search takes, the state it prices still has a mobile value.
 */
module GeneratorExamples {
  import opened Sjt
  import opened CheapestTour

  /**
   * One generator step from a known state: when the scan settles on the
   * mobile value at position i, the next state is the move of that value.
   */
  lemma StepFrom(n: int, k: nat, s: Arrangement, i: int, next: Arrangement)
    requires n >= 2 && State(n, k) == s && Mobile(s, n, i)
    requires LargestMobile(s, n) == (s.p[i], i) && Move(s, n, i) == next
    ensures State(n, k + 1) == next && HasMobile(s, n)
  {
  }

  /** On three cities the search prices (3-1)!/2 = 1 arrangement, the identity, whose last value is mobile. */
  lemma ThreeNeverStuck()
    ensures NeverStuck(3, Fact(2) / 2)
  {
    assert Fact(2) / 2 == 1;
    var s := State(3, 0);
    assert s == Arrangement([0, 1, 2], [Left, Left, Left]);
    assert Mobile(s, 3, 2);
    forall k | 0 <= k < 1
      ensures HasMobile(State(3, k), 3)
    {
    }
  }

  /** On five cities the search prices (5-1)!/2 = 12 arrangements, and none of them is stuck. */
  lemma FiveNeverStuck()
    ensures NeverStuck(5, Fact(4) / 2)
  {
    assert Fact(4) / 2 == 12;
    forall k | 0 <= k < 12
      ensures HasMobile(State(5, k), 5)
    {
      FiveStates(k);
    }
  }

  /** The first twelve five-city states, each with a mobile value. */
  lemma FiveStates(k: nat)
    requires k < 12
    ensures HasMobile(State(5, k), 5)
  {
    if k == 0 {
      Five0(k);
    } else if k == 1 {
      Five1(k);
    } else if k == 2 {
      Five2(k);
    } else if k == 3 {
      Five3(k);
    } else if k == 4 {
      Five4(k);
    } else if k == 5 {
      Five5(k);
    } else if k == 6 {
      Five6(k);
    } else if k == 7 {
      Five7(k);
    } else if k == 8 {
      Five8(k);
    } else if k == 9 {
      Five9(k);
    } else if k == 10 {
      Five10(k);
    } else {
      Five11(k);
    }
  }

  /** The five-city generator starts from the identity with every flag LEFT, and 4 is mobile. */
  lemma Five0(k: nat)
    requires k == 0
    ensures State(5, k) == Arrangement([0, 1, 2, 3, 4], [Left, Left, Left, Left, Left])
    ensures HasMobile(State(5, k), 5)
  {
    assert State(5, k) == Arrangement([0, 1, 2, 3, 4], [Left, Left, Left, Left, Left]);
    Round1();
  }

  /** State 1, reached by moving 4 from position 4; it has 4 mobile at position 3. */
  lemma Five1(k: nat)
    requires k == 1
    ensures State(5, k) == Arrangement([0, 1, 2, 4, 3], [Left, Left, Left, Left, Left])
    ensures HasMobile(State(5, k), 5)
  {
    Five0(k - 1);
    Round1();
    StepFrom(5, k - 1, Arrangement([0, 1, 2, 3, 4], [Left, Left, Left, Left, Left]), 4, Arrangement([0, 1, 2, 4, 3], [Left, Left, Left, Left, Left]));
    Round2();
  }

  /** State 2, reached by moving 4 from position 3; it has 4 mobile at position 2. */
  lemma Five2(k: nat)
    requires k == 2
    ensures State(5, k) == Arrangement([0, 1, 4, 2, 3], [Left, Left, Left, Left, Left])
    ensures HasMobile(State(5, k), 5)
  {
    Five1(k - 1);
    Round2();
    StepFrom(5, k - 1, Arrangement([0, 1, 2, 4, 3], [Left, Left, Left, Left, Left]), 3, Arrangement([0, 1, 4, 2, 3], [Left, Left, Left, Left, Left]));
    Round3();
  }

  /** State 3, reached by moving 4 from position 2; it has 3 mobile at position 4. */
  lemma Five3(k: nat)
    requires k == 3
    ensures State(5, k) == Arrangement([0, 4, 1, 2, 3], [Left, Left, Left, Left, Left])
    ensures HasMobile(State(5, k), 5)
  {
    Five2(k - 1);
    Round3();
    StepFrom(5, k - 1, Arrangement([0, 1, 4, 2, 3], [Left, Left, Left, Left, Left]), 2, Arrangement([0, 4, 1, 2, 3], [Left, Left, Left, Left, Left]));
    Round4();
  }

  /** State 4, reached by moving 3 from position 4; it has 4 mobile at position 1. */
  lemma Five4(k: nat)
    requires k == 4
    ensures State(5, k) == Arrangement([0, 4, 1, 3, 2], [Left, Right, Left, Left, Left])
    ensures HasMobile(State(5, k), 5)
  {
    Five3(k - 1);
    Round4();
    StepFrom(5, k - 1, Arrangement([0, 4, 1, 2, 3], [Left, Left, Left, Left, Left]), 4, Arrangement([0, 4, 1, 3, 2], [Left, Right, Left, Left, Left]));
    Round5();
  }

  /** State 5, reached by moving 4 from position 1; it has 4 mobile at position 2. */
  lemma Five5(k: nat)
    requires k == 5
    ensures State(5, k) == Arrangement([0, 1, 4, 3, 2], [Left, Left, Right, Left, Left])
    ensures HasMobile(State(5, k), 5)
  {
    Five4(k - 1);
    Round5();
    StepFrom(5, k - 1, Arrangement([0, 4, 1, 3, 2], [Left, Right, Left, Left, Left]), 1, Arrangement([0, 1, 4, 3, 2], [Left, Left, Right, Left, Left]));
    Round6();
  }

  /** State 6, reached by moving 4 from position 2; it has 4 mobile at position 3. */
  lemma Five6(k: nat)
    requires k == 6
    ensures State(5, k) == Arrangement([0, 1, 3, 4, 2], [Left, Left, Left, Right, Left])
    ensures HasMobile(State(5, k), 5)
  {
    Five5(k - 1);
    Round6();
    StepFrom(5, k - 1, Arrangement([0, 1, 4, 3, 2], [Left, Left, Right, Left, Left]), 2, Arrangement([0, 1, 3, 4, 2], [Left, Left, Left, Right, Left]));
    Round7();
  }

  /** State 7, reached by moving 4 from position 3; it has 3 mobile at position 2. */
  lemma Five7(k: nat)
    requires k == 7
    ensures State(5, k) == Arrangement([0, 1, 3, 2, 4], [Left, Left, Left, Left, Right])
    ensures HasMobile(State(5, k), 5)
  {
    Five6(k - 1);
    Round7();
    StepFrom(5, k - 1, Arrangement([0, 1, 3, 4, 2], [Left, Left, Left, Right, Left]), 3, Arrangement([0, 1, 3, 2, 4], [Left, Left, Left, Left, Right]));
    Round8();
  }

  /** State 8, reached by moving 3 from position 2; it has 4 mobile at position 4. */
  lemma Five8(k: nat)
    requires k == 8
    ensures State(5, k) == Arrangement([0, 3, 1, 2, 4], [Left, Left, Left, Left, Left])
    ensures HasMobile(State(5, k), 5)
  {
    Five7(k - 1);
    Round8();
    StepFrom(5, k - 1, Arrangement([0, 1, 3, 2, 4], [Left, Left, Left, Left, Right]), 2, Arrangement([0, 3, 1, 2, 4], [Left, Left, Left, Left, Left]));
    Round9();
  }

  /** State 9, reached by moving 4 from position 4; it has 4 mobile at position 3. */
  lemma Five9(k: nat)
    requires k == 9
    ensures State(5, k) == Arrangement([0, 3, 1, 4, 2], [Left, Left, Left, Left, Left])
    ensures HasMobile(State(5, k), 5)
  {
    Five8(k - 1);
    Round9();
    StepFrom(5, k - 1, Arrangement([0, 3, 1, 2, 4], [Left, Left, Left, Left, Left]), 4, Arrangement([0, 3, 1, 4, 2], [Left, Left, Left, Left, Left]));
    Round10();
  }

  /** State 10, reached by moving 4 from position 3; it has 4 mobile at position 2. */
  lemma Five10(k: nat)
    requires k == 10
    ensures State(5, k) == Arrangement([0, 3, 4, 1, 2], [Left, Left, Left, Left, Left])
    ensures HasMobile(State(5, k), 5)
  {
    Five9(k - 1);
    Round10();
    StepFrom(5, k - 1, Arrangement([0, 3, 1, 4, 2], [Left, Left, Left, Left, Left]), 3, Arrangement([0, 3, 4, 1, 2], [Left, Left, Left, Left, Left]));
    Round11();
  }

  /** State 11, reached by moving 4 from position 2; it has 2 mobile at position 4. */
  lemma Five11(k: nat)
    requires k == 11
    ensures State(5, k) == Arrangement([0, 4, 3, 1, 2], [Left, Left, Left, Left, Left])
    ensures HasMobile(State(5, k), 5)
  {
    Five10(k - 1);
    Round11();
    StepFrom(5, k - 1, Arrangement([0, 3, 4, 1, 2], [Left, Left, Left, Left, Left]), 2, Arrangement([0, 4, 3, 1, 2], [Left, Left, Left, Left, Left]));
    Round12();
  }

  /** Step 1 by evaluation: the scan finds 4 at position 4, and moving it gives the next state. */
  lemma Round1()
    ensures var s := Arrangement([0, 1, 2, 3, 4], [Left, Left, Left, Left, Left]);
      Mobile(s, 5, 4) && LargestMobile(s, 5) == (4, 4) && Move(s, 5, 4) == Arrangement([0, 1, 2, 4, 3], [Left, Left, Left, Left, Left])
  {
    var s := Arrangement([0, 1, 2, 3, 4], [Left, Left, Left, Left, Left]);
    assert Mobile(s, 5, 4);
    assert Scan(s, 5, 2) == (0, 0);
    assert Scan(s, 5, 3) == (2, 2);
    assert Scan(s, 5, 4) == (3, 3);
  }

  /** Step 2 by evaluation: the scan finds 4 at position 3, and moving it gives the next state. */
  lemma Round2()
    ensures var s := Arrangement([0, 1, 2, 4, 3], [Left, Left, Left, Left, Left]);
      Mobile(s, 5, 3) && LargestMobile(s, 5) == (4, 3) && Move(s, 5, 3) == Arrangement([0, 1, 4, 2, 3], [Left, Left, Left, Left, Left])
  {
    var s := Arrangement([0, 1, 2, 4, 3], [Left, Left, Left, Left, Left]);
    assert Mobile(s, 5, 3);
    assert Scan(s, 5, 2) == (0, 0);
    assert Scan(s, 5, 3) == (2, 2);
    assert Scan(s, 5, 4) == (4, 3);
  }

  /** Step 3 by evaluation: the scan finds 4 at position 2, and moving it gives the next state. */
  lemma Round3()
    ensures var s := Arrangement([0, 1, 4, 2, 3], [Left, Left, Left, Left, Left]);
      Mobile(s, 5, 2) && LargestMobile(s, 5) == (4, 2) && Move(s, 5, 2) == Arrangement([0, 4, 1, 2, 3], [Left, Left, Left, Left, Left])
  {
    var s := Arrangement([0, 1, 4, 2, 3], [Left, Left, Left, Left, Left]);
    assert Mobile(s, 5, 2);
    assert Scan(s, 5, 2) == (0, 0);
    assert Scan(s, 5, 3) == (4, 2);
    assert Scan(s, 5, 4) == (4, 2);
  }

  /** Step 4 by evaluation: the scan finds 3 at position 4, and moving it gives the next state. */
  lemma Round4()
    ensures var s := Arrangement([0, 4, 1, 2, 3], [Left, Left, Left, Left, Left]);
      Mobile(s, 5, 4) && LargestMobile(s, 5) == (3, 4) && Move(s, 5, 4) == Arrangement([0, 4, 1, 3, 2], [Left, Right, Left, Left, Left])
  {
    var s := Arrangement([0, 4, 1, 2, 3], [Left, Left, Left, Left, Left]);
    assert Mobile(s, 5, 4);
    assert Scan(s, 5, 2) == (0, 0);
    assert Scan(s, 5, 3) == (0, 0);
    assert Scan(s, 5, 4) == (2, 3);
  }

  /** Step 5 by evaluation: the scan finds 4 at position 1, and moving it gives the next state. */
  lemma Round5()
    ensures var s := Arrangement([0, 4, 1, 3, 2], [Left, Right, Left, Left, Left]);
      Mobile(s, 5, 1) && LargestMobile(s, 5) == (4, 1) && Move(s, 5, 1) == Arrangement([0, 1, 4, 3, 2], [Left, Left, Right, Left, Left])
  {
    var s := Arrangement([0, 4, 1, 3, 2], [Left, Right, Left, Left, Left]);
    assert Mobile(s, 5, 1);
    assert Scan(s, 5, 2) == (4, 1);
    assert Scan(s, 5, 3) == (4, 1);
    assert Scan(s, 5, 4) == (4, 1);
  }

  /** Step 6 by evaluation: the scan finds 4 at position 2, and moving it gives the next state. */
  lemma Round6()
    ensures var s := Arrangement([0, 1, 4, 3, 2], [Left, Left, Right, Left, Left]);
      Mobile(s, 5, 2) && LargestMobile(s, 5) == (4, 2) && Move(s, 5, 2) == Arrangement([0, 1, 3, 4, 2], [Left, Left, Left, Right, Left])
  {
    var s := Arrangement([0, 1, 4, 3, 2], [Left, Left, Right, Left, Left]);
    assert Mobile(s, 5, 2);
    assert Scan(s, 5, 2) == (0, 0);
    assert Scan(s, 5, 3) == (4, 2);
    assert Scan(s, 5, 4) == (4, 2);
  }

  /** Step 7 by evaluation: the scan finds 4 at position 3, and moving it gives the next state. */
  lemma Round7()
    ensures var s := Arrangement([0, 1, 3, 4, 2], [Left, Left, Left, Right, Left]);
      Mobile(s, 5, 3) && LargestMobile(s, 5) == (4, 3) && Move(s, 5, 3) == Arrangement([0, 1, 3, 2, 4], [Left, Left, Left, Left, Right])
  {
    var s := Arrangement([0, 1, 3, 4, 2], [Left, Left, Left, Right, Left]);
    assert Mobile(s, 5, 3);
    assert Scan(s, 5, 2) == (0, 0);
    assert Scan(s, 5, 3) == (3, 2);
    assert Scan(s, 5, 4) == (4, 3);
  }

  /** Step 8 by evaluation: the scan finds 3 at position 2, and moving it gives the next state. */
  lemma Round8()
    ensures var s := Arrangement([0, 1, 3, 2, 4], [Left, Left, Left, Left, Right]);
      Mobile(s, 5, 2) && LargestMobile(s, 5) == (3, 2) && Move(s, 5, 2) == Arrangement([0, 3, 1, 2, 4], [Left, Left, Left, Left, Left])
  {
    var s := Arrangement([0, 1, 3, 2, 4], [Left, Left, Left, Left, Right]);
    assert Mobile(s, 5, 2);
    assert Scan(s, 5, 2) == (0, 0);
    assert Scan(s, 5, 3) == (3, 2);
    assert Scan(s, 5, 4) == (3, 2);
  }

  /** Step 9 by evaluation: the scan finds 4 at position 4, and moving it gives the next state. */
  lemma Round9()
    ensures var s := Arrangement([0, 3, 1, 2, 4], [Left, Left, Left, Left, Left]);
      Mobile(s, 5, 4) && LargestMobile(s, 5) == (4, 4) && Move(s, 5, 4) == Arrangement([0, 3, 1, 4, 2], [Left, Left, Left, Left, Left])
  {
    var s := Arrangement([0, 3, 1, 2, 4], [Left, Left, Left, Left, Left]);
    assert Mobile(s, 5, 4);
    assert Scan(s, 5, 2) == (0, 0);
    assert Scan(s, 5, 3) == (0, 0);
    assert Scan(s, 5, 4) == (2, 3);
  }

  /** Step 10 by evaluation: the scan finds 4 at position 3, and moving it gives the next state. */
  lemma Round10()
    ensures var s := Arrangement([0, 3, 1, 4, 2], [Left, Left, Left, Left, Left]);
      Mobile(s, 5, 3) && LargestMobile(s, 5) == (4, 3) && Move(s, 5, 3) == Arrangement([0, 3, 4, 1, 2], [Left, Left, Left, Left, Left])
  {
    var s := Arrangement([0, 3, 1, 4, 2], [Left, Left, Left, Left, Left]);
    assert Mobile(s, 5, 3);
    assert Scan(s, 5, 2) == (0, 0);
    assert Scan(s, 5, 3) == (0, 0);
    assert Scan(s, 5, 4) == (4, 3);
  }

  /** Step 11 by evaluation: the scan finds 4 at position 2, and moving it gives the next state. */
  lemma Round11()
    ensures var s := Arrangement([0, 3, 4, 1, 2], [Left, Left, Left, Left, Left]);
      Mobile(s, 5, 2) && LargestMobile(s, 5) == (4, 2) && Move(s, 5, 2) == Arrangement([0, 4, 3, 1, 2], [Left, Left, Left, Left, Left])
  {
    var s := Arrangement([0, 3, 4, 1, 2], [Left, Left, Left, Left, Left]);
    assert Mobile(s, 5, 2);
    assert Scan(s, 5, 2) == (0, 0);
    assert Scan(s, 5, 3) == (4, 2);
    assert Scan(s, 5, 4) == (4, 2);
  }

  /** Step 12 by evaluation: the scan finds 2 at position 4, and moving it gives the next state. */
  lemma Round12()
    ensures var s := Arrangement([0, 4, 3, 1, 2], [Left, Left, Left, Left, Left]);
      Mobile(s, 5, 4) && LargestMobile(s, 5) == (2, 4) && Move(s, 5, 4) == Arrangement([0, 4, 3, 2, 1], [Left, Right, Right, Left, Left])
  {
    var s := Arrangement([0, 4, 3, 1, 2], [Left, Left, Left, Left, Left]);
    assert Mobile(s, 5, 4);
    assert Scan(s, 5, 2) == (0, 0);
    assert Scan(s, 5, 3) == (0, 0);
    assert Scan(s, 5, 4) == (0, 0);
  }
}
