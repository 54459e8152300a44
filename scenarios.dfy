/** Small runs of operations on one container, from a fresh container on:
    each method states the exact table and cardinality it ends with, so a
    sequence of mutations composes on the same object. */
module RunScenarios {
  import opened Shorts
  import opened Runs
  import opened Outcomes
  import opened RunContainers

  /** The values 1 .. 5 are the one run 1..5. */
  lemma OneToFive()
    ensures Elements([Run(1, 4)]) == {1, 2, 3, 4, 5}
  {
    RunElements(Run(1, 4));
    assert Interval(1, 6) == {1, 2, 3, 4, 5} by {
      forall v ensures v in Interval(1, 6) <==> v in {1, 2, 3, 4, 5} {
        assert v in Interval(1, 6) <==> Between(1, v, 6);
      }
    }
  }

  /** Adding 3, 1 and 5 to an empty container stores the three values. */
  method AddThreeOneFive() returns (rc: RunContainer)
    ensures fresh(rc) && fresh(rc.valueslength) && rc.Valid()
    ensures rc.Content() == {1, 3, 5}
  {
    rc := new RunContainer();
    rc.Add(3);
    rc.Add(1);
    assert rc.Content() == {1, 3};
    rc.Add(5);
  }

  /** Then adding 2 and 4 fuses them into the single run 1..5, of
      cardinality 5. */
  method AddOneToFive() returns (rc: RunContainer, card: int)
    ensures fresh(rc) && fresh(rc.valueslength) && rc.Valid()
    ensures rc.Table() == [Run(1, 4)] && card == 5
  {
    rc := AddThreeOneFive();
    rc.Add(2);
    rc.Add(4);
    assert rc.Content() == {1, 2, 3, 4, 5};
    OneToFive();
    SameElements(rc.Table(), [Run(1, 4)]);
    card := rc.GetCardinality();
  }

  /** The values 1 .. 5 and 7 are the runs 1..5 and 7..7. */
  lemma OneToFiveAndSeven()
    ensures Elements([Run(1, 4), Run(7, 0)]) == {1, 2, 3, 4, 5, 7}
  {
    ElementsConcat([Run(1, 4)], [Run(7, 0)]);
    assert [Run(1, 4), Run(7, 0)] == [Run(1, 4)] + [Run(7, 0)];
    RunElements(Run(7, 0));
    assert Interval(7, 8) == {7} by {
      forall v ensures v in Interval(7, 8) <==> v == 7 {
        assert v in Interval(7, 8) <==> Between(7, v, 8);
      }
    }
    OneToFive();
  }

  /** Then adding 7 starts a second run: 1..5 and 7, of cardinality 6. */
  method AddSeven() returns (rc: RunContainer, card: int)
    ensures fresh(rc) && fresh(rc.valueslength) && rc.Valid()
    ensures rc.Table() == [Run(1, 4), Run(7, 0)] && card == 6
  {
    rc, card := AddOneToFive();
    OneToFive();
    rc.Add(7);
    assert rc.Content() == {1, 2, 3, 4, 5, 7};
    OneToFiveAndSeven();
    assert Canonical([Run(1, 4), Run(7, 0)]);
    SameElements(rc.Table(), [Run(1, 4), Run(7, 0)]);
    card := rc.GetCardinality();
  }

  /** The values 1, 2, 4 and 5 are the runs 1..2 and 4..5. */
  lemma OneTwoFourFive()
    ensures Elements([Run(1, 1), Run(4, 1)]) == {1, 2, 4, 5}
  {
    ElementsConcat([Run(1, 1)], [Run(4, 1)]);
    assert [Run(1, 1), Run(4, 1)] == [Run(1, 1)] + [Run(4, 1)];
    RunElements(Run(1, 1));
    RunElements(Run(4, 1));
    assert Interval(1, 3) + Interval(4, 6) == {1, 2, 4, 5} by {
      forall v ensures v in Interval(1, 3) + Interval(4, 6) <==> v in {1, 2, 4, 5} {
        assert v in Interval(1, 3) <==> Between(1, v, 3);
        assert v in Interval(4, 6) <==> Between(4, v, 6);
      }
    }
  }

  /** Removing 3 from the run 1..5 splits it into 1..2 and 4..5. */
  method RemoveThree() returns (rc: RunContainer, card: int)
    ensures fresh(rc) && fresh(rc.valueslength) && rc.Valid()
    ensures rc.Table() == [Run(1, 1), Run(4, 1)] && card == 4
  {
    rc, card := AddOneToFive();
    OneToFive();
    rc.Remove(3);
    assert rc.Content() == {1, 2, 4, 5};
    OneTwoFourFive();
    assert Canonical([Run(1, 1), Run(4, 1)]);
    SameElements(rc.Table(), [Run(1, 1), Run(4, 1)]);
    card := rc.GetCardinality();
  }

  /** The values 2 .. 5 are the one run 2..5. */
  lemma TwoToFive()
    ensures Elements([Run(2, 3)]) == {2, 3, 4, 5}
  {
    RunElements(Run(2, 3));
    assert Interval(2, 6) == {2, 3, 4, 5} by {
      forall v ensures v in Interval(2, 6) <==> v in {2, 3, 4, 5} {
        assert v in Interval(2, 6) <==> Between(2, v, 6);
      }
    }
  }

  /** Removing 1 from the run 1..5 leaves the run 2..5. */
  method RemoveOne() returns (rc: RunContainer, card: int)
    ensures fresh(rc) && fresh(rc.valueslength) && rc.Valid()
    ensures rc.Table() == [Run(2, 3)] && card == 4
  {
    rc, card := AddOneToFive();
    OneToFive();
    rc.Remove(1);
    assert rc.Content() == {2, 3, 4, 5};
    TwoToFive();
    SameElements(rc.Table(), [Run(2, 3)]);
    card := rc.GetCardinality();
  }

  /** `select(0)` on the run 1..5 is 1; `select(10)` with six values stored
      is an illegal argument. */
  method SelectExamples() returns (first: Result<U16>, beyond: Result<U16>)
    ensures first == Success(1) && beyond == Failure(IllegalArgument)
  {
    var rc, card := AddOneToFive();
    first := rc.Select(0);
    assert Values(rc.Table())[0] == 1 by {
      assert Values([Run(1, 4)]) == Span(Run(1, 4)) + Values([Run(1, 4)][1..]);
    }
    var rc2, card2 := AddSeven();
    assert Cardinality(rc2.Table()) == 6 by {
      ghost var t := rc2.Table();
      assert t[1..] == [Run(7, 0)] && t[1..][1..] == [];
    }
    beyond := rc2.Select(10);
  }
}
