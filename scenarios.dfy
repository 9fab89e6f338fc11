/**
 Concrete runs of the stall detector on short stderr lines.
 */
module Scenarios {
  import opened BestNumber
  import opened Tracker
  import opened Reader

  const Line10: string := "a best #10"

  lemma Line10Captures()
    ensures Capture(Line10) == Some("10")
  {
    assert LeftmostFirst(Line10, 2, 7) by {
      assert Completes(Line10, 2, 7);
      forall p', h' | Completes(Line10, p', h') ensures 2 < p' || (2 == p' && 7 <= h') {
        assert !BestAt(Line10, 1);
      }
    }
    CaptureIsLeftmostFirst(Line10, 2, 7);
    assert DigitRunEnd(Line10, 8) == 10 by {
      assert IsDigit(Line10[8]) && IsDigit(Line10[9]);
    }
    assert Line10[8..10] == "10";
  }

  const Line0: string := "a best #0"

  lemma Line0Captures()
    ensures Capture(Line0) == Some("0")
  {
    assert LeftmostFirst(Line0, 2, 7) by {
      assert Completes(Line0, 2, 7);
      forall p', h' | Completes(Line0, p', h') ensures 2 < p' || (2 == p' && 7 <= h') {
        assert !BestAt(Line0, 1);
      }
    }
    CaptureIsLeftmostFirst(Line0, 2, 7);
    assert DigitRunEnd(Line0, 8) == 9;
    assert Line0[8..9] == "0";
  }

  /**
   From a fresh start a repeated nonzero number needs five lines to stall: after four
   the idle count is 3, which is not above the limit.
   */
  lemma NonzeroNeedsFiveLines()
    ensures StateAfter(Repeat(Line10, 4)) == Tracking(State(10, 3))
    ensures StateAfter(Repeat(Line10, 5)) == Tracking(State(10, 4))
  {
    Line10Captures();
    assert DecimalValue("10") == 10 by {
      assert "10"[..1] == "1";
    }
    RepeatedNumber(Line10, 4);
    RepeatedNumber(Line10, 5);
  }

  /** The initial best number is 0, so lines carrying `#0` stall after four lines. */
  lemma ZeroStallsAfterFourLines()
    ensures StateAfter(Repeat(Line0, 3)) == Tracking(State(0, 3))
    ensures StateAfter(Repeat(Line0, 4)) == Tracking(State(0, 4))
  {
    Line0Captures();
    assert DecimalValue("0") == 0;
    RepeatedNumber(Line0, 3);
    RepeatedNumber(Line0, 4);
  }
}
