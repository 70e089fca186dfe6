/** The fade-out tracker: `countdown` maps a clicked target to its remaining
    reveal time and `hiddenNumbers` collects the targets whose time ran out.
    Time is counted in tenths of a second, the period of the tick. */
module Countdown {
  import opened Sequence

  /** The 3.0 s reveal window a correct click starts, in tenths. */
  const FadeWindow: nat := 30

  /** The countdowns one tick keeps: every entry lowered by one tenth, kept
      while the new value is positive. */
  function Decremented(countdown: map<int, nat>): map<int, nat>
  {
    map k | k in countdown && countdown[k] as int - 1 > 0 :: countdown[k] - 1
  }

  /** The targets one tick hides: those whose new value is no longer positive. */
  function Expired(countdown: map<int, nat>): set<int>
  {
    set k | k in countdown && countdown[k] as int - 1 <= 0
  }

  lemma HasMember(s: set<int>)
    requires s != {}
    ensures exists x :: x in s
  {
    if forall x :: x !in s {
      assert false;
    }
  }

  /** The updater the countdown interval hands to setCountdown: walks over
      the running countdowns, keeps each lowered value that is still
      positive, and adds the others to a copy of the hidden set. */
  method UpdateCountdowns(prevCountdowns: map<int, nat>, hiddenNumbers: set<int>)
    returns (updatedCountdowns: map<int, nat>, newHiddenNumbers: set<int>)
    ensures updatedCountdowns == Decremented(prevCountdowns)
    ensures newHiddenNumbers == hiddenNumbers + Expired(prevCountdowns)
  {
    updatedCountdowns := map[];
    newHiddenNumbers := hiddenNumbers;
    var keys := prevCountdowns.Keys;
    while keys != {}
      invariant keys <= prevCountdowns.Keys
      invariant forall k :: k in updatedCountdowns <==>
                  k in prevCountdowns && k !in keys && prevCountdowns[k] as int - 1 > 0
      invariant forall k :: k in updatedCountdowns ==> updatedCountdowns[k] == prevCountdowns[k] - 1
      invariant newHiddenNumbers == hiddenNumbers
                  + (set k | k in prevCountdowns && k !in keys && prevCountdowns[k] as int - 1 <= 0)
      decreases keys
    {
      HasMember(keys);
      var key :| key in keys;
      var newValue := prevCountdowns[key] as int - 1;
      if newValue > 0 {
        updatedCountdowns := updatedCountdowns[key := newValue];
      } else {
        newHiddenNumbers := newHiddenNumbers + {key};
      }
      keys := keys - {key};
    }
    forall k ensures k in updatedCountdowns <==> k in Decremented(prevCountdowns) {
    }
    assert updatedCountdowns.Keys == Decremented(prevCountdowns).Keys;
    forall k | k in updatedCountdowns ensures updatedCountdowns[k] == Decremented(prevCountdowns)[k] {
    }
  }

  /** One tick on a single running countdown. */
  lemma TickOne(k: int, v: nat)
    ensures Decremented(map[k := v]) == if v > 1 then map[k := v - 1] else map[]
    ensures Expired(map[k := v]) == if v > 1 then {} else {k}
  {
    if v > 1 {
      assert Decremented(map[k := v]).Keys == {k};
    } else {
      assert Decremented(map[k := v]).Keys == {};
      assert k in Expired(map[k := v]);
    }
  }

  /** The state after n ticks with no click in between. */
  function Ticks(countdown: map<int, nat>, hidden: set<int>, n: nat): (map<int, nat>, set<int>)
  {
    if n == 0 then (countdown, hidden)
    else Ticks(Decremented(countdown), hidden + Expired(countdown), n - 1)
  }

  /** The countdowns still running after n ticks. */
  function RemainingAfter(countdown: map<int, nat>, n: nat): map<int, nat>
  {
    map k | k in countdown && countdown[k] > n :: countdown[k] - n
  }

  /** The targets whose countdown has run out within n ticks. */
  function FadedWithin(countdown: map<int, nat>, n: nat): set<int>
  {
    set k | k in countdown && countdown[k] <= n
  }

  /** n ticks in a row lower each running countdown by n; a target is hidden
      by the tick at which its countdown reaches zero, and not before. */
  lemma {:induction false} TicksClosedForm(countdown: map<int, nat>, hidden: set<int>, n: nat)
    requires forall k :: k in countdown ==> countdown[k] > 0
    ensures Ticks(countdown, hidden, n) == (RemainingAfter(countdown, n), hidden + FadedWithin(countdown, n))
  {
    if n == 0 {
      forall k | k in countdown ensures k in RemainingAfter(countdown, 0) {
        assert countdown[k] > 0;
      }
      assert RemainingAfter(countdown, 0) == countdown;
      assert FadedWithin(countdown, 0) == {};
      assert hidden + FadedWithin(countdown, 0) == hidden;
    } else {
      var next := Decremented(countdown);
      TicksClosedForm(next, hidden + Expired(countdown), n - 1);
      assert RemainingAfter(next, n - 1).Keys == RemainingAfter(countdown, n).Keys;
      assert RemainingAfter(next, n - 1) == RemainingAfter(countdown, n);
      assert Expired(countdown) + FadedWithin(next, n - 1) == FadedWithin(countdown, n);
      assert hidden + Expired(countdown) + FadedWithin(next, n - 1) == hidden + FadedWithin(countdown, n);
    }
  }

  /** A target that has just been clicked stays visible for FadeWindow - 1
      ticks and is hidden by the FadeWindow-th tick. */
  lemma ClickedTargetFades(countdown: map<int, nat>, hidden: set<int>, k: int, n: nat)
    requires forall j :: j in countdown ==> countdown[j] > 0
    requires k in countdown && countdown[k] == FadeWindow && k !in hidden
    ensures k in Ticks(countdown, hidden, n).1 <==> n >= FadeWindow
    ensures k in Ticks(countdown, hidden, n).0 <==> n < FadeWindow
  {
    TicksClosedForm(countdown, hidden, n);
  }

  /** Once every target 1..targetCount has been clicked, the hidden set
      reaches targetCount elements exactly when every running countdown has
      run out: the last fade, not the last click, completes the game. */
  lemma WinExactlyWhenAllFaded(countdown: map<int, nat>, hidden: set<int>, targetCount: nat, n: nat)
    requires forall k :: k in countdown ==> countdown[k] > 0
    requires countdown.Keys !! hidden
    requires countdown.Keys + hidden == Upto(targetCount)
    ensures |Ticks(countdown, hidden, n).1| == targetCount
            <==> forall k :: k in countdown ==> countdown[k] <= n
  {
    TicksClosedForm(countdown, hidden, n);
    var hidden' := hidden + FadedWithin(countdown, n);
    var running := RemainingAfter(countdown, n).Keys;
    assert running == countdown.Keys - FadedWithin(countdown, n);
    assert hidden' + running == Upto(targetCount);
    assert hidden' * running == {};
    UptoSize(targetCount);
    if |hidden'| == targetCount {
      forall k | k in countdown ensures countdown[k] <= n {
        assert k !in running;
      }
    } else {
      var k :| k in running;
    }
  }
}
