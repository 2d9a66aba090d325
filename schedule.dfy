/**
 The stage calendar of a time-boxed token sale.

 A sale is cut into consecutive stages of equal length. The first stage opens
 one second after the latest block time, every stage closes `stageLength`
 seconds after it opens, and each next stage opens one second after the
 previous one closed.
 Times are whole seconds, modelled as unbounded integers.

 This module gives two independent descriptions of such a calendar: the
 closed form (`StageStart`, `StageEnd`, `StartTimes`, `EndTimes`) and the
 step-by-step rule (`IsSchedule`), proves that they describe the same pair of
 sequences, and proves ordering, non-overlap and coverage facts about it.
 */
module Schedule {

  /** Opening second of stage `i` (counted from 0). */
  function StageStart(latestTime: int, stageLength: int, i: int): int
  {
    latestTime + 1 + i * (stageLength + 1)
  }

  /** Closing second of stage `i`: its opening second plus the stage length. */
  function StageEnd(latestTime: int, stageLength: int, i: int): int
  {
    StageStart(latestTime, stageLength, i) + stageLength
  }

  /** Opening seconds of the first `count` stages. */
  function StartTimes(latestTime: int, count: nat, stageLength: int): seq<int>
  {
    seq(count, i => StageStart(latestTime, stageLength, i))
  }

  /** Closing seconds of the first `count` stages. */
  function EndTimes(latestTime: int, count: nat, stageLength: int): seq<int>
  {
    seq(count, i => StageEnd(latestTime, stageLength, i))
  }

  /**
   The rule the calendar is built by, stated entry by entry: two parallel
   sequences of the same length, the first stage opens at `latestTime + 1`,
   every stage closes `stageLength` seconds after it opens, and every later
   stage opens one second after its predecessor closed.
   */
  predicate IsSchedule(latestTime: int, stageLength: int, starts: seq<int>, ends: seq<int>)
  {
    && |starts| == |ends|
    && (|starts| > 0 ==> starts[0] == latestTime + 1)
    && (forall i :: 0 <= i < |ends| ==> ends[i] == starts[i] + stageLength)
    && (forall i :: 1 <= i < |starts| ==> starts[i] == ends[i - 1] + 1)
  }

  /** Every stage after the first opens `stageLength + 1` seconds after its predecessor. */
  lemma StageStartStep(latestTime: int, stageLength: int, i: int)
    ensures StageStart(latestTime, stageLength, i + 1)
         == StageEnd(latestTime, stageLength, i) + 1
  {
  }

  /** The closed form obeys the step-by-step rule. */
  lemma ClosedFormIsSchedule(latestTime: int, count: nat, stageLength: int)
    ensures IsSchedule(latestTime, stageLength,
                       StartTimes(latestTime, count, stageLength),
                       EndTimes(latestTime, count, stageLength))
  {
    var starts := StartTimes(latestTime, count, stageLength);
    var ends := EndTimes(latestTime, count, stageLength);
    forall i | 1 <= i < count
      ensures starts[i] == ends[i - 1] + 1
    {
      StageStartStep(latestTime, stageLength, i - 1);
    }
  }

  /** Any pair of sequences built by the step-by-step rule agrees with the closed form at `i`. */
  lemma {:induction false} ScheduleAt(latestTime: int, stageLength: int,
                                      starts: seq<int>, ends: seq<int>, i: nat)
    requires IsSchedule(latestTime, stageLength, starts, ends)
    requires i < |starts|
    ensures starts[i] == StageStart(latestTime, stageLength, i)
    ensures ends[i] == StageEnd(latestTime, stageLength, i)
    decreases i
  {
    if i > 0 {
      ScheduleAt(latestTime, stageLength, starts, ends, i - 1);
      StageStartStep(latestTime, stageLength, i - 1);
    }
  }

  /**
   The step-by-step rule has exactly one solution of each length, and that
   solution is the closed form.
   */
  lemma ScheduleIsClosedForm(latestTime: int, stageLength: int, starts: seq<int>, ends: seq<int>)
    ensures IsSchedule(latestTime, stageLength, starts, ends)
        <==> (&& starts == StartTimes(latestTime, |starts|, stageLength)
              && ends == EndTimes(latestTime, |starts|, stageLength))
  {
    if IsSchedule(latestTime, stageLength, starts, ends) {
      forall i | 0 <= i < |starts|
        ensures starts[i] == StageStart(latestTime, stageLength, i)
        ensures ends[i] == StageEnd(latestTime, stageLength, i)
      {
        ScheduleAt(latestTime, stageLength, starts, ends, i);
      }
    } else if starts == StartTimes(latestTime, |starts|, stageLength)
           && ends == EndTimes(latestTime, |starts|, stageLength) {
      ClosedFormIsSchedule(latestTime, |starts|, stageLength);
      assert false;
    }
  }

  /** Multiplying by a positive factor keeps a strict order. */
  lemma MulStrictlyMonotonic(i: int, j: int, k: int)
    requires i < j && k > 0
    ensures i * k < j * k
  {
    assert j * k - i * k == (j - i) * k;
  }

  predicate StrictlyIncreasing(s: seq<int>)
  {
    forall i, j :: 0 <= i < j < |s| ==> s[i] < s[j]
  }

  /**
   With two stages or more, opening times strictly increase exactly when the
   stage length is not negative.
   */
  lemma StartsIncreasingIff(latestTime: int, count: nat, stageLength: int)
    requires count >= 2
    ensures StrictlyIncreasing(StartTimes(latestTime, count, stageLength)) <==> stageLength >= 0
  {
    var starts := StartTimes(latestTime, count, stageLength);
    if stageLength >= 0 {
      forall i, j | 0 <= i < j < count
        ensures starts[i] < starts[j]
      {
        MulStrictlyMonotonic(i, j, stageLength + 1);
      }
    } else {
      assert starts[1] == latestTime + 1 + stageLength + 1 <= starts[0];
    }
  }

  /**
   With a stage length that is not negative, stages do not overlap: every
   stage closes before any later stage opens, every stage opens after
   `latestTime`, and no stage closes before it opens.
   */
  lemma StagesDisjoint(latestTime: int, count: nat, stageLength: int)
    requires stageLength >= 0
    ensures forall i, j :: 0 <= i < j < count ==>
              EndTimes(latestTime, count, stageLength)[i] < StartTimes(latestTime, count, stageLength)[j]
    ensures forall i :: 0 <= i < count ==>
              latestTime < StartTimes(latestTime, count, stageLength)[i] <= EndTimes(latestTime, count, stageLength)[i]
  {
    var starts := StartTimes(latestTime, count, stageLength);
    var ends := EndTimes(latestTime, count, stageLength);
    forall i, j | 0 <= i < j < count
      ensures ends[i] < starts[j]
    {
      StageStartStep(latestTime, stageLength, i);
      if i + 1 < j {
        MulStrictlyMonotonic(i + 1, j, stageLength + 1);
      }
    }
    forall i | 0 <= i < count
      ensures latestTime < starts[i]
    {
      if i > 0 {
        MulStrictlyMonotonic(0, i, stageLength + 1);
      }
    }
  }

  /** The last stage of `count` closes exactly `count * (stageLength + 1)` seconds after `latestTime`. */
  lemma SaleSpan(latestTime: int, count: nat, stageLength: int)
    requires count > 0
    ensures EndTimes(latestTime, count, stageLength)[count - 1] == latestTime + count * (stageLength + 1)
  {
  }

  /**
   The stage a second `t` after `latestTime` falls into, counting each stage
   as the whole seconds from its opening to its closing second.
   */
  function StageIndexAt(latestTime: int, stageLength: int, t: int): (i: int)
    requires stageLength >= 0 && t > latestTime
    ensures i >= 0
    ensures StageStart(latestTime, stageLength, i) <= t <= StageEnd(latestTime, stageLength, i)
  {
    var q := (t - latestTime - 1) / (stageLength + 1);
    assert t - latestTime - 1 == q * (stageLength + 1) + (t - latestTime - 1) % (stageLength + 1);
    q
  }

  /** A second inside the sale falls into one of its `count` stages. */
  lemma StageIndexInRange(latestTime: int, count: nat, stageLength: int, t: int)
    requires stageLength >= 0
    requires latestTime < t <= latestTime + count * (stageLength + 1)
    ensures StageIndexAt(latestTime, stageLength, t) < count
  {
    var i := StageIndexAt(latestTime, stageLength, t);
    if i >= count {
      MulStrictlyMonotonic(count - 1, i, stageLength + 1);
      assert false;
    }
  }

  /** A second inside one of the `count` stages lies inside the sale. */
  lemma StageWithinSale(latestTime: int, count: nat, stageLength: int, t: int, i: int)
    requires stageLength >= 0
    requires 0 <= i < count
    requires StageStart(latestTime, stageLength, i) <= t <= StageEnd(latestTime, stageLength, i)
    ensures latestTime < t <= latestTime + count * (stageLength + 1)
  {
    if i > 0 {
      MulStrictlyMonotonic(0, i, stageLength + 1);
    }
    if i < count - 1 {
      MulStrictlyMonotonic(i + 1, count, stageLength + 1);
    }
    assert (i + 1) * (stageLength + 1) == i * (stageLength + 1) + stageLength + 1;
  }

  /**
   No gaps and no overlaps: with a stage length that is not negative, every
   second from `latestTime + 1` to the close of the last stage lies in exactly
   one stage, and no second outside that range lies in any stage.
   */
  lemma EverySecondInOneStage(latestTime: int, count: nat, stageLength: int, t: int)
    requires stageLength >= 0
    ensures latestTime < t <= latestTime + count * (stageLength + 1)
        <==> exists i :: 0 <= i < count && StartTimes(latestTime, count, stageLength)[i] <= t
                                        && t <= EndTimes(latestTime, count, stageLength)[i]
    ensures forall i, j :: 0 <= i < count && 0 <= j < count
              && StartTimes(latestTime, count, stageLength)[i] <= t <= EndTimes(latestTime, count, stageLength)[i]
              && StartTimes(latestTime, count, stageLength)[j] <= t <= EndTimes(latestTime, count, stageLength)[j]
              ==> i == j
  {
    var starts := StartTimes(latestTime, count, stageLength);
    var ends := EndTimes(latestTime, count, stageLength);
    if latestTime < t <= latestTime + count * (stageLength + 1) {
      var i := StageIndexAt(latestTime, stageLength, t);
      StageIndexInRange(latestTime, count, stageLength, t);
      assert starts[i] <= t <= ends[i];
    }
    if exists i :: 0 <= i < count && starts[i] <= t && t <= ends[i] {
      var i :| 0 <= i < count && starts[i] <= t && t <= ends[i];
      StageWithinSale(latestTime, count, stageLength, t, i);
    }
    StagesDisjoint(latestTime, count, stageLength);
  }

  /** Postponing the first stage by `delay` seconds postpones every stage by exactly `delay`. */
  lemma DelayedSchedule(latestTime: int, delay: int, count: nat, stageLength: int)
    ensures forall i :: 0 <= i < count ==>
              StartTimes(latestTime + delay, count, stageLength)[i] == StartTimes(latestTime, count, stageLength)[i] + delay
              && EndTimes(latestTime + delay, count, stageLength)[i] == EndTimes(latestTime, count, stageLength)[i] + delay
  {
  }
}
