/**
 The stage-time calculation of the token sale's deployment script: from the
 time of the latest block, the list of per-stage bonuses and a stage length,
 it builds the opening and closing times of every stage of the sale.
 */
module TokenMigration {
  import opened Schedule

  /**
   Builds the two parallel lists `startTimes` and `endTimes`, one entry per
   bonus, by appending to both inside a loop: the first stage opens at
   `latestTime + 1`, each later one opens one second after the previous
   stage's recorded closing time, and each closes `stageLength` seconds after
   it opens. Only the number of bonuses matters, never their values.
   */
  method CalculateStartEndTimes(latestTime: int, bonuses: seq<int>, stageLength: int)
    returns (startTimes: seq<int>, endTimes: seq<int>)
    ensures startTimes == StartTimes(latestTime, |bonuses|, stageLength)
    ensures endTimes == EndTimes(latestTime, |bonuses|, stageLength)
    ensures IsSchedule(latestTime, stageLength, startTimes, endTimes)
  {
    startTimes := [];
    endTimes := [];
    for i := 0 to |bonuses|
      invariant startTimes == StartTimes(latestTime, i, stageLength)
      invariant endTimes == EndTimes(latestTime, i, stageLength)
    {
      if i == 0 {
        startTimes := startTimes + [latestTime + 1];
        endTimes := endTimes + [latestTime + 1 + stageLength];
      } else {
        StageStartStep(latestTime, stageLength, i - 1);
        startTimes := startTimes + [endTimes[i - 1] + 1];
        endTimes := endTimes + [startTimes[i] + stageLength];
      }
    }
    ClosedFormIsSchedule(latestTime, |bonuses|, stageLength);
  }

  /**
   The deployment's own call: four bonuses (40, 30, 20 and 0 percent) give
   four back-to-back stages of `stageLength` seconds each.
   */
  method DeploymentSchedule(timestamp: int, stageLength: int)
    returns (startTimes: seq<int>, endTimes: seq<int>)
    ensures startTimes == [timestamp + 1,
                           timestamp + 2 + stageLength,
                           timestamp + 3 + 2 * stageLength,
                           timestamp + 4 + 3 * stageLength]
    ensures endTimes == [timestamp + 1 + stageLength,
                         timestamp + 2 + 2 * stageLength,
                         timestamp + 3 + 3 * stageLength,
                         timestamp + 4 + 4 * stageLength]
  {
    startTimes, endTimes := CalculateStartEndTimes(timestamp, [40, 30, 20, 0], stageLength);
  }
}
