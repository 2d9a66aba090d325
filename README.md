# Stage calendar of the GDP token sale

The deployment script of the GDP crowdsale (`migrations/2_token_migration.js`)
computes the opening and closing times of every sale stage before it deploys
the crowdsale contract. Its helper `calculateStartEndTimes(latestTime, bonuses,
stageLength)` walks over the list of per-stage bonuses and, for each stage,
appends one opening time and one closing time to two parallel lists: the first
stage opens one second after the latest block time, every stage closes
`stageLength` seconds after it opens, and each next stage opens one second
after the previous one has closed. It returns the pair `[startTimes, endTimes]`.

This project models that helper in Dafny:

- `schedule.dfy`, module `Schedule`: the calendar described twice, once in
  closed form (stage `i` opens at `latestTime + 1 + i * (stageLength + 1)` and
  closes `stageLength` seconds later) and once as the step-by-step rule the
  script follows (`IsSchedule`), with the proof that the rule has exactly one
  solution of each length and that it is the closed form, plus ordering,
  non-overlap and coverage lemmas.
- `token_migration.dfy`, module `TokenMigration`: `CalculateStartEndTimes`,
  a method with two sequence accumulators and the same loop and branches as the
  script, proved to return the closed form and to obey the rule. Its two
  out-parameters are, in order, the two lists the script returns as a pair.

Times and the stage length are whole seconds, modelled as unbounded integers.
The bonuses are a sequence of integers of which only the length is used: the
method's result is stated as a function of `|bonuses|` alone.

## Model

| member | source | states |
|---|---|---|
| `TokenMigration.CalculateStartEndTimes` | migrations/2_token_migration.js:94-109 | Both returned lists have one entry per bonus (none for no bonuses); entry `i` opens at `latestTime + 1 + i * (stageLength + 1)` and closes `stageLength` seconds later; the pair obeys the stage rule; the bonus values play no part, only their number |
| `TokenMigration.DeploymentSchedule` | migrations/2_token_migration.js:58-68 | The deployment's call with the four bonuses 40, 30, 20 and 0 yields four back-to-back stages whose opening and closing times are listed explicitly |
| `Schedule.StageStartStep` | migrations/2_token_migration.js:87-88 | In the closed form, stage `i + 1` opens exactly one second after stage `i` closes |
| `Schedule.ClosedFormIsSchedule` | migrations/2_token_migration.js:98-106 | The closed form satisfies the stage rule: equal lengths, first stage opens at `latestTime + 1`, each stage closes `stageLength` after it opens, each later stage opens one second after the previous one closes |
| `Schedule.ScheduleAt` | migrations/2_token_migration.js:99-104 | Any pair of lists obeying the stage rule has, at every index, the closed-form opening and closing time (by induction on the index) |
| `Schedule.ScheduleIsClosedForm` | migrations/2_token_migration.js:98-106 | A pair of lists obeys the stage rule if and only if it equals the closed form of its length: the rule determines the calendar uniquely |
| `Schedule.StartsIncreasingIff` | migrations/2_token_migration.js:99-104 | With at least two stages, opening times strictly increase if and only if `stageLength >= 0` |
| `Schedule.StagesDisjoint` | migrations/2_token_migration.js:99-104 | With `stageLength >= 0`, every stage closes before any later stage opens, every stage opens after `latestTime`, and no stage closes before it opens |
| `Schedule.SaleSpan` | migrations/2_token_migration.js:98-106 | The last of `count` stages closes exactly `count * (stageLength + 1)` seconds after `latestTime` |
| `Schedule.StageIndexAt` | migrations/2_token_migration.js:87-88 | For `stageLength >= 0`, any second after `latestTime` falls within the opening and closing second of the stage this function names |
| `Schedule.EverySecondInOneStage` | migrations/2_token_migration.js:87-106 | With `stageLength >= 0`, a second lies in some stage if and only if it is after `latestTime` and not after the last stage's close, and it never lies in two stages: the stages leave no gap and never overlap |
| `Schedule.DelayedSchedule` | test/gdp_crowdsale.js:160-168 | Moving the first opening to `latestTime + delay + 1`, as the test's inline copy of the loop does with a two-day delay, shifts every opening and closing time by exactly `delay` |

## Left out

- The deployer exported at `migrations/2_token_migration.js:56-85`: it reads the latest block from the chain, deploys the crowdsale contract and calls its token creation. Chain access and contract deployment are foreign calls; only its call of the stage calculation with its constants is modelled (`DeploymentSchedule`, with the stage length a parameter because the `increaseTime` helper that defines `days(2)` is not part of this model).
- The commented-out asynchronous deployer at `migrations/2_token_migration.js:5-46`: it is dead code.
- JavaScript number semantics: the script's values are IEEE doubles, exact only up to 2^53, and `+` concatenates when an argument is a string. The model uses unbounded integers and assumes numeric arguments; block times and stage lengths are far below 2^53.
- The crowdsale contracts themselves (pricing, caps, pausing, refund vault, token): their source is not part of this model; the tests only exercise them against a running chain.
