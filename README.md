# Daily-streak reward engine

A model of the daily login reward of a gaming backend. Each account has at most
one reward record: the day of its last claim (`lastVisitDate`), the current
streak (`currentStreak`) and an append-only history of `{date, tokens,
streakDay}` entries. A claim is refused exactly when the last claim was on
that same day. Otherwise the streak advances (capped at 7) when exactly one
day has passed and restarts at 1 after any other gap, including a day before
the last claim. The claim pays the table amount for the new streak (100, 200,
300, 500, 600, 800, 1000 tokens), stamps the record, appends a history entry
and raises the account's token balance. When the days of the claims come in
calendar order, every day is paid at most once (`AtMostOneRewardPerDay`); a
day that comes back after a later claim is paid again. A read-only status
query reports whether a claim is open, what it would pay, the stored streak
and the last seven history entries.

Calendar days are integers, so `diffDays` is `today - lastVisitDate`. The
code derives `diffDays` from local-clock midnights instead; see "## Left out"
for what that changes at daylight-saving transitions.

Modules:

- `DailyReward` (`daily_reward.dfy`) holds the record. It has the `Entry` and
  `Record` values, the payout table `RewardAmounts` with `RewardAmount`, and the
  class `DailyRewardRecord`, whose fields are updated in place.
- `RewardController` (`reward_controller.dfy`) holds the claim and the status
  query.
  - `Claim` is the specification of one claim on a `Ledger` (an optional record
    plus a token balance).
  - `ClaimDailyReward` is the imperative claim. It works on a
    `DailyRewardRecord` object and an `Account` object, and its postcondition
    equates the new state and the answer with `Claim` applied to the old state.
  - `GetDailyRewardStatus` is the status query as a pure function.
- `RewardLemmas` (`reward_lemmas.dfy`) proves properties of sequences of
  claims (`ClaimAll`) and of how status and claim relate.

Where the code's comments and its behaviour differ, the model follows the code:

- Any gap other than exactly one day resets the streak, including a negative
  gap (a `today` before the stored day). The comment at
  controllers/rewardController.js:92 ("Missed a day or more - reset streak to
  1") speaks only of gaps greater than one; the plain `else` also catches a
  negative gap.
- On a negative gap the status reports `canClaim = false`, yet a claim pays 100
  with streak 1 (`StatusAndClaimDisagreeBeforeLastClaim`). For gaps of zero or
  more the two agree (`StatusCanClaimAgreesWithClaim`).
- The status query repeats the payout table inline
  (controllers/rewardController.js:189-190). `GetDailyRewardStatus` indexes the
  same `RewardAmounts` table in the same way.

## Model

| member | source | states |
|---|---|---|
| DailyReward.RewardAmount | models/DailyReward.js:43-46 | for streak 1..7 the payout is that day's table entry; from day 7 on it is the day-7 entry; every payout lies between 100 and 1000; defined only for streak >= 1 |
| DailyReward.RewardAmountTable | models/DailyReward.js:44-45 | streaks 1..7 pay exactly 100, 200, 300, 500, 600, 800, 1000 |
| DailyReward.RewardAmountMonotone | models/DailyReward.js:44-45 | a longer streak (>= 1) never pays less |
| DailyReward.RewardAmountIncreasing | models/DailyReward.js:44-45 | within days 1..7 each later day pays strictly more |
| DailyReward.RewardAmountCapped | models/DailyReward.js:45 | a streak above 7 pays 1000, the day-7 value |
| DailyReward.DailyRewardRecord.constructor | models/DailyReward.js:14-35 | a new record is stamped with the given day, has the default streak 1 and an empty history |
| RewardController.Claim | controllers/rewardController.js:20-131 | refused exactly when the record was stamped today, and then the record and the balance are unchanged; a first claim creates the record `{today, 1, [{today, 100, 1}]}` and pays 100; otherwise the streak becomes min(old + 1, 7) after exactly one day and 1 after any other gap; a paid claim stamps today, appends exactly one entry `{today, reward, streak}` after the unchanged earlier ones, pays `RewardAmount(streak)` with the streak in [1, 7], and raises the balance by exactly that amount |
| RewardController.ClaimDailyReward | controllers/rewardController.js:10-131 | updates the found record in place, or creates a fresh one when none exists, and raises the account's balance; the resulting record, the balance and the answer are exactly what `Claim` gives for the old record and balance; nothing else is modified |
| RewardController.LastRewards | controllers/rewardController.js:202 | the last min(7, length) entries of the history, in their original order |
| RewardController.GetDailyRewardStatus | controllers/rewardController.js:136-205 | reports the balance unchanged. With no record: `canClaim`, `nextReward = 100`, `streak = 0`, `isFirstClaim`, and no last claim or history. With a record: `canClaim` iff `diffDays > 0`, the stored streak unincremented, `nextReward` the payout of that stored streak when `diffDays <= 0`, the last claim day and the last 7 history entries. Whenever `diffDays >= 1` or there is no record, the claim pays and `nextReward` equals its reward. `nextReward` is always between 100 and 1000 |
| RewardLemmas.ClaimAllKeepsStreakInRange | controllers/rewardController.js:26-94 | starting from a streak in [1, 7] (or no record), the streak stays in [1, 7] after any sequence of claims on any days |
| RewardLemmas.ClaimKeepsConsistent | controllers/rewardController.js:26-107 | one claim keeps the record invariant: streak in [1, 7], a non-empty history whose last entry is `{lastVisitDate, RewardAmount(streak), streak}`, and every entry paying the table amount for its streak day |
| RewardLemmas.ClaimAllKeepsConsistent | controllers/rewardController.js:26-107 | the record invariant holds after any sequence of claims |
| RewardLemmas.ClaimPaysWhatItRecords | controllers/rewardController.js:97-118 | one claim raises the balance by exactly the tokens its history gains |
| RewardLemmas.ClaimAllPaysWhatItRecords | controllers/rewardController.js:97-118 | over any sequence of claims, balance minus recorded tokens is unchanged |
| RewardLemmas.BalanceIsStartPlusHistory | controllers/rewardController.js:26-118 | from no record, the balance after any claims is the starting balance plus the tokens of all history entries |
| RewardLemmas.ClaimAllOnlyAppends | controllers/rewardController.js:103-107 | the history before any sequence of claims is a prefix of the history after them |
| RewardLemmas.ClaimKeepsDatesIncreasing | controllers/rewardController.js:80-107 | a claim on a day not before the last claim keeps the history's claim days strictly increasing, given the record invariant |
| RewardLemmas.ClaimAllKeepsDatesIncreasing | controllers/rewardController.js:80-107 | claims on days in calendar order, none before the last claim, keep the history's claim days strictly increasing |
| RewardLemmas.AtMostOneRewardPerDay | controllers/rewardController.js:26-107 | starting with no record and claiming on days in calendar order, no two history entries share a day |
| RewardLemmas.SecondClaimSameDayRefused | controllers/rewardController.js:80-85 | a second claim on the same day is refused and leaves record and balance as the first claim left them |
| RewardLemmas.StatusAfterClaim | controllers/rewardController.js:184-202 | right after a paid claim the status shows the claim closed, the new streak, that same reward as `nextReward`, today as the last claim, and the new entry as the latest history entry |
| RewardLemmas.StatusCanClaimAgreesWithClaim | controllers/rewardController.js:184-196 | when today is not before the last claim day, the status's `canClaim` holds iff a claim would pay |
| RewardLemmas.StatusAndClaimDisagreeBeforeLastClaim | controllers/rewardController.js:88-94 | on a day before the last claim the status says `canClaim = false`, while the claim pays 100 with streak 1 |
| RewardLemmas.FirstWeekScenario | controllers/rewardController.js:26-131 | with no record, status offers 100 at streak 0. Then: claim pays 100 at streak 1; a second claim that day is refused with nothing changed; the next day pays 200 at streak 2; after skipping three days the claim pays 100 at streak 1; the balance has grown by 400. The method `ClaimObjectsScenario` calls `ClaimDailyReward` on `Account` and `DailyRewardRecord` objects for the first three steps and asserts the same answers, balances and record |

## Left out

- Persistence (`findOne`, `save`, `findByIdAndUpdate` with `$inc`) is not modelled. The stored record is an object passed to the claim, and the `$inc` is an in-place addition to `Account.tokens`.
- The order of the balance increment before `save`, and any failure between the two, are not modelled. The model has no persistence failures.
- The record's key fields (`userId`, `userModel`, `createdAt`) and the choice between the `User` and `Gamer` collections by role are not modelled. The model has one account with one record.
- Turning the clock into a calendar day is not modelled: `new Date`, midnight normalisation, local time zone and daylight saving, and `Math.floor(ms / 86400000)`. Day numbers are given as integers, so the model's `diffDays` is always the true count of calendar days.
- What that loses: the code floors the gap between two local midnights (controllers/rewardController.js:76-77). Across a spring-forward change those midnights are 23 hours apart, so a claim on the next calendar day gets `diffDays = 0` and is refused as already claimed. A claim two calendar days later then gets `diffDays = 1` and continues the streak despite the missed day. None of the model's statements about refusal or streaks cover this.
- HTTP response shaping and messages are not modelled. Only the values returned (`ClaimResult`, `DailyStatus`) are. The claim's answer in the code is `{reward, streak, message}`; `ClaimResult.isFirstClaim` stands for the choice between the "First day reward claimed!" message and the "Day N reward claimed!" message, and is not a field of the code's answer.
- ClaimDailyReward and GetDailyRewardStatus credit and report `Account.tokens` for every account, but the Gamer schema (models/Gamer.js) declares no `tokens` path. Under the library's default strict mode the claim's `$inc: {tokens: …}` on a gamer (controllers/rewardController.js:46-48, 111-113) changes nothing, while the history entry is still saved and success is answered, and the status's `gamer.tokens` (line 144) is undefined, so it reports no balance. The model's `Account.tokens` is the balance the claim is meant to raise; the lemmas about the balance (`ClaimPaysWhatItRecords`, `ClaimAllPaysWhatItRecords`, `BalanceIsStartPlusHistory`) hold for such a balance and not for a gamer as the code stands.
- A status request for an account that does not exist is not modelled. The token balance is a parameter of the status query.
- Concurrent claims on the same account are not modelled. Nothing in the code addresses them.
- Authentication, account registration, JWT handling, Express wiring and the Gamer schema are outside the reward engine and are not part of this model.
