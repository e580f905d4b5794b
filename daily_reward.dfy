/**
 The per-account daily reward record and its payout table.

 Calendar days are integers (day numbers), so the difference of two days is a
 plain subtraction. A record is stored once per account; its history only ever
 grows.
 */
module DailyReward {

  /** One line of the rewards history: the day of the claim, the tokens paid
      and the streak day the payout was computed for. */
  datatype Entry = Entry(date: int, tokens: int, streakDay: int)

  /** The value held by a record at one moment. */
  datatype Record = Record(lastVisitDate: int, currentStreak: int, rewardsHistory: seq<Entry>)

  /** Tokens paid on streak days 1 to 7 (index 0 is day 1). */
  const RewardAmounts: seq<int> := [100, 200, 300, 500, 600, 800, 1000]

  /** The streak length from which on the payout no longer grows. */
  const MaxStreak: int := 7

  function Min(a: int, b: int): int
  {
    if a <= b then a else b
  }

  /** The payout for a streak: the table entry of that day, and the day-7
      entry for any longer streak. A streak below 1 has no entry. */
  function RewardAmount(streak: int): (r: int)
    requires streak >= 1
    ensures streak <= MaxStreak ==> r == RewardAmounts[streak - 1]
    ensures streak >= MaxStreak ==> r == RewardAmounts[MaxStreak - 1]
    ensures RewardAmounts[0] <= r <= RewardAmounts[MaxStreak - 1]
  {
    RewardAmounts[Min(streak - 1, 6)]
  }

  /** The seven payouts, day by day. */
  lemma RewardAmountTable()
    ensures RewardAmount(1) == 100 && RewardAmount(2) == 200 && RewardAmount(3) == 300
    ensures RewardAmount(4) == 500 && RewardAmount(5) == 600 && RewardAmount(6) == 800
    ensures RewardAmount(7) == 1000
  {
  }

  /** A longer streak never pays less. */
  lemma RewardAmountMonotone(s: int, t: int)
    requires 1 <= s <= t
    ensures RewardAmount(s) <= RewardAmount(t)
  {
  }

  /** Within the first week every further day pays strictly more. */
  lemma RewardAmountIncreasing(s: int, t: int)
    requires 1 <= s < t <= MaxStreak
    ensures RewardAmount(s) < RewardAmount(t)
  {
  }

  /** Beyond day 7 the payout stays at the day-7 value. */
  lemma RewardAmountCapped(streak: int)
    requires streak > MaxStreak
    ensures RewardAmount(streak) == RewardAmount(MaxStreak) == 1000
  {
  }

  /** The stored document of one account's daily rewards, updated in place. */
  class DailyRewardRecord {
    var lastVisitDate: int
    var currentStreak: int
    var rewardsHistory: seq<Entry>

    /** A new record for a first visit on day `lastVisitDate`: the streak takes
        its default of 1 and the history starts empty. */
    constructor (lastVisitDate: int)
      ensures this.lastVisitDate == lastVisitDate
      ensures currentStreak == 1 && rewardsHistory == []
    {
      this.lastVisitDate := lastVisitDate;
      currentStreak := 1;
      rewardsHistory := [];
    }

    /** The record's current value. */
    function View(): Record
      reads this
    {
      Record(lastVisitDate, currentStreak, rewardsHistory)
    }
  }
}
