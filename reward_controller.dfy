/**
 The claim and status operations over an account's reward record and token
 balance. `Claim` says what one claim does to the pair; `ClaimDailyReward`
 performs it in place on the stored record and the account and is proved to
 agree with `Claim`; `GetDailyRewardStatus` is the read-only projection.
 */
module RewardController {
  import opened DailyReward

  datatype Option<T> = None | Some(value: T)

  /** The outcome of a claim: rejected because the day was already claimed,
      or the payout with the streak it was paid for. The code answers
      `{reward, streak, message}`; `isFirstClaim` stands for which of its two
      messages (first day, or day N) it sends. */
  datatype ClaimResult = AlreadyClaimed | Claimed(reward: int, streak: int, isFirstClaim: bool)

  /** An account's token balance with its reward record, which does not
      exist before the first claim. */
  datatype Ledger = Ledger(record: Option<Record>, tokens: int)

  /** The ledger after a claim and what the claim answered. */
  datatype ClaimStep = ClaimStep(after: Ledger, result: ClaimResult)

  /** What the status query reports. `history` is absent when there is no record. */
  datatype DailyStatus = DailyStatus(
    canClaim: bool,
    nextReward: int,
    streak: int,
    lastClaim: Option<int>,
    tokens: int,
    isFirstClaim: bool,
    history: Option<seq<Entry>>)

  /** The stored streak can be paid for (a record's streak is never below 1). */
  predicate StreakOk(l: Ledger)
  {
    l.record.Some? ==> l.record.value.currentStreak >= 1
  }

  /** The stored streak lies in the range the table covers. */
  predicate StreakInRange(l: Ledger)
  {
    l.record.Some? ==> 1 <= l.record.value.currentStreak <= MaxStreak
  }

  /** The value of a record reference, `None` for a missing record. */
  function ViewOf(r: DailyRewardRecord?): Option<Record>
    reads r
  {
    if r == null then None else Some(r.View())
  }

  /** One claim on day `today`. */
  function Claim(l: Ledger, today: int): (s: ClaimStep)
    requires StreakOk(l)
    // a claim is refused exactly when the record was stamped today, and then nothing changes
    ensures s.result.AlreadyClaimed? <==> l.record.Some? && today - l.record.value.lastVisitDate == 0
    ensures s.result.AlreadyClaimed? ==> s.after == l
    // the first claim creates the record with streak 1 and one entry, paying 100
    ensures l.record.None? ==>
      && s.result == Claimed(100, 1, true)
      && s.after == Ledger(Some(Record(today, 1, [Entry(today, 100, 1)])), l.tokens + 100)
    // a later claim advances the streak after exactly one day and restarts it after any other gap
    ensures l.record.Some? && s.result.Claimed? ==>
      var rec := l.record.value;
      && s.result.streak == (if today - rec.lastVisitDate == 1 then Min(rec.currentStreak + 1, MaxStreak) else 1)
      && !s.result.isFirstClaim
      && s.after.record == Some(Record(today, s.result.streak,
                                       rec.rewardsHistory + [Entry(today, s.result.reward, s.result.streak)]))
    // every payout is the table's amount for the new streak and is added to the balance
    ensures s.result.Claimed? ==>
      && 1 <= s.result.streak <= MaxStreak
      && s.result.reward == RewardAmount(s.result.streak)
      && s.after.tokens == l.tokens + s.result.reward
  {
    match l.record
    case None =>
      var reward := RewardAmount(1);
      ClaimStep(Ledger(Some(Record(today, 1, [Entry(today, reward, 1)])), l.tokens + reward),
                Claimed(reward, 1, true))
    case Some(rec) =>
      var diffDays := today - rec.lastVisitDate;
      if diffDays == 0 then
        ClaimStep(l, AlreadyClaimed)
      else
        var streak := if diffDays == 1 then Min(rec.currentStreak + 1, 7) else 1;
        var reward := RewardAmount(streak);
        ClaimStep(Ledger(Some(Record(today, streak, rec.rewardsHistory + [Entry(today, reward, streak)])),
                         l.tokens + reward),
                  Claimed(reward, streak, false))
  }

  /** The balance a claim is meant to raise. For a user this is the stored
      `tokens` field; the gamer record declares no such field (see README). */
  class Account {
    var tokens: int

    constructor (tokens: int)
      ensures this.tokens == tokens
    {
      this.tokens := tokens;
    }
  }

  /** Claims the daily reward on day `today` for `account`, whose stored
      record is `found` (null when the account never claimed). Returns the
      record as it now stands, created on the first claim. */
  method ClaimDailyReward(account: Account, found: DailyRewardRecord?, today: int)
    returns (dailyReward: DailyRewardRecord, result: ClaimResult)
    requires found != null ==> found.currentStreak >= 1
    modifies account, found
    ensures found != null ==> dailyReward == found
    ensures found == null ==> fresh(dailyReward)
    ensures ClaimStep(Ledger(Some(dailyReward.View()), account.tokens), result)
            == Claim(Ledger(old(ViewOf(found)), old(account.tokens)), today)
  {
    if found == null {
      dailyReward := new DailyRewardRecord(today);
      var rewardAmount := RewardAmount(dailyReward.currentStreak);
      dailyReward.rewardsHistory := dailyReward.rewardsHistory + [Entry(today, rewardAmount, 1)];
      account.tokens := account.tokens + rewardAmount;
      result := Claimed(rewardAmount, 1, true);
      assert dailyReward.View() == Record(today, 1, [Entry(today, rewardAmount, 1)]);
      return;
    }
    dailyReward := found;
    var diffDays := today - dailyReward.lastVisitDate;
    if diffDays == 0 {
      result := AlreadyClaimed;
      return;
    }
    if diffDays == 1 {
      dailyReward.currentStreak := Min(dailyReward.currentStreak + 1, 7);
    } else {
      dailyReward.currentStreak := 1;
    }
    dailyReward.lastVisitDate := today;
    var rewardAmount := RewardAmount(dailyReward.currentStreak);
    dailyReward.rewardsHistory := dailyReward.rewardsHistory + [Entry(today, rewardAmount, dailyReward.currentStreak)];
    account.tokens := account.tokens + rewardAmount;
    result := Claimed(rewardAmount, dailyReward.currentStreak, false);
  }

  /** How many history entries the status query shows. */
  const HistoryShown: nat := 7

  /** The last seven entries of a history, oldest first (all of it when shorter). */
  function LastRewards(h: seq<Entry>): (r: seq<Entry>)
    ensures |r| == Min(HistoryShown, |h|)
    ensures forall i :: 0 <= i < |r| ==> r[i] == h[|h| - |r| + i]
  {
    if |h| <= HistoryShown then h else h[|h| - HistoryShown..]
  }

  /** The status query on day `today`: whether a claim is open, what it would
      pay, and the stored streak, last claim day, balance and recent history. */
  function GetDailyRewardStatus(l: Ledger, today: int): (s: DailyStatus)
    requires StreakOk(l)
    ensures s.tokens == l.tokens
    ensures s.isFirstClaim <==> l.record.None?
    // without a record a first claim is open and pays 100
    ensures l.record.None? ==> s.canClaim && s.nextReward == 100 && s.streak == 0
                               && s.lastClaim.None? && s.history.None?
    // with a record: open once a later day has come; the stored streak, unincremented
    ensures l.record.Some? ==>
      var rec := l.record.value;
      && (s.canClaim <==> today - rec.lastVisitDate > 0)
      && s.streak == rec.currentStreak
      && s.lastClaim == Some(rec.lastVisitDate)
      && s.history == Some(LastRewards(rec.rewardsHistory))
    // from the day after the last claim on, the announced reward is what the claim pays
    ensures (l.record.None? || today - l.record.value.lastVisitDate >= 1) ==>
      Claim(l, today).result.Claimed? && s.nextReward == Claim(l, today).result.reward
    // on the day of the last claim or earlier, the announced reward is that of the stored streak
    ensures l.record.Some? && today - l.record.value.lastVisitDate <= 0 ==>
      s.nextReward == RewardAmount(l.record.value.currentStreak)
    ensures RewardAmounts[0] <= s.nextReward <= RewardAmounts[MaxStreak - 1]
  {
    match l.record
    case None =>
      DailyStatus(true, 100, 0, None, l.tokens, true, None)
    case Some(rec) =>
      var diffDays := today - rec.lastVisitDate;
      var nextStreak :=
        if diffDays == 1 then Min(rec.currentStreak + 1, 7)
        else if diffDays > 1 then 1 else rec.currentStreak;
      var nextReward := RewardAmounts[Min(nextStreak - 1, 6)];
      DailyStatus(diffDays > 0, nextReward, rec.currentStreak, Some(rec.lastVisitDate), l.tokens, false,
                  Some(LastRewards(rec.rewardsHistory)))
  }
}
