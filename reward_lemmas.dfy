/**
 Properties of the claim state machine over whole sequences of claims, and of
 how the status query relates to the claim it announces.
 */
module RewardLemmas {
  import opened DailyReward
  import opened RewardController

  /** Claims on the given days, one after another. */
  function ClaimAll(l: Ledger, days: seq<int>): Ledger
    requires StreakOk(l)
    decreases |days|
  {
    if days == [] then l else ClaimAll(Claim(l, days[0]).after, days[1..])
  }

  /** The stored history, empty before the first claim. */
  function HistoryOf(l: Ledger): seq<Entry>
  {
    if l.record.None? then [] else l.record.value.rewardsHistory
  }

  /** Total tokens recorded in a history. */
  function SumTokens(h: seq<Entry>): int
  {
    if h == [] then 0 else SumTokens(h[..|h| - 1]) + h[|h| - 1].tokens
  }

  /** Every entry carries a streak day the table covers and its payout. */
  predicate EntriesPaid(h: seq<Entry>)
  {
    forall i :: 0 <= i < |h| ==> 1 <= h[i].streakDay <= MaxStreak && h[i].tokens == RewardAmount(h[i].streakDay)
  }

  /** The invariant of a stored record: streak in range, a non-empty history
      whose last entry is the claim that stamped the record, and every entry
      paid by the table. */
  predicate Consistent(l: Ledger)
  {
    l.record.Some? ==>
      var rec := l.record.value;
      && 1 <= rec.currentStreak <= MaxStreak
      && |rec.rewardsHistory| > 0
      && rec.rewardsHistory[|rec.rewardsHistory| - 1]
         == Entry(rec.lastVisitDate, RewardAmount(rec.currentStreak), rec.currentStreak)
      && EntriesPaid(rec.rewardsHistory)
  }

  /** The streak stays within [1, 7] whatever the days of the claims are. */
  lemma {:induction false} ClaimAllKeepsStreakInRange(l: Ledger, days: seq<int>)
    requires StreakInRange(l)
    ensures StreakInRange(ClaimAll(l, days))
    decreases |days|
  {
    if days != [] {
      ClaimAllKeepsStreakInRange(Claim(l, days[0]).after, days[1..]);
    }
  }

  /** One claim keeps the record invariant. */
  lemma ClaimKeepsConsistent(l: Ledger, today: int)
    requires Consistent(l)
    ensures Consistent(Claim(l, today).after)
  {
  }

  /** Any sequence of claims keeps the record invariant. */
  lemma {:induction false} ClaimAllKeepsConsistent(l: Ledger, days: seq<int>)
    requires Consistent(l)
    ensures Consistent(ClaimAll(l, days))
    decreases |days|
  {
    if days != [] {
      ClaimKeepsConsistent(l, days[0]);
      ClaimAllKeepsConsistent(Claim(l, days[0]).after, days[1..]);
    }
  }

  /** One claim raises the balance by exactly the tokens it records. */
  lemma ClaimPaysWhatItRecords(l: Ledger, today: int)
    requires StreakOk(l)
    ensures Claim(l, today).after.tokens - SumTokens(HistoryOf(Claim(l, today).after))
            == l.tokens - SumTokens(HistoryOf(l))
  {
  }

  /** Over any sequence of claims the balance grows by exactly the tokens the
      history gains. */
  lemma {:induction false} ClaimAllPaysWhatItRecords(l: Ledger, days: seq<int>)
    requires StreakOk(l)
    ensures ClaimAll(l, days).tokens - SumTokens(HistoryOf(ClaimAll(l, days)))
            == l.tokens - SumTokens(HistoryOf(l))
    decreases |days|
  {
    if days != [] {
      ClaimPaysWhatItRecords(l, days[0]);
      ClaimAllPaysWhatItRecords(Claim(l, days[0]).after, days[1..]);
    }
  }

  /** Starting without a record, the balance is the starting balance plus the
      tokens of every entry in the history. */
  lemma BalanceIsStartPlusHistory(tokens: int, days: seq<int>)
    ensures ClaimAll(Ledger(None, tokens), days).tokens
            == tokens + SumTokens(HistoryOf(ClaimAll(Ledger(None, tokens), days)))
  {
    ClaimAllPaysWhatItRecords(Ledger(None, tokens), days);
  }

  /** Claims only append: the earlier history is a prefix of the later one. */
  lemma {:induction false} ClaimAllOnlyAppends(l: Ledger, days: seq<int>)
    requires StreakOk(l)
    ensures HistoryOf(l) <= HistoryOf(ClaimAll(l, days))
    decreases |days|
  {
    if days != [] {
      var next := Claim(l, days[0]).after;
      assert HistoryOf(l) <= HistoryOf(next);
      ClaimAllOnlyAppends(next, days[1..]);
    }
  }

  /** The history's claim days strictly increase: no day appears twice. */
  predicate DatesIncreasing(h: seq<Entry>)
  {
    forall i, j :: 0 <= i < j < |h| ==> h[i].date < h[j].date
  }

  /** The claim days come in calendar order (the same day may repeat). */
  predicate NonDecreasing(days: seq<int>)
  {
    forall i, j :: 0 <= i < j < |days| ==> days[i] <= days[j]
  }

  /** None of the days is before the record's last claim. */
  predicate NotBeforeLastClaim(l: Ledger, days: seq<int>)
  {
    l.record.Some? ==> forall i :: 0 <= i < |days| ==> days[i] >= l.record.value.lastVisitDate
  }

  /** A claim on a day not before the last claim keeps the claim days of the
      history strictly increasing. */
  lemma ClaimKeepsDatesIncreasing(l: Ledger, today: int)
    requires Consistent(l) && DatesIncreasing(HistoryOf(l))
    requires l.record.Some? ==> today >= l.record.value.lastVisitDate
    ensures DatesIncreasing(HistoryOf(Claim(l, today).after))
  {
    var s := Claim(l, today);
    if l.record.Some? && s.result.Claimed? {
      var h := HistoryOf(l);
      var h' := HistoryOf(s.after);
      assert h' == h + [Entry(today, s.result.reward, s.result.streak)];
      forall i, j | 0 <= i < j < |h'| ensures h'[i].date < h'[j].date {
        if j < |h| {
          assert h'[i] == h[i] && h'[j] == h[j];
        } else {
          assert h[|h| - 1].date == l.record.value.lastVisitDate;
          assert h'[i] == h[i] && h[i].date <= h[|h| - 1].date;
        }
      }
    }
  }

  /** Claims on days in calendar order, none before the last claim, keep the
      history's claim days strictly increasing. */
  lemma {:induction false} ClaimAllKeepsDatesIncreasing(l: Ledger, days: seq<int>)
    requires Consistent(l) && DatesIncreasing(HistoryOf(l))
    requires NonDecreasing(days) && NotBeforeLastClaim(l, days)
    ensures DatesIncreasing(HistoryOf(ClaimAll(l, days)))
    decreases |days|
  {
    if days != [] {
      var next := Claim(l, days[0]).after;
      ClaimKeepsConsistent(l, days[0]);
      ClaimKeepsDatesIncreasing(l, days[0]);
      assert next.record.Some? && next.record.value.lastVisitDate == days[0];
      assert NonDecreasing(days[1..]) by {
        forall i, j | 0 <= i < j < |days[1..]| ensures days[1..][i] <= days[1..][j] {
          assert days[1..][i] == days[i + 1] && days[1..][j] == days[j + 1];
        }
      }
      assert NotBeforeLastClaim(next, days[1..]) by {
        forall i | 0 <= i < |days[1..]| ensures days[1..][i] >= days[0] {
          assert days[1..][i] == days[i + 1];
        }
      }
      ClaimAllKeepsDatesIncreasing(next, days[1..]);
    }
  }

  /** Starting without a record and claiming in calendar order, every day is
      paid at most once: no two history entries share a day. */
  lemma AtMostOneRewardPerDay(tokens: int, days: seq<int>)
    requires NonDecreasing(days)
    ensures forall i, j :: 0 <= i < j < |HistoryOf(ClaimAll(Ledger(None, tokens), days))| ==>
      HistoryOf(ClaimAll(Ledger(None, tokens), days))[i].date != HistoryOf(ClaimAll(Ledger(None, tokens), days))[j].date
  {
    ClaimAllKeepsDatesIncreasing(Ledger(None, tokens), days);
  }

  /** A second claim on the same day is refused and changes nothing, whatever
      the first one did. */
  lemma SecondClaimSameDayRefused(l: Ledger, today: int)
    requires StreakOk(l)
    ensures Claim(Claim(l, today).after, today).result == AlreadyClaimed
    ensures Claim(Claim(l, today).after, today).after == Claim(l, today).after
  {
  }

  /** Right after a successful claim the status shows the claim closed, the
      new streak, the claim's day and the new entry as the latest one. */
  lemma StatusAfterClaim(l: Ledger, today: int)
    requires StreakOk(l)
    requires Claim(l, today).result.Claimed?
    ensures var s, st := Claim(l, today), GetDailyRewardStatus(Claim(l, today).after, today);
      && !st.canClaim
      && st.streak == s.result.streak
      && st.nextReward == s.result.reward
      && st.lastClaim == Some(today)
      && st.history.Some? && |st.history.value| > 0
      && st.history.value[|st.history.value| - 1] == Entry(today, s.result.reward, s.result.streak)
  {
  }

  /** Except on a day before the last claim, the status says a claim is open
      exactly when the claim pays. */
  lemma StatusCanClaimAgreesWithClaim(l: Ledger, today: int)
    requires StreakOk(l)
    requires l.record.Some? ==> today >= l.record.value.lastVisitDate
    ensures GetDailyRewardStatus(l, today).canClaim <==> Claim(l, today).result.Claimed?
  {
  }

  /** On a day before the last claim the two disagree: the status reports the
      claim closed, but the claim treats the gap as a broken streak and pays. */
  lemma StatusAndClaimDisagreeBeforeLastClaim(l: Ledger, today: int)
    requires StreakOk(l)
    requires l.record.Some? && today < l.record.value.lastVisitDate
    ensures !GetDailyRewardStatus(l, today).canClaim
    ensures Claim(l, today).result == Claimed(100, 1, false)
  {
  }

  /** The walk-through of a first week: status with no record, a first
      claim, a refused second claim the same day, a claim the next day, and a
      claim after skipping three days. */
  lemma FirstWeekScenario(d: int, tokens: int)
    ensures GetDailyRewardStatus(Ledger(None, tokens), d)
            == DailyStatus(true, 100, 0, None, tokens, true, None)
    ensures var s1 := Claim(Ledger(None, tokens), d);
      var s2 := Claim(s1.after, d);
      var s3 := Claim(s2.after, d + 1);
      var s4 := Claim(s3.after, d + 5);
      && s1.result == Claimed(100, 1, true)
      && s2.result == AlreadyClaimed && s2.after == s1.after
      && s3.result == Claimed(200, 2, false)
      && s4.result == Claimed(100, 1, false)
      && s4.after.tokens == tokens + 400
  {
  }

  /** The stored objects behave as `Claim` says: the same walk-through on
      objects, with the balance checked after each step. */
  method ClaimObjectsScenario(d: int)
  {
    var account := new Account(0);
    var rec, r := ClaimDailyReward(account, null, d);
    assert r == Claimed(100, 1, true) && account.tokens == 100;
    var rec2, r2 := ClaimDailyReward(account, rec, d);
    assert rec2 == rec && r2 == AlreadyClaimed && account.tokens == 100;
    var rec3, r3 := ClaimDailyReward(account, rec, d + 1);
    assert rec3 == rec && r3 == Claimed(200, 2, false) && account.tokens == 300;
    assert rec.currentStreak == 2 && rec.lastVisitDate == d + 1 && |rec.rewardsHistory| == 2;
  }
}
