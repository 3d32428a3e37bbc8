/** The pure part of the daily streak bookkeeping of context/AppContext.tsx:
    the milestone search, the day comparison and the resulting transition of a
    streak record, with the invariants the transition keeps.

    Days are day numbers: two timestamps fall on the same calendar day exactly
    when they have the same day number, and "yesterday" is `today - 1`. */
module StreakRules {
  import opened Wrappers
  import opened Types

  /** The milestone thresholds, in the order `find` scans them. */
  const Thresholds: seq<int> := [3, 7, 14, 30, 60, 90]

  /** `Math.max`. */
  function Max(a: int, b: int): (r: int)
    ensures r >= a && r >= b
    ensures r == a || r == b
  {
    if a >= b then a else b
  }

  /** The condition of the `find` callback: a threshold that a streak of length
      `streak` has reached and that is not yet recorded. */
  predicate Eligible(t: int, taken: seq<int>, streak: int) {
    t !in taken && t <= streak
  }

  /** `candidates.find(m => !taken.includes(m) && streak >= m)`: the first eligible candidate. */
  function FirstEligible(candidates: seq<int>, taken: seq<int>, streak: int): (r: Option<int>)
    ensures r.None? <==> forall i :: 0 <= i < |candidates| ==> !Eligible(candidates[i], taken, streak)
    ensures r.Some? ==> exists k :: 0 <= k < |candidates| && candidates[k] == r.value
                          && Eligible(candidates[k], taken, streak)
                          && forall j :: 0 <= j < k ==> !Eligible(candidates[j], taken, streak)
    decreases |candidates|
  {
    if candidates == [] then None
    else if Eligible(candidates[0], taken, streak) then Some(candidates[0])
    else
      var r := FirstEligible(candidates[1..], taken, streak);
      assert forall i :: 1 <= i < |candidates| ==> candidates[i] == candidates[1..][i - 1];
      if r.Some? then
        var k :| 0 <= k < |candidates[1..]| && candidates[1..][k] == r.value
                 && Eligible(candidates[1..][k], taken, streak)
                 && forall j :: 0 <= j < k ==> !Eligible(candidates[1..][j], taken, streak);
        assert candidates[k + 1] == r.value;
        assert forall j :: 0 <= j < k + 1 ==> !Eligible(candidates[j], taken, streak) by {
          forall j | 0 <= j < k + 1 ensures !Eligible(candidates[j], taken, streak) {
            if j > 0 { assert candidates[j] == candidates[1..][j - 1]; }
          }
        }
        r
      else
        r
  }

  /** The milestone recorded by an increment to `streak`, if any (AppContext.tsx:114-117). */
  function NextMilestone(taken: seq<int>, streak: int): (r: Option<int>)
    ensures r.Some? ==> r.value in Thresholds && r.value !in taken && r.value <= streak
    ensures r.None? <==> forall t :: t in Thresholds && t <= streak ==> t in taken
    ensures r.Some? ==> forall t :: t in Thresholds && t < r.value && t <= streak ==> t in taken
  {
    FirstEligible(Thresholds, taken, streak)
  }

  /** The effect of `checkAndUpdateStreak` on the streak record when it runs on day `today`:
      first activity ever, same day (nothing happens), the day after (increment), or
      any other gap (reset). */
  function Advance(s: StreakData, today: int): (r: StreakData)
    ensures r.lastActiveDate == Some(today)
    ensures r.longestStreak >= s.longestStreak
    ensures s.milestones <= r.milestones && |r.milestones| <= |s.milestones| + 1
    ensures forall i :: |s.milestones| <= i < |r.milestones| ==>
              r.milestones[i] in Thresholds && r.milestones[i] !in s.milestones && r.milestones[i] <= r.currentStreak
    ensures r == s || r.history == [HistoryEntry(today, true)] + (if s.lastActiveDate.None? then [] else s.history)
  {
    match s.lastActiveDate
    case None =>
      s.(currentStreak := 1, lastActiveDate := Some(today), history := [HistoryEntry(today, true)])
    case Some(last) =>
      if last == today then
        s
      else if last == today - 1 then
        var newStreak := s.currentStreak + 1;
        var newMilestone := NextMilestone(s.milestones, newStreak);
        s.(currentStreak := newStreak,
           longestStreak := Max(newStreak, s.longestStreak),
           lastActiveDate := Some(today),
           milestones := if newMilestone.Some? then s.milestones + [newMilestone.value] else s.milestones,
           history := [HistoryEntry(today, true)] + s.history)
      else
        s.(currentStreak := 1, lastActiveDate := Some(today), history := [HistoryEntry(today, true)] + s.history)
  }

  // ---- The four branches -------------------------------------------------

  /** First activity ever: the streak starts at 1 and the history is replaced,
      while the longest streak and the milestones are left as they were. */
  lemma FirstActivity(s: StreakData, today: int)
    requires s.lastActiveDate.None?
    ensures var r := Advance(s, today);
      && r.currentStreak == 1
      && r.lastActiveDate == Some(today)
      && r.history == [HistoryEntry(today, true)]
      && r.longestStreak == s.longestStreak
      && r.milestones == s.milestones
  {
  }

  /** A second activity on the last active day changes nothing. */
  lemma SameDayIsNoOp(s: StreakData, today: int)
    requires s.lastActiveDate == Some(today)
    ensures Advance(s, today) == s
  {
  }

  /** Calling twice on one day is calling once. */
  lemma AdvanceIdempotent(s: StreakData, today: int)
    ensures Advance(Advance(s, today), today) == Advance(s, today)
  {
  }

  /** Activity on the day after the last active day extends the streak by one
      and records at most one milestone: the first threshold, in the order
      3, 7, 14, 30, 60, 90, that is reached and not yet recorded. */
  lemma NextDayIncrements(s: StreakData, today: int)
    requires s.lastActiveDate == Some(today - 1)
    ensures var r := Advance(s, today);
      && r.currentStreak == s.currentStreak + 1
      && r.longestStreak == Max(s.currentStreak + 1, s.longestStreak)
      && r.lastActiveDate == Some(today)
      && r.history == [HistoryEntry(today, true)] + s.history
      && (r.milestones == s.milestones <==>
            forall t :: t in Thresholds && t <= s.currentStreak + 1 ==> t in s.milestones)
      && (r.milestones != s.milestones ==>
            exists k :: 0 <= k < |Thresholds| && r.milestones == s.milestones + [Thresholds[k]]
              && Eligible(Thresholds[k], s.milestones, s.currentStreak + 1)
              && forall j :: 0 <= j < k ==> !Eligible(Thresholds[j], s.milestones, s.currentStreak + 1))
  {
  }

  /** Any other gap (two or more days, or a day before the last active one)
      restarts the streak at 1 and keeps the longest streak and the milestones. */
  lemma GapResets(s: StreakData, today: int)
    requires s.lastActiveDate.Some?
    requires s.lastActiveDate.value != today && s.lastActiveDate.value != today - 1
    ensures var r := Advance(s, today);
      && r.currentStreak == 1
      && r.lastActiveDate == Some(today)
      && r.history == [HistoryEntry(today, true)] + s.history
      && r.longestStreak == s.longestStreak
      && r.milestones == s.milestones
  {
  }

  // ---- Invariants ---------------------------------------------------------

  ghost predicate NoDuplicates(xs: seq<int>) {
    forall i, j :: 0 <= i < j < |xs| ==> xs[i] != xs[j]
  }

  /** Recording a milestone never introduces a duplicate. */
  lemma AdvanceKeepsMilestonesDistinct(s: StreakData, today: int)
    requires NoDuplicates(s.milestones)
    ensures NoDuplicates(Advance(s, today).milestones)
  {
    var r := Advance(s, today);
    forall i, j | 0 <= i < j < |r.milestones| ensures r.milestones[i] != r.milestones[j] {
      if j >= |s.milestones| {
        assert r.milestones[i] == s.milestones[i];
      }
    }
  }

  /** The record is consistent: the current streak is within the longest one,
      milestones are distinct thresholds within the longest streak, and every
      threshold the current streak has reached is recorded. */
  ghost predicate Consistent(s: StreakData) {
    && 0 <= s.currentStreak <= s.longestStreak
    && 1 <= s.longestStreak
    && NoDuplicates(s.milestones)
    && (forall i :: 0 <= i < |s.milestones| ==> s.milestones[i] in Thresholds && s.milestones[i] <= s.longestStreak)
    && (forall t :: t in Thresholds && t <= s.currentStreak ==> t in s.milestones)
  }

  /** When every reached threshold is recorded, an increment records exactly the
      threshold equal to the new streak, if there is one and it was not recorded
      during an earlier, longer streak: recording at most one milestone per call
      never misses one. */
  lemma NextDayMilestoneIsExact(s: StreakData, today: int)
    requires Consistent(s)
    requires s.lastActiveDate == Some(today - 1)
    ensures Advance(s, today).milestones ==
      s.milestones + (if s.currentStreak + 1 in Thresholds && s.currentStreak + 1 !in s.milestones
                      then [s.currentStreak + 1] else [])
  {
    var n := s.currentStreak + 1;
    var m := NextMilestone(s.milestones, n);
    assert Advance(s, today).milestones == if m.Some? then s.milestones + [m.value] else s.milestones;
    if m.Some? {
      assert m.value !in s.milestones;
      assert m.value == n;
    }
    if n in Thresholds && n !in s.milestones {
      assert m.Some?;
    }
  }

  /** Every branch keeps a consistent record consistent. */
  lemma AdvanceKeepsConsistent(s: StreakData, today: int)
    requires Consistent(s)
    ensures Consistent(Advance(s, today))
  {
    var r := Advance(s, today);
    AdvanceKeepsMilestonesDistinct(s, today);
    if s.lastActiveDate == Some(today - 1) && s.lastActiveDate != Some(today) {
      NextDayMilestoneIsExact(s, today);
      forall i | 0 <= i < |r.milestones|
        ensures r.milestones[i] in Thresholds && r.milestones[i] <= r.longestStreak
      {
        if i < |s.milestones| { assert r.milestones[i] == s.milestones[i]; }
      }
    } else if s.lastActiveDate != Some(today) {
      assert r.milestones == s.milestones;
      assert r.currentStreak == 1;
    }
  }

  /** The history runs most recent first, one entry per day, none after the last active day. */
  ghost predicate Chronological(s: StreakData) {
    && (forall i, j :: 0 <= i < j < |s.history| ==> s.history[i].day > s.history[j].day)
    && (s.lastActiveDate.Some? ==>
          forall i :: 0 <= i < |s.history| ==> s.history[i].day <= s.lastActiveDate.value)
  }

  /** As long as the clock does not go backwards, the history stays ordered with one entry per day. */
  lemma AdvanceKeepsChronological(s: StreakData, today: int)
    requires Chronological(s)
    requires s.lastActiveDate.Some? ==> s.lastActiveDate.value <= today
    ensures Chronological(Advance(s, today))
  {
    var r := Advance(s, today);
    if r != s && s.lastActiveDate.Some? {
      assert r.history == [HistoryEntry(today, true)] + s.history;
      forall i, j | 0 <= i < j < |r.history| ensures r.history[i].day > r.history[j].day {
        assert r.history[j] == s.history[j - 1];
        if i > 0 { assert r.history[i] == s.history[i - 1]; }
      }
    }
  }

  /** When the clock goes backwards the reset branch logs a day twice. */
  lemma ClockBackwardsRepeatsDay()
    ensures var s := StreakData(1, 1, Some(10), [], [HistoryEntry(10, true), HistoryEntry(9, true)]);
      Advance(s, 9).history == [HistoryEntry(9, true), HistoryEntry(10, true), HistoryEntry(9, true)]
  {
  }

  // ---- Sequences of activities -------------------------------------------

  /** The record after an activity on each of `days`, in order. */
  function AdvanceAll(s: StreakData, days: seq<int>): (r: StreakData)
    ensures days != [] ==> r.lastActiveDate == Some(days[|days| - 1])
    ensures days == [] ==> r == s
    decreases |days|
  {
    if days == [] then s else AdvanceAll(Advance(s, days[0]), days[1..])
  }

  /** Over any run of activities the longest streak never decreases, no
      milestone is removed, and a set last active day is never cleared. */
  lemma {:induction false} AdvanceAllMonotone(s: StreakData, days: seq<int>)
    ensures AdvanceAll(s, days).longestStreak >= s.longestStreak
    ensures s.milestones <= AdvanceAll(s, days).milestones
    ensures s.lastActiveDate.Some? ==> AdvanceAll(s, days).lastActiveDate.Some?
    decreases |days|
  {
    if days != [] {
      AdvanceAllMonotone(Advance(s, days[0]), days[1..]);
    }
  }

  /** Over any run of activities a consistent record stays consistent. */
  lemma {:induction false} AdvanceAllKeepsConsistent(s: StreakData, days: seq<int>)
    requires Consistent(s)
    ensures Consistent(AdvanceAll(s, days))
    decreases |days|
  {
    if days != [] {
      AdvanceKeepsConsistent(s, days[0]);
      AdvanceAllKeepsConsistent(Advance(s, days[0]), days[1..]);
    }
  }

  // ---- Initial records ---------------------------------------------------

  /** The streak record of the default context (AppContext.tsx:24-30). */
  function DefaultStreak(): (s: StreakData)
    ensures s.currentStreak == 0 && s.longestStreak == 0
    ensures s.lastActiveDate.None? && s.milestones == [] && s.history == []
  {
    StreakData(0, 0, None, [], [])
  }

  /** The record the provider starts with on day `today` (AppContext.tsx:47-57):
      a five-day streak ending today. */
  function SeedStreak(today: int): (r: StreakData)
    ensures r.currentStreak == 5 && r.longestStreak == 12 && r.milestones == [3, 7]
    ensures r.lastActiveDate == Some(today)
    ensures |r.history| == 5
    ensures forall i :: 0 <= i < 5 ==> r.history[i] == HistoryEntry(today - i, true)
  {
    StreakData(5, 12, Some(today), [3, 7],
      [HistoryEntry(today, true), HistoryEntry(today - 1, true), HistoryEntry(today - 2, true),
       HistoryEntry(today - 3, true), HistoryEntry(today - 4, true)])
  }

  /** The seed record satisfies both invariants. */
  lemma SeedIsSound(today: int)
    ensures Consistent(SeedStreak(today))
    ensures Chronological(SeedStreak(today))
  {
    var s := SeedStreak(today);
    assert forall t :: t in Thresholds && t <= 5 ==> t == 3;
  }

  /** Applied to the default record, the first-activity branch leaves the current
      streak above the longest one, so the transition alone does not keep
      `currentStreak <= longestStreak`. The provider never reaches that branch: it
      starts from the seed record, whose last active day is set, and no update
      clears it again (see `Consistent` and `AppContext.ActivityRun`). */
  lemma DefaultFirstActivityExceedsLongest(today: int)
    ensures Advance(DefaultStreak(), today).currentStreak == 1
    ensures Advance(DefaultStreak(), today).longestStreak == 0
  {
  }

  // ---- Worked examples ---------------------------------------------------

  /** A six-day streak with milestone 3 continued on the next day reaches 7 and records it. */
  lemma ConsecutiveDayExample(n: int, h: seq<HistoryEntry>)
    ensures var r := Advance(StreakData(6, 6, Some(n), [3], h), n + 1);
      r.currentStreak == 7 && r.longestStreak == 7 && r.milestones == [3, 7]
  {
    assert NextMilestone([3], 7) == Some(7) by {
      assert FirstEligible(Thresholds[2..], [3], 7) == None;
    }
  }

  /** A six-day streak resumed three days later restarts at 1. */
  lemma GapResetExample(n: int, h: seq<HistoryEntry>)
    ensures var r := Advance(StreakData(6, 9, Some(n), [3], h), n + 3);
      r.currentStreak == 1 && r.longestStreak == 9 && r.milestones == [3]
  {
  }

  /** A record whose milestones lag behind records only one of them per call:
      from a six-day streak with none recorded, day seven records 3, not 7. */
  lemma LaggingMilestonesOnePerCall(n: int)
    ensures Advance(StreakData(6, 6, Some(n), [], []), n + 1).milestones == [3]
  {
  }
}
