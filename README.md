# UnScroll state logic in Dafny

UnScroll is a React Native "digital wellness" app: focus timers, mood
check-ins, a daily activity streak and a profile. Almost all of it is
rendering. This project models the few pieces that change state:

- the daily streak bookkeeping of the application context
  (`checkAndUpdateStreak`, `completeActivity`) and the context's other
  state updates (`updateUser`, `updateStreak`, `addFocusSession`,
  `toggleDarkMode`, `logout`);
- the mood check-in screen: replacing today's entry in the mood history,
  the per-mood counts and the recent-entries list;
- the sign-in screen's validation and the profile update it performs.

Modules:

- `Wrappers` (`wrappers.dfy`): `Option`, standing for `null` and for a key
  absent from a partial record.
- `Types` (`types.dfy`): the records of `types/index.ts`, their partial
  versions, and the object-spread merges `{ ...prev, ...data }`.
- `StreakRules` (`streak_rules.dfy`): the milestone search and `Advance`,
  the effect of one `checkAndUpdateStreak` call on the streak record. It
  also holds the invariants that `Advance` keeps and the lemmas about its
  branches and about runs of calls.
- `AppContext` (`app_context.dfy`): the class `AppProvider` with the
  provider's state as fields. `CheckAndUpdateStreak` and `CompleteActivity`
  are proved against `Advance`, and `UpdateUser` and `UpdateStreak` against
  `MergeUser` and `MergeStreak`. `AddFocusSession`, `ToggleDarkMode` and
  `Logout` state their new state directly.
- `MoodCheck` (`mood_check.dfy`): the same-day upsert, the counts and the
  recent entries as functions over sequences, and the screen
  `MoodCheckScreen` as a class.
- `SignIn` (`sign_in.dfy`): the screen `SignInScreen`. Its `HandleSignIn`
  updates an `AppProvider`.

Dates. In the streak code a timestamp only matters at day granularity
(`setHours(0, 0, 0, 0)`), so a date is an `int` day number. "Already active
today" becomes `last == today` and "active yesterday" becomes
`last == today - 1`. The first-activity branch stores the current time,
while the other branches store midnight. Both are the same day number.
Mood dates are opaque strings, as produced by `toLocaleDateString()`.

Three behaviours of the code that a reader of the streak record might not
expect, each modelled as written:

- The first-activity branch (`context/AppContext.tsx:83-91`) is dead code
  in the program as written. The provider starts from the seed record,
  whose `lastActiveDate` is set. Only `checkAndUpdateStreak` calls
  `updateStreak`, and none of its updates sets `lastActiveDate` back to
  `null`. The default context's `checkAndUpdateStreak` does nothing. So
  `currentStreak <= longestStreak` holds in every state the program
  reaches (`AppContext.ActivityRun`). Applied to a record the program
  never gives it, the transition can break that relation: on the all-zero
  default record the branch sets `currentStreak` to 1 and leaves
  `longestStreak` at 0 (`StreakRules.DefaultFirstActivityExceedsLongest`).
  The invariant `StreakRules.Consistent` therefore also asks for
  `longestStreak >= 1`. The seed record satisfies it
  (`StreakRules.SeedIsSound`), and every call keeps it.
- History entries are not always unique per date. The reset
  branch prepends today's entry whatever the old history holds, so when
  the clock goes backwards a day is logged twice
  (`StreakRules.ClockBackwardsRepeatsDay`). Uniqueness and order are proved
  only for non-decreasing days (`StreakRules.AdvanceKeepsChronological`).
- A milestone reached in an earlier, longer streak is not recorded again
  when a later streak reaches it, because `find` skips thresholds already
  present (`StreakRules.NextDayMilestoneIsExact`).

## Model

| member | source | states |
|---|---|---|
| `Types.MergeUser` | context/AppContext.tsx:62-64 | a field present in the partial profile replaces the old value; every absent field keeps its old value |
| `Types.MergeStreak` | context/AppContext.tsx:67-69 | a field present in the partial streak record replaces the old value; every absent field keeps its old value |
| `Types.MergeUserEmpty` | context/AppContext.tsx:62-64 | an update with no fields leaves the profile unchanged |
| `Types.MergeUserTwice` | context/AppContext.tsx:62-64 | two successive updates equal one update with the later patch laid over the earlier one |
| `StreakRules.Max` | context/AppContext.tsx:111 | `Math.max`: the result is at least each argument and equals one of them |
| `StreakRules.FirstEligible` | context/AppContext.tsx:115-117 | with `Eligible` defining the callback's condition (not yet recorded and reached by the new streak), `find` returns nothing exactly when no candidate is eligible; otherwise it returns an eligible candidate, and every candidate before it is not eligible |
| `StreakRules.NextMilestone` | context/AppContext.tsx:114-117 | a found milestone is a threshold of 3, 7, 14, 30, 60, 90 that is not yet recorded and is at most the new streak; every smaller reached threshold is already recorded; nothing is found exactly when every reached threshold is recorded |
| `StreakRules.Advance` | context/AppContext.tsx:82-146 | after any call the last active day is today; the longest streak does not decrease; the old milestones are kept as a prefix, with at most one new threshold at the end, which was unrecorded and within the new streak; the record is unchanged, or today's active entry is put in front of the old history (which the first activity discards) |
| `StreakRules.FirstActivity` | context/AppContext.tsx:83-91 | with no last active day: streak 1, last active today, history replaced by the single entry for today; longest streak and milestones untouched |
| `StreakRules.SameDayIsNoOp` | context/AppContext.tsx:103-106 | if the last active day is today, the record is unchanged |
| `StreakRules.AdvanceIdempotent` | context/AppContext.tsx:99-106 | a second call on the same day has no effect: calling twice equals calling once |
| `StreakRules.NextDayIncrements` | context/AppContext.tsx:109-134 | if the last active day is yesterday: streak + 1, longest = max(streak + 1, longest), today's entry prepended; milestones unchanged exactly when every reached threshold is recorded, otherwise the first eligible threshold is appended |
| `StreakRules.GapResets` | context/AppContext.tsx:137-145 | on any other gap, including a day before the last active one: streak 1, last active today, today's entry prepended, longest streak and milestones unchanged |
| `StreakRules.AdvanceKeepsMilestonesDistinct` | context/AppContext.tsx:114-121 | a duplicate-free milestone list stays duplicate-free |
| `StreakRules.NextDayMilestoneIsExact` | context/AppContext.tsx:110-121 | for a consistent record, an increment records exactly the threshold equal to the new streak when it is not already recorded, and nothing otherwise |
| `StreakRules.AdvanceKeepsConsistent` | context/AppContext.tsx:83-145 | every branch keeps `0 <= current <= longest`, `longest >= 1`, distinct milestones that are thresholds within the longest streak, and every threshold reached by the current streak recorded |
| `StreakRules.AdvanceKeepsChronological` | context/AppContext.tsx:128-144 | with a clock that does not go backwards, the history stays strictly most-recent-first (one entry per day) and no entry is later than the last active day |
| `StreakRules.ClockBackwardsRepeatsDay` | context/AppContext.tsx:137-145 | with today before the last active day, the reset logs a day that is already in the history |
| `StreakRules.AdvanceAllMonotone` | context/AppContext.tsx:82-146 | over any sequence of calls the longest streak never decreases, no milestone is removed, and a set last active day stays set |
| `StreakRules.AdvanceAllKeepsConsistent` | context/AppContext.tsx:82-146 | over any sequence of calls a consistent record stays consistent |
| `StreakRules.DefaultStreak` | context/AppContext.tsx:24-30 | the default context's streak record: both streaks 0, no last active day, no milestones, empty history |
| `StreakRules.SeedStreak` | context/AppContext.tsx:47-57 | the seed record has current streak 5, longest streak 12, milestones [3, 7], last active day today, and a history of the five days from today back to today − 4 |
| `StreakRules.SeedIsSound` | context/AppContext.tsx:47-57 | the seed record (5, 12, today, [3, 7]) is consistent and chronological |
| `StreakRules.DefaultFirstActivityExceedsLongest` | context/AppContext.tsx:85-89 | the first-activity branch, which the provider never reaches, applied to the default record gives current streak 1 with longest streak 0 |
| `StreakRules.ConsecutiveDayExample` | context/AppContext.tsx:109-132 | a six-day streak with milestone 3, continued the next day, becomes streak 7, longest 7, milestones [3, 7] |
| `StreakRules.GapResetExample` | context/AppContext.tsx:137-145 | a six-day streak resumed three days later becomes streak 1; longest streak and milestones unchanged |
| `StreakRules.LaggingMilestonesOnePerCall` | context/AppContext.tsx:114-121 | when recorded milestones lag behind, one call records only the smallest missing one (3, not 7) |
| `AppContext.MockUser` | utils/mockData.ts:3-10 | the mock profile: id `user1`, username `mindful_user`, display name, email, avatar URL and join date as in the fixture |
| `AppContext.LoggedOutUser` | context/AppContext.tsx:165 | the mock profile with all six fields overwritten by the empty string |
| `AppContext.AppProvider.constructor` | context/AppContext.tsx:45-59 | the provider starts with the mock user, the seed streak record, no focus sessions and dark mode on |
| `AppContext.AppProvider.UpdateUser` | context/AppContext.tsx:62-64 | the profile becomes the merge of the old profile with the partial one |
| `AppContext.AppProvider.UpdateStreak` | context/AppContext.tsx:67-69 | the streak record becomes the merge of the old record with the partial one |
| `AppContext.AppProvider.AddFocusSession` | context/AppContext.tsx:72-74 | the session is appended at the end of the list |
| `AppContext.AppProvider.ToggleDarkMode` | context/AppContext.tsx:77-79 | dark mode is negated |
| `AppContext.AppProvider.CheckAndUpdateStreak` | context/AppContext.tsx:82-146 | the partial updates and early returns leave the streak record equal to `Advance` of the old record and today |
| `AppContext.AppProvider.CompleteActivity` | context/AppContext.tsx:149-161 | the streak record advances as above; only for kind `focus` a 25-minute focus session with id `focus-<millis>` is appended |
| `AppContext.AppProvider.Logout` | context/AppContext.tsx:164-169 | every profile field becomes empty and the focus sessions are cleared; streak record and theme are kept |
| `AppContext.ActivityRun` | context/AppContext.tsx:82-146 | a provider that sees activities on non-decreasing days ends with a consistent, chronological record whose longest streak is at least the seed's 12 |
| `MoodCheck.WithoutDate` | app/moodCheck.tsx:41 | the filtered list holds exactly the entries not dated today, and its length is the old length minus the number of entries dated today |
| `MoodCheck.WithoutDateAppend` | app/moodCheck.tsx:41 | filtering a concatenation is concatenating the filtered parts |
| `MoodCheck.KeptInOrder` | app/moodCheck.tsx:41 | two kept entries stay in their original relative order |
| `MoodCheck.Upsert` | app/moodCheck.tsx:41-42 | the new history starts with (today, mood), followed by the filtered old history in order; it has exactly one entry dated today, has length old − (entries dated today) + 1, and its other entries are exactly the old entries of other dates |
| `MoodCheck.UpsertTwice` | app/moodCheck.tsx:37-45 | checking in twice on one day equals checking in once with the later mood |
| `MoodCheck.UpsertKeepsDatesDistinct` | app/moodCheck.tsx:40-42 | a history with at most one entry per date keeps that property |
| `MoodCheck.MoodCounts` | app/moodCheck.tsx:48-54 | a mood has a key exactly when some entry records it, and its value is the number of such entries |
| `MoodCheck.ShownCount` | app/moodCheck.tsx:102 | the figure shown for a mood, with 0 for a missing key, is its number of entries |
| `MoodCheck.CountsSumToLength` | app/moodCheck.tsx:48-54 | the three shown counts add up to the history's length |
| `MoodCheck.RecentEntries` | app/moodCheck.tsx:119 | the recent list is the prefix of the history of length min(7, length) |
| `MoodCheck.RecentStartsWithCheckIn` | app/moodCheck.tsx:119 | after a check-in the first recent entry is today's |
| `MoodCheck.MoodCheckScreen.constructor` | app/moodCheck.tsx:19-28 | no mood is selected and the history is the stored one |
| `MoodCheck.MoodCheckScreen.Select` | app/moodCheck.tsx:76 | pressing a mood button selects that mood |
| `MoodCheck.MoodCheckScreen.HandleSubmit` | app/moodCheck.tsx:37-45 | with no selection nothing changes; otherwise the history becomes the upsert of the selected mood for today and the selection is cleared |
| `SignIn.SignInPatch` | app/signin.tsx:28 | the sign-in patch names username, display name and email only, all derived from the username |
| `SignIn.SignedInProfile` | app/signin.tsx:28 | after sign-in, username and display name are the username, the email is username + "@example.com", and id, avatar and join date are unchanged |
| `SignIn.SignInScreen.constructor` | app/signin.tsx:14-16 | username, password and error start empty |
| `SignIn.SignInScreen.SetUsername` | app/signin.tsx:66 | typing sets the username |
| `SignIn.SignInScreen.SetPassword` | app/signin.tsx:74 | typing sets the password |
| `SignIn.SignInScreen.HandleSignIn` | app/signin.tsx:22-38 | with an empty username or password the error is the fixed message and the profile is untouched; otherwise the profile is merged with the sign-in patch and the error is cleared |

## Left out

- Rendering, styles, layout and the presentation components (buttons, cards, text inputs, theme tables, `hooks/useTheme.ts`): nothing there changes state.
- Animations and timers: the badge pulse and the fade-out before navigating after sign-in (`app/signin.tsx:31-37`).
- Navigation (`router.replace`, `router.back`): calls into the router library.
- Reading and writing the mood history in `localStorage`, with its JSON encoding and swallowed errors (`app/moodCheck.tsx:23-35`). This is host I/O, so the screen starts from an already loaded history. Stored entries whose mood is not happy, neutral or sad are not modelled.
- The clock: `new Date()`, `Date.now()`, `toISOString`, `toLocaleDateString`, time zones and DST. Today's day number, the date string and the millisecond and ISO readings for a focus session are parameters.
- React's asynchronous state updates and stale closures: updates are modelled as immediate and sequential.
- The `friends` state of the provider: no operation changes it.
- `utils/mockData.ts` beyond the mock user: constant fixtures and `Math.random` data.
- `AppContext.AppProvider.CompleteActivity`: the session id is `"focus-"` followed by the decimal rendering of `Date.now()`, which is passed in already rendered.
