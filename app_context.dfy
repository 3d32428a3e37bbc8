/** The application context provider of context/AppContext.tsx: the shared
    state (user, streak record, focus sessions, dark mode) and the operations
    that overwrite it. React state updates are modelled as immediate field
    assignments; the clock is passed in as parameters. */
module AppContext {
  import opened Wrappers
  import opened Types
  import opened StreakRules

  /** Length, in minutes, of the focus session that `completeActivity('focus')` records. */
  const FocusMinutes: int := 25

  /** The mock profile the provider starts with (utils/mockData.ts:3-10). */
  function MockUser(): (u: User)
    ensures u.id == "user1" && u.username == "mindful_user" && u.displayName == "Alex Parker"
    ensures u.email == "alex@example.com" && u.joinDate == "2024-05-01T00:00:00.000Z"
    ensures u.avatar == "https://images.pexels.com/photos/220453/pexels-photo-220453.jpeg?auto=compress&cs=tinysrgb&w=400"
  {
    User(
      "user1", "mindful_user", "Alex Parker", "alex@example.com",
      "https://images.pexels.com/photos/220453/pexels-photo-220453.jpeg?auto=compress&cs=tinysrgb&w=400",
      "2024-05-01T00:00:00.000Z")
  }

  /** The profile after logging out: the mock profile with every field
      overwritten by the empty string. */
  function LoggedOutUser(): (u: User)
    ensures u.id == "" && u.username == "" && u.displayName == ""
    ensures u.email == "" && u.avatar == "" && u.joinDate == ""
  {
    MergeUser(MockUser(), UserPatch(Some(""), Some(""), Some(""), Some(""), Some(""), Some("")))
  }

  class AppProvider {
    var user: User
    var streakData: StreakData
    var focusSessions: seq<FocusSession>
    var isDarkMode: bool

    /** The provider's initial state when the app starts on day `today`. */
    constructor (today: int)
      ensures user == MockUser()
      ensures streakData == SeedStreak(today)
      ensures focusSessions == []
      ensures isDarkMode
    {
      user := MockUser();
      streakData := SeedStreak(today);
      focusSessions := [];
      isDarkMode := true;
    }

    /** Overwrites the fields of the profile named in `data`. */
    method UpdateUser(data: UserPatch)
      modifies this`user
      ensures user == MergeUser(old(user), data)
    {
      user := MergeUser(user, data);
    }

    /** Overwrites the fields of the streak record named in `data`. */
    method UpdateStreak(data: StreakPatch)
      modifies this`streakData
      ensures streakData == MergeStreak(old(streakData), data)
    {
      streakData := MergeStreak(streakData, data);
    }

    /** Appends a session at the end of the list. */
    method AddFocusSession(session: FocusSession)
      modifies this`focusSessions
      ensures focusSessions == old(focusSessions) + [session]
    {
      focusSessions := focusSessions + [session];
    }

    method ToggleDarkMode()
      modifies this`isDarkMode
      ensures isDarkMode == !old(isDarkMode)
    {
      isDarkMode := !isDarkMode;
    }

    /** Records an activity on day `today` in the streak record, through
        partial updates and early returns. */
    method CheckAndUpdateStreak(today: int)
      modifies this`streakData
      ensures streakData == Advance(old(streakData), today)
    {
      if streakData.lastActiveDate.None? {
        // Never active before: the streak starts at 1
        UpdateStreak(StreakPatch(Some(1), None, Some(Some(today)), None, Some([HistoryEntry(today, true)])));
        return;
      }

      var lastActive := streakData.lastActiveDate.value;
      var yesterday := today - 1;

      if lastActive == today {
        return;
      }

      if lastActive == yesterday {
        var newStreak := streakData.currentStreak + 1;
        var newLongestStreak := Max(newStreak, streakData.longestStreak);
        var newMilestone := NextMilestone(streakData.milestones, newStreak);
        var newMilestones := if newMilestone.Some?
          then streakData.milestones + [newMilestone.value]
          else streakData.milestones;
        UpdateStreak(StreakPatch(
          Some(newStreak),
          Some(newLongestStreak),
          Some(Some(today)),
          Some(newMilestones),
          Some([HistoryEntry(today, true)] + streakData.history)));
        return;
      }

      // Any other gap, including a day before the last active one: reset
      UpdateStreak(StreakPatch(
        Some(1),
        None,
        Some(Some(today)),
        None,
        Some([HistoryEntry(today, true)] + streakData.history)));
    }

    /** Completes an activity of kind `kind` on day `today`. A focus activity also
        records a 25-minute session whose id and date come from the clock
        readings `nowMillis` (decimal) and `nowIso`. */
    method CompleteActivity(kind: string, today: int, nowMillis: string, nowIso: string)
      modifies this`streakData, this`focusSessions
      ensures streakData == Advance(old(streakData), today)
      ensures kind == "focus" ==>
        focusSessions == old(focusSessions) + [FocusSession("focus-" + nowMillis, nowIso, FocusMinutes, Focus)]
      ensures kind != "focus" ==> focusSessions == old(focusSessions)
    {
      CheckAndUpdateStreak(today);
      if kind == "focus" {
        AddFocusSession(FocusSession("focus-" + nowMillis, nowIso, FocusMinutes, Focus));
      }
    }

    /** Blanks the profile and forgets the focus sessions; the streak record
        and the theme are kept. */
    method Logout()
      modifies this`user, this`focusSessions
      ensures user == LoggedOutUser()
      ensures focusSessions == []
    {
      user := LoggedOutUser();
      focusSessions := [];
    }
  }

  /** A provider that starts on day `start` and sees activities on non-decreasing
      days keeps a consistent, chronological streak record. */
  method ActivityRun(start: int, days: seq<int>) returns (app: AppProvider)
    requires forall i :: 0 <= i < |days| ==> start <= days[i]
    requires forall i, j :: 0 <= i < j < |days| ==> days[i] <= days[j]
    ensures fresh(app)
    ensures app.streakData == AdvanceAll(SeedStreak(start), days)
    ensures Consistent(app.streakData) && Chronological(app.streakData)
    ensures app.streakData.longestStreak >= 12
  {
    app := new AppProvider(start);
    SeedIsSound(start);
    var i := 0;
    while i < |days|
      invariant 0 <= i <= |days|
      invariant AdvanceAll(SeedStreak(start), days) == AdvanceAll(app.streakData, days[i..])
      invariant Consistent(app.streakData) && Chronological(app.streakData)
      invariant app.streakData.longestStreak >= 12
      invariant app.streakData.lastActiveDate == Some(if i == 0 then start else days[i - 1])
    {
      AdvanceKeepsConsistent(app.streakData, days[i]);
      AdvanceKeepsChronological(app.streakData, days[i]);
      assert days[i..][1..] == days[i + 1..];
      app.CheckAndUpdateStreak(days[i]);
      i := i + 1;
    }
  }
}
