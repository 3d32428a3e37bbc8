/** The records of types/index.ts, and the object-spread merge `{ ...prev, ...data }`
    that context/AppContext.tsx uses to apply a `Partial<...>` of each of them. */
module Types {
  import opened Wrappers

  /** A user profile (types/index.ts:1-8). */
  datatype User = User(
    id: string,
    username: string,
    displayName: string,
    email: string,
    avatar: string,
    joinDate: string)

  /** `Partial<User>`: a field that is `None` is absent from the object literal. */
  datatype UserPatch = UserPatch(
    id: Option<string>,
    username: Option<string>,
    displayName: Option<string>,
    email: Option<string>,
    avatar: Option<string>,
    joinDate: Option<string>)

  /** One day of the streak history. The ISO timestamp of the source is kept
      only at day granularity: `day` is a day number. */
  datatype HistoryEntry = HistoryEntry(day: int, active: bool)

  /** The streak record (types/index.ts:19-25); `lastActiveDate` is `null` or a day. */
  datatype StreakData = StreakData(
    currentStreak: int,
    longestStreak: int,
    lastActiveDate: Option<int>,
    milestones: seq<int>,
    history: seq<HistoryEntry>)

  /** `Partial<StreakData>`. `lastActiveDate: Some(None)` sets it to `null`. */
  datatype StreakPatch = StreakPatch(
    currentStreak: Option<int>,
    longestStreak: Option<int>,
    lastActiveDate: Option<Option<int>>,
    milestones: Option<seq<int>>,
    history: Option<seq<HistoryEntry>>)

  datatype FocusKind = Focus | Breathing | Meditation

  /** A recorded focus session (types/index.ts:27-32); `duration` is in minutes. */
  datatype FocusSession = FocusSession(id: string, date: string, duration: int, kind: FocusKind)

  /** `{ ...prev, ...data }` on users: the fields present in `p` win, the rest are kept. */
  function MergeUser(u: User, p: UserPatch): (r: User)
    ensures p.id.None? ==> r.id == u.id
    ensures p.id.Some? ==> r.id == p.id.value
    ensures p.username.None? ==> r.username == u.username
    ensures p.username.Some? ==> r.username == p.username.value
    ensures p.displayName.None? ==> r.displayName == u.displayName
    ensures p.displayName.Some? ==> r.displayName == p.displayName.value
    ensures p.email.None? ==> r.email == u.email
    ensures p.email.Some? ==> r.email == p.email.value
    ensures p.avatar.None? ==> r.avatar == u.avatar
    ensures p.avatar.Some? ==> r.avatar == p.avatar.value
    ensures p.joinDate.None? ==> r.joinDate == u.joinDate
    ensures p.joinDate.Some? ==> r.joinDate == p.joinDate.value
  {
    User(
      p.id.GetOr(u.id),
      p.username.GetOr(u.username),
      p.displayName.GetOr(u.displayName),
      p.email.GetOr(u.email),
      p.avatar.GetOr(u.avatar),
      p.joinDate.GetOr(u.joinDate))
  }

  /** `{ ...prev, ...data }` on streak records. */
  function MergeStreak(s: StreakData, p: StreakPatch): (r: StreakData)
    ensures p.currentStreak.None? ==> r.currentStreak == s.currentStreak
    ensures p.currentStreak.Some? ==> r.currentStreak == p.currentStreak.value
    ensures p.longestStreak.None? ==> r.longestStreak == s.longestStreak
    ensures p.longestStreak.Some? ==> r.longestStreak == p.longestStreak.value
    ensures p.lastActiveDate.None? ==> r.lastActiveDate == s.lastActiveDate
    ensures p.lastActiveDate.Some? ==> r.lastActiveDate == p.lastActiveDate.value
    ensures p.milestones.None? ==> r.milestones == s.milestones
    ensures p.milestones.Some? ==> r.milestones == p.milestones.value
    ensures p.history.None? ==> r.history == s.history
    ensures p.history.Some? ==> r.history == p.history.value
  {
    StreakData(
      p.currentStreak.GetOr(s.currentStreak),
      p.longestStreak.GetOr(s.longestStreak),
      p.lastActiveDate.GetOr(s.lastActiveDate),
      p.milestones.GetOr(s.milestones),
      p.history.GetOr(s.history))
  }

  /** The empty patch changes nothing. */
  lemma MergeUserEmpty(u: User)
    ensures MergeUser(u, UserPatch(None, None, None, None, None, None)) == u
  {
  }

  /** Merging twice in a row is merging the later patch over the earlier one. */
  lemma MergeUserTwice(u: User, p: UserPatch, q: UserPatch)
    ensures MergeUser(MergeUser(u, p), q) == MergeUser(u, UserPatch(
      if q.id.Some? then q.id else p.id,
      if q.username.Some? then q.username else p.username,
      if q.displayName.Some? then q.displayName else p.displayName,
      if q.email.Some? then q.email else p.email,
      if q.avatar.Some? then q.avatar else p.avatar,
      if q.joinDate.Some? then q.joinDate else p.joinDate))
  {
  }
}
