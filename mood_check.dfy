/** The mood check-in screen of app/moodCheck.tsx: the selected mood, the
    history of check-ins (most recent first; one entry per date if it
    started that way), the
    per-mood counts and the list of recent entries. Dates are the opaque
    strings the locale formatter produces. */
module MoodCheck {
  import opened Wrappers

  datatype Mood = Happy | Neutral | Sad

  datatype MoodEntry = MoodEntry(date: string, mood: Mood)

  /** How many entries are dated `d`. */
  function CountDate(h: seq<MoodEntry>, d: string): (n: nat)
    ensures n <= |h|
    ensures n == 0 <==> forall i :: 0 <= i < |h| ==> h[i].date != d
  {
    if h == [] then 0 else (if h[0].date == d then 1 else 0) + CountDate(h[1..], d)
  }

  /** `history.filter(entry => entry.date !== d)`. */
  function WithoutDate(h: seq<MoodEntry>, d: string): (r: seq<MoodEntry>)
    ensures |r| == |h| - CountDate(h, d)
    ensures forall e :: e in r <==> e in h && e.date != d
  {
    if h == [] then []
    else if h[0].date == d then WithoutDate(h[1..], d)
    else [h[0]] + WithoutDate(h[1..], d)
  }

  /** Filtering distributes over concatenation, so the kept entries stay in
      their original relative order. */
  lemma {:induction false} WithoutDateAppend(a: seq<MoodEntry>, b: seq<MoodEntry>, d: string)
    ensures WithoutDate(a + b, d) == WithoutDate(a, d) + WithoutDate(b, d)
    decreases |a|
  {
    if a != [] {
      assert (a + b)[0] == a[0];
      assert (a + b)[1..] == a[1..] + b;
      WithoutDateAppend(a[1..], b, d);
      if a[0].date != d {
        calc {
          WithoutDate(a + b, d);
          [a[0]] + WithoutDate(a[1..] + b, d);
          [a[0]] + (WithoutDate(a[1..], d) + WithoutDate(b, d));
          ([a[0]] + WithoutDate(a[1..], d)) + WithoutDate(b, d);
        }
      }
    } else {
      assert a + b == b;
    }
  }

  /** Two kept entries appear in the filtered list in the order they had. */
  lemma KeptInOrder(h: seq<MoodEntry>, d: string, i: int, j: int)
    requires 0 <= i < j < |h|
    requires h[i].date != d && h[j].date != d
    ensures exists p, q :: 0 <= p < q < |WithoutDate(h, d)|
              && WithoutDate(h, d)[p] == h[i] && WithoutDate(h, d)[q] == h[j]
  {
    var a, b, c := h[..i], h[i + 1..j], h[j + 1..];
    assert h == a + ([h[i]] + (b + ([h[j]] + c)));
    WithoutDateAppend(a, [h[i]] + (b + ([h[j]] + c)), d);
    WithoutDateAppend([h[i]], b + ([h[j]] + c), d);
    WithoutDateAppend(b, [h[j]] + c, d);
    WithoutDateAppend([h[j]], c, d);
    assert WithoutDate([h[i]], d) == [h[i]];
    assert WithoutDate([h[j]], d) == [h[j]];
    var r := WithoutDate(h, d);
    var wa, wb := WithoutDate(a, d), WithoutDate(b, d);
    assert r == wa + ([h[i]] + (wb + ([h[j]] + WithoutDate(c, d))));
    assert r[|wa|] == h[i];
    assert r[|wa| + 1 + |wb|] == h[j];
  }

  /** Filtering a list with no entry dated `d` keeps it as it is. */
  lemma {:induction false} WithoutAbsentDate(h: seq<MoodEntry>, d: string)
    requires forall i :: 0 <= i < |h| ==> h[i].date != d
    ensures WithoutDate(h, d) == h
    decreases |h|
  {
    if h != [] {
      WithoutAbsentDate(h[1..], d);
    }
  }

  /** The history after checking in `mood` on `today`: every entry dated today
      is dropped and the new one is put first (moodCheck.tsx:41-42). */
  function Upsert(h: seq<MoodEntry>, today: string, mood: Mood): (r: seq<MoodEntry>)
    ensures |r| > 0 && r[0] == MoodEntry(today, mood)
    ensures r[1..] == WithoutDate(h, today)
    ensures CountDate(r, today) == 1
    ensures |r| == |h| - CountDate(h, today) + 1
    ensures forall e :: e in r[1..] <==> e in h && e.date != today
  {
    var r := [MoodEntry(today, mood)] + WithoutDate(h, today);
    assert r[1..] == WithoutDate(h, today);
    r
  }

  /** Checking in twice on one day keeps only the later mood. */
  lemma UpsertTwice(h: seq<MoodEntry>, today: string, first: Mood, second: Mood)
    ensures Upsert(Upsert(h, today, first), today, second) == Upsert(h, today, second)
  {
    var once := Upsert(h, today, first);
    assert once[1..] == WithoutDate(h, today);
    WithoutAbsentDate(WithoutDate(h, today), today);
  }

  ghost predicate DatesDistinct(h: seq<MoodEntry>) {
    forall i, j :: 0 <= i < j < |h| ==> h[i].date != h[j].date
  }

  /** Filtering keeps distinct dates distinct. */
  lemma {:induction false} WithoutDateKeepsDistinct(h: seq<MoodEntry>, d: string)
    requires DatesDistinct(h)
    ensures DatesDistinct(WithoutDate(h, d))
    decreases |h|
  {
    if h != [] {
      assert DatesDistinct(h[1..]) by {
        forall i, j | 0 <= i < j < |h[1..]| ensures h[1..][i].date != h[1..][j].date {
          assert h[1..][i] == h[i + 1] && h[1..][j] == h[j + 1];
        }
      }
      WithoutDateKeepsDistinct(h[1..], d);
      var rest := WithoutDate(h[1..], d);
      if h[0].date != d {
        forall e | e in rest ensures e.date != h[0].date {
          var k :| 0 <= k < |h[1..]| && h[1..][k] == e;
          assert h[k + 1] == e;
        }
      }
    }
  }

  /** A history with at most one entry per date keeps that property after a check-in. */
  lemma UpsertKeepsDatesDistinct(h: seq<MoodEntry>, today: string, mood: Mood)
    requires DatesDistinct(h)
    ensures DatesDistinct(Upsert(h, today, mood))
  {
    var r := Upsert(h, today, mood);
    WithoutDateKeepsDistinct(h, today);
    assert r[1..] == WithoutDate(h, today);
    forall i, j | 0 <= i < j < |r| ensures r[i].date != r[j].date {
      assert r[j] == r[1..][j - 1];
      if i > 0 { assert r[i] == r[1..][i - 1]; }
      else { assert r[j] in r[1..]; }
    }
  }

  /** How many entries record `m`. */
  function Count(h: seq<MoodEntry>, m: Mood): (n: nat)
    ensures n <= |h|
  {
    if h == [] then 0 else (if h[0].mood == m then 1 else 0) + Count(h[1..], m)
  }

  /** Counting the list with one more entry at the end. */
  lemma {:induction false} CountSnoc(h: seq<MoodEntry>, e: MoodEntry, m: Mood)
    ensures Count(h + [e], m) == Count(h, m) + (if e.mood == m then 1 else 0)
    decreases |h|
  {
    if h != [] {
      assert (h + [e])[1..] == h[1..] + [e];
      CountSnoc(h[1..], e, m);
    }
  }

  /** The `reduce` at moodCheck.tsx:48-54: a left fold that adds one to the
      count of each entry's mood; a mood with no entry has no key. */
  function MoodCounts(h: seq<MoodEntry>): (counts: map<Mood, nat>)
    ensures forall m :: m in counts <==> Count(h, m) > 0
    ensures forall m :: m in counts ==> counts[m] == Count(h, m)
    decreases |h|
  {
    if h == [] then map[]
    else
      var init := h[..|h| - 1];
      var last := h[|h| - 1];
      var acc := MoodCounts(init);
      assert h == init + [last];
      forall m ensures Count(h, m) == Count(init, m) + (if last.mood == m then 1 else 0) {
        CountSnoc(init, last, m);
      }
      acc[last.mood := (if last.mood in acc then acc[last.mood] else 0) + 1]
  }

  /** The figure shown for mood `m`: its count, or 0 (`moodCounts[m] || 0`). */
  function ShownCount(h: seq<MoodEntry>, m: Mood): (n: nat)
    ensures n == Count(h, m)
  {
    var counts := MoodCounts(h);
    if m in counts then counts[m] else 0
  }

  /** Every entry is counted under exactly one mood. */
  lemma {:induction false} CountsSumToLength(h: seq<MoodEntry>)
    ensures ShownCount(h, Happy) + ShownCount(h, Neutral) + ShownCount(h, Sad) == |h|
    decreases |h|
  {
    if h != [] {
      CountsSumToLength(h[1..]);
    }
  }

  /** The entries listed under "Recent Entries" (`history.slice(0, 7)`). */
  function RecentEntries(h: seq<MoodEntry>): (r: seq<MoodEntry>)
    ensures |r| == if |h| < 7 then |h| else 7
    ensures r <= h
  {
    if |h| < 7 then h else h[..7]
  }

  /** Right after a check-in the first recent entry is today's. */
  lemma RecentStartsWithCheckIn(h: seq<MoodEntry>, today: string, mood: Mood)
    ensures RecentEntries(Upsert(h, today, mood))[0] == MoodEntry(today, mood)
  {
  }

  class MoodCheckScreen {
    var mood: Option<Mood>
    var history: seq<MoodEntry>

    /** The screen after its history has been read from storage as `stored`. */
    constructor (stored: seq<MoodEntry>)
      ensures mood == None
      ensures history == stored
    {
      mood := None;
      history := stored;
    }

    /** Pressing a mood button selects it. */
    method Select(m: Mood)
      modifies this`mood
      ensures mood == Some(m)
    {
      mood := Some(m);
    }

    /** "Save Mood" on `today`: without a selection nothing happens; otherwise
        today's entry is replaced by the selected mood and the selection is cleared. */
    method HandleSubmit(today: string)
      modifies this
      ensures old(mood).None? ==> mood == old(mood) && history == old(history)
      ensures old(mood).Some? ==> history == Upsert(old(history), today, old(mood).value)
      ensures old(mood).Some? ==> mood == None
    {
      if mood.None? {
        return;
      }
      var filtered := WithoutDate(history, today);
      var newHistory := [MoodEntry(today, mood.value)] + filtered;
      history := newHistory;
      mood := None;
    }
  }
}
