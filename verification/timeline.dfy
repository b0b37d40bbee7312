/** The minute-level store: a sparse map from (day, minute) to the id of the
    activity recorded for that minute, with point access, the manual range
    overwrite, the passive fill-if-empty commit and the same-id run search. */
module DayTimeline {
  import opened Basics

  /** Absent key = unassigned minute. */
  type Timeline = map<(Day, int), Id>

  /** Reads the activity recorded for minute m of day d. */
  function Get(t: Timeline, d: Day, m: int): (r: Option<Id>)
    ensures r.None? <==> (d, m) !in t
    ensures r.Some? ==> t[(d, m)] == r.value
  {
    if (d, m) in t then Some(t[(d, m)]) else None
  }

  /** Two timelines that agree on every (day, minute) are the same timeline. */
  lemma Extensional(a: Timeline, b: Timeline)
    requires forall d, m :: Get(a, d, m) == Get(b, d, m)
    ensures a == b
  {
    forall k ensures k in a <==> k in b {
      assert Get(a, k.0, k.1) == Get(b, k.0, k.1);
    }
    forall k | k in a ensures a[k] == b[k] {
      assert Get(a, k.0, k.1) == Get(b, k.0, k.1);
    }
  }

  /** Records `x` for minute m of day d; a falsy id (None) deletes the key. */
  function Set(t: Timeline, d: Day, m: int, x: Option<Id>): (r: Timeline)
    ensures x.None? ==> (d, m) !in r
    ensures forall d', m' :: Get(r, d', m') == if d' == d && m' == m then x else Get(t, d', m')
  {
    match x
    case Some(id) => t[(d, m) := id]
    case None => t - {(d, m)}
  }

  // ---------------------------------------------------------------------------
  // Manual range overwrite

  /** Writes `x` into every minute of [s, e) on day d, one minute after the
      other in increasing order, exactly as the editor's loop does. */
  function SetRange(t: Timeline, d: Day, s: int, e: int, x: Option<Id>): (r: Timeline)
    ensures forall d', m' :: Get(r, d', m') == if d' == d && s <= m' < e then x else Get(t, d', m')
    decreases e - s
  {
    if e <= s then t else Set(SetRange(t, d, s, e - 1, x), d, e - 1, x)
  }

  /** The editor's loop over [s, e): one point write per minute. */
  method WriteRange(t: Timeline, d: Day, s: int, e: int, x: Option<Id>) returns (r: Timeline)
    ensures r == SetRange(t, d, s, e, x)
  {
    r := t;
    var minute := s;
    while minute < e
      invariant s <= minute && (minute <= e || minute == s)
      invariant r == SetRange(t, d, s, minute, x)
      decreases e - minute
    {
      r := Set(r, d, minute, x);
      minute := minute + 1;
    }
  }

  /** An empty range writes nothing. */
  lemma SetRangeEmpty(t: Timeline, d: Day, s: int, e: int, x: Option<Id>)
    requires e <= s
    ensures SetRange(t, d, s, e, x) == t
  {
  }

  /** Overwriting a range twice with the same value is the same as once. */
  lemma SetRangeIdempotent(t: Timeline, d: Day, s: int, e: int, x: Option<Id>)
    ensures SetRange(SetRange(t, d, s, e, x), d, s, e, x) == SetRange(t, d, s, e, x)
  {
    Extensional(SetRange(SetRange(t, d, s, e, x), d, s, e, x), SetRange(t, d, s, e, x));
  }

  // ---------------------------------------------------------------------------
  // Passive fill-if-empty commit

  /** Records `id` on every minute of [s, e) of day d that has no activity yet,
      one minute after the other in increasing order. */
  function Fill(t: Timeline, d: Day, s: int, e: int, id: Id): (r: Timeline)
    ensures forall d', m' ::
              Get(r, d', m') == if d' == d && s <= m' < e && Get(t, d', m').None? then Some(id) else Get(t, d', m')
    decreases e - s
  {
    if e <= s then t
    else
      var prev := Fill(t, d, s, e - 1, id);
      if Get(prev, d, e - 1).None? then Set(prev, d, e - 1, Some(id)) else prev
  }

  /** The commit loop: a minute is written only when nothing is recorded for it. */
  method FillSpan(t: Timeline, d: Day, s: int, e: int, id: Id) returns (r: Timeline)
    ensures r == Fill(t, d, s, e, id)
  {
    r := t;
    if s < e {
      var i := s;
      while i < e
        invariant s <= i <= e
        invariant r == Fill(t, d, s, i, id)
      {
        if Get(r, d, i).None? {
          r := Set(r, d, i, Some(id));
        }
        i := i + 1;
      }
    }
  }

  /** Repeating the commit with the same inputs changes nothing. */
  lemma FillIdempotent(t: Timeline, d: Day, s: int, e: int, id: Id)
    ensures Fill(Fill(t, d, s, e, id), d, s, e, id) == Fill(t, d, s, e, id)
  {
    Extensional(Fill(Fill(t, d, s, e, id), d, s, e, id), Fill(t, d, s, e, id));
  }

  /** A fill over an empty or reversed span does nothing. */
  lemma FillEmpty(t: Timeline, d: Day, s: int, e: int, id: Id)
    requires e <= s
    ensures Fill(t, d, s, e, id) == t
  {
  }

  // ---------------------------------------------------------------------------
  // Cascade of an activity deletion

  /** Deletes every key, on every day, whose recorded id is `id`. */
  function Purge(t: Timeline, id: Id): (r: Timeline)
    ensures forall d, m :: Get(r, d, m) == if Get(t, d, m) == Some(id) then None else Get(t, d, m)
  {
    map k | k in t && t[k] != id :: t[k]
  }

  // ---------------------------------------------------------------------------
  // Same-id run search

  /** [s, e) is the run of minute c's activity on day d: it contains c, every
      minute of it holds that activity, and it cannot grow on either side
      without leaving [0, MinutesPerDay) or reaching a different value. */
  predicate IsRun(t: Timeline, d: Day, c: int, s: int, e: int)
  {
    && Get(t, d, c).Some?
    && s <= c < e
    && (forall m :: s <= m < e ==> Get(t, d, m) == Get(t, d, c))
    && (0 < s ==> Get(t, d, s - 1) != Get(t, d, c))
    && (e < MinutesPerDay ==> Get(t, d, e) != Get(t, d, c))
  }

  /** Backward and forward scan from the clicked minute c for the contiguous
      minutes holding the same activity; no run for an unassigned minute. */
  method FindRun(t: Timeline, d: Day, c: int) returns (run: Option<(int, int)>)
    ensures run.None? <==> Get(t, d, c).None?
    ensures run.Some? ==> IsRun(t, d, c, run.value.0, run.value.1)
    ensures run.Some? && 0 <= c ==> 0 <= run.value.0
    ensures run.Some? && c < MinutesPerDay ==> run.value.1 <= MinutesPerDay
  {
    var clicked := Get(t, d, c);
    if clicked.None? {
      return None;
    }
    var s := c;
    var e := c + 1;
    while s > 0
      invariant s <= c
      invariant 0 <= c ==> 0 <= s
      invariant forall m :: s <= m <= c ==> Get(t, d, m) == clicked
    {
      if Get(t, d, s - 1) != clicked {
        break;
      }
      s := s - 1;
    }
    while e < MinutesPerDay
      invariant c < e
      invariant c < MinutesPerDay ==> e <= MinutesPerDay
      invariant forall m :: c <= m < e ==> Get(t, d, m) == clicked
      decreases MinutesPerDay - e
    {
      if Get(t, d, e) != clicked {
        break;
      }
      e := e + 1;
    }
    return Some((s, e));
  }

  /** Inside the day there is exactly one run around a minute, so the scan's
      answer is the only possible one. */
  lemma RunUnique(t: Timeline, d: Day, c: int, s1: int, e1: int, s2: int, e2: int)
    requires 0 <= s1 && e1 <= MinutesPerDay && IsRun(t, d, c, s1, e1)
    requires 0 <= s2 && e2 <= MinutesPerDay && IsRun(t, d, c, s2, e2)
    ensures s1 == s2 && e1 == e2
  {
  }
}
