/** The whole tracker as one immutable state record (catalog, timeline,
    session) and the event handlers of the page as pure transitions. Every
    handler that ends by refreshing the progress bar is modelled as its own
    state change followed by one `Tick` at the same clock. */
module Tracker {
  import opened Basics
  import opened DayTimeline
  import opened ActivityCatalog
  import opened LiveSession
  import opened Stats

  datatype State = State(catalog: Catalog, timeline: Timeline, session: Session)

  /** Selector value of the range editor that clears the range. */
  const ResetSelection: string := "default-reset"

  /** What the range editor writes for a non-empty selector value. */
  function Written(selected: string): (x: Option<Id>)
    requires selected != ""
    ensures x.None? <==> selected == ResetSelection
    ensures x.Some? ==> x.value == selected
  {
    if selected == ResetSelection then None else Some(selected)
  }

  /** The tracker's consistency: a valid catalog, every recorded minute names
      a catalog activity, and a running session runs a catalog activity. */
  predicate Inv(st: State)
  {
    && Valid(st.catalog)
    && (forall k :: k in st.timeline ==> HasId(st.catalog, st.timeline[k]))
    && (st.session.Running? ==> HasId(st.catalog, st.session.id))
  }

  // ---------------------------------------------------------------------------
  // The periodic tick

  /** The recording half of the progress-bar refresh: while a catalog activity
      is running, each minute of today from the session's start minute up to
      (not including) the current minute that has nothing recorded gets it. */
  function Tick(st: State, now: Clock): (r: State)
    ensures r.catalog == st.catalog && r.session == st.session
    ensures forall d, m :: Get(st.timeline, d, m).Some? ==> Get(r.timeline, d, m) == Get(st.timeline, d, m)
    ensures forall d, m :: Get(st.timeline, d, m).None? && Get(r.timeline, d, m).Some? ==>
              && st.session.Running? && HasId(st.catalog, st.session.id)
              && d == now.day && st.session.start.minute <= m < now.minute
              && Get(r.timeline, d, m) == Some(st.session.id)
    ensures st.session.Running? && HasId(st.catalog, st.session.id) ==>
              forall m :: st.session.start.minute <= m < now.minute ==> Get(r.timeline, now.day, m).Some?
  {
    match st.session
    case Idle => st
    case Running(id, start) =>
      if HasId(st.catalog, id) && start.minute < now.minute
      then st.(timeline := Fill(st.timeline, now.day, start.minute, now.minute, id))
      else st
  }

  /** A second tick at the same clock records nothing new. */
  lemma TickIdempotent(st: State, now: Clock)
    ensures Tick(Tick(st, now), now) == Tick(st, now)
  {
    if st.session.Running? && HasId(st.catalog, st.session.id) && st.session.start.minute < now.minute {
      FillIdempotent(st.timeline, now.day, st.session.start.minute, now.minute, st.session.id);
    }
  }

  /** Idle, or a start minute not before the current minute: the tick is a no-op. */
  lemma TickNoSpan(st: State, now: Clock)
    requires st.session.Idle? || now.minute <= st.session.start.minute
    ensures Tick(st, now) == st
  {
  }

  // ---------------------------------------------------------------------------
  // Activity buttons

  /** Button press on a catalog activity, followed by the refresh. The timeline
      is never written: the new session starts at the current minute, and a
      stopped session no longer records. */
  function OnToggle(st: State, id: Id, now: Clock): (r: State)
    requires HasId(st.catalog, id)
    ensures r.catalog == st.catalog && r.timeline == st.timeline
    ensures st.session.Idle? ==> r.session == Running(id, now)
    ensures st.session.Running? && st.session.id == id ==> r.session == Idle
    ensures st.session.Running? && st.session.id != id ==> r.session == Running(id, now)
  {
    Tick(st.(session := Toggle(st.session, id, now)), now)
  }

  /** Starting and stopping with no tick in between records nothing at all,
      however long the activity ran. */
  lemma StartStopWithoutTick(st: State, id: Id, t0: Clock, t1: Clock)
    requires st.session.Idle? && HasId(st.catalog, id)
    ensures OnToggle(OnToggle(st, id, t0), id, t1) == st
  {
  }

  /** The recording a stop is commonly expected to do happens only when a tick
      at the stop clock precedes the press: then every free minute of the
      session's span on the stop day holds the activity. */
  lemma TickThenStopRecordsSpan(st: State, id: Id, start: Clock, now: Clock)
    requires st.session == Running(id, start) && HasId(st.catalog, id)
    ensures OnToggle(Tick(st, now), id, now) ==
              State(st.catalog, Fill(st.timeline, now.day, start.minute, now.minute, id), Idle)
  {
    if now.minute <= start.minute {
      FillEmpty(st.timeline, now.day, start.minute, now.minute, id);
    }
  }

  // ---------------------------------------------------------------------------
  // Manual range edit

  /** The range editor up to its writes: validation, the session stop and the
      overwrite of [start, end) on today. Times are minutes of the day; None
      stands for an empty time input. */
  function EditRange(st: State, start: Option<int>, end: Option<int>, selected: string, now: Clock): (r: Result<State>)
    ensures start.None? || end.None? ==> r == Err(MissingTime)
    ensures start.Some? && end.Some? && selected == "" ==> r == Err(NoActivitySelected)
    ensures start.Some? && end.Some? && selected != "" && start.value > end.value ==> r == Err(StartAfterEnd)
    ensures r.Ok? <==> start.Some? && end.Some? && selected != "" && start.value <= end.value
    ensures r.Ok? ==> r.value.catalog == st.catalog
    ensures r.Ok? ==> (r.value.session.Idle? <==> st.session.Idle? || EditStops(st.session, start.value, end.value))
    ensures r.Ok? && r.value.session.Running? ==> r.value.session == st.session
    ensures r.Ok? ==> forall d, m :: Get(r.value.timeline, d, m) ==
                        if d == now.day && start.value <= m < end.value then Written(selected) else Get(st.timeline, d, m)
  {
    if start.None? || end.None? then Err(MissingTime)
    else if selected == "" then Err(NoActivitySelected)
    else if start.value > end.value then Err(StartAfterEnd)
    else
      var s := start.value;
      var e := end.value;
      var session := if EditStops(st.session, s, e) then Idle else st.session;
      Ok(State(st.catalog, SetRange(st.timeline, now.day, s, e, Written(selected)), session))
  }

  /** The range editor's click handler: the edit, then the refresh. */
  function OnApplyTimeEdit(st: State, start: Option<int>, end: Option<int>, selected: string, now: Clock): (r: Result<State>)
    ensures start.None? || end.None? ==> r == Err(MissingTime)
    ensures start.Some? && end.Some? && selected == "" ==> r == Err(NoActivitySelected)
    ensures start.Some? && end.Some? && selected != "" && start.value > end.value ==> r == Err(StartAfterEnd)
    ensures r.Ok? <==> start.Some? && end.Some? && selected != "" && start.value <= end.value
    ensures r.Ok? ==> r.value.catalog == st.catalog
    ensures r.Ok? ==> (r.value.session.Idle? <==> st.session.Idle? || EditStops(st.session, start.value, end.value))
    ensures r.Ok? && r.value.session.Running? ==> r.value.session == st.session
    ensures r.Ok? && selected != ResetSelection ==>
              forall m :: start.value <= m < end.value ==> Get(r.value.timeline, now.day, m) == Some(selected)
    ensures r.Ok? && r.value.session.Running? && HasId(st.catalog, r.value.session.id) ==>
              forall m :: r.value.session.start.minute <= m < now.minute ==> Get(r.value.timeline, now.day, m).Some?
    ensures r.Ok? && selected == ResetSelection ==>
              forall m :: start.value <= m < end.value ==>
                || Get(r.value.timeline, now.day, m).None?
                || (&& r.value.session.Running? && r.value.session.start.minute <= m < now.minute
                    && Get(r.value.timeline, now.day, m) == Some(r.value.session.id))
    ensures r.Ok? ==> forall d, m :: !(d == now.day && start.value <= m < end.value) && Get(st.timeline, d, m).Some? ==>
                        Get(r.value.timeline, d, m) == Get(st.timeline, d, m)
    ensures r.Ok? ==> forall d, m ::
              Get(r.value.timeline, d, m).Some? && Get(r.value.timeline, d, m) != Get(st.timeline, d, m) ==>
                || (d == now.day && start.value <= m < end.value && Get(r.value.timeline, d, m) == Some(selected))
                || (&& d == now.day && r.value.session.Running? && r.value.session.start.minute <= m < now.minute
                    && Get(r.value.timeline, d, m) == Some(r.value.session.id))
  {
    match EditRange(st, start, end, selected, now)
    case Err(e) => Err(e)
    case Ok(edited) => Ok(Tick(edited, now))
  }

  /** An empty range writes nothing (it can still stop nothing either, since an
      empty range covers no start minute). */
  lemma EmptyEditChangesNothing(st: State, m: int, selected: string, now: Clock)
    requires selected != ""
    ensures EditRange(st, Some(m), Some(m), selected, now) == Ok(st)
  {
    SetRangeEmpty(st.timeline, now.day, m, m, Written(selected));
  }

  /** Time inputs hold at most 23:59, so the last minute of the day is never
      reached by a manual edit. */
  lemma EditMissesLastMinute(st: State, s: int, e: int, selected: string, now: Clock)
    requires 0 <= s < MinutesPerDay && 0 <= e < MinutesPerDay
    requires EditRange(st, Some(s), Some(e), selected, now).Ok?
    ensures Get(EditRange(st, Some(s), Some(e), selected, now).value.timeline, now.day, MinutesPerDay - 1)
            == Get(st.timeline, now.day, MinutesPerDay - 1)
  {
  }

  /** A session started before the edited range keeps running, and the refresh
      records it on the free minutes up to the range: the manual minutes are
      not overwritten. */
  lemma EditDuringSession(st: State, a: Id, sessionStart: Clock, s: int, e: int, b: Id, now: Clock)
    requires st.session == Running(a, sessionStart) && HasId(st.catalog, a)
    requires sessionStart.minute < s <= e && b != ResetSelection
    ensures OnApplyTimeEdit(st, Some(s), Some(e), b, now).Ok?
    ensures var r := OnApplyTimeEdit(st, Some(s), Some(e), b, now).value;
            && r.session == st.session
            && (forall m :: s <= m < e ==> Get(r.timeline, now.day, m) == Some(b))
            && (forall m :: sessionStart.minute <= m < s && m < now.minute && Get(st.timeline, now.day, m).None? ==>
                  Get(r.timeline, now.day, m) == Some(a))
  {
  }

  /** Clearing a range behind a session that started earlier and is still
      running does not stick: the refresh records the running activity on the
      cleared minutes again. */
  lemma ResetBehindSessionRefills(st: State, a: Id, sessionStart: Clock, s: int, e: int, now: Clock)
    requires st.session == Running(a, sessionStart) && HasId(st.catalog, a)
    requires sessionStart.minute < s <= e <= now.minute
    ensures OnApplyTimeEdit(st, Some(s), Some(e), ResetSelection, now).Ok?
    ensures forall m :: s <= m < e ==>
              Get(OnApplyTimeEdit(st, Some(s), Some(e), ResetSelection, now).value.timeline, now.day, m) == Some(a)
  {
    var edited := EditRange(st, Some(s), Some(e), ResetSelection, now).value;
    assert edited.session == st.session;
    forall m | s <= m < e
      ensures Get(Tick(edited, now).timeline, now.day, m) == Some(a)
    {
      assert Get(edited.timeline, now.day, m).None?;
    }
  }

  /** Clicking a recorded minute prefills the editor with its run, written as
      hours and minutes and read back as minutes of the day, and with the
      run's activity; applying that edit right away leaves the timeline as it
      was. */
  lemma RunEditRoundTrip(st: State, c: int, s: int, e: int, now: Clock)
    requires 0 <= s && e < MinutesPerDay && IsRun(st.timeline, now.day, c, s, e)
    requires Get(st.timeline, now.day, c).value != ResetSelection
    ensures var r := EditRange(st, Some(MinuteOf(s / MinutesPerHour, s % MinutesPerHour)),
                               Some(MinuteOf(e / MinutesPerHour, e % MinutesPerHour)),
                               Get(st.timeline, now.day, c).value, now);
            r.Ok? && r.value.timeline == st.timeline
  {
    SplitJoin(s);
    SplitJoin(e);
    var r := EditRange(st, Some(s), Some(e), Get(st.timeline, now.day, c).value, now);
    Extensional(r.value.timeline, st.timeline);
  }

  /** The whole apply of a prefilled run, refresh included: when the refresh
      has nothing left to record, the timeline comes back unchanged. */
  lemma RunApplyRoundTrip(st: State, c: int, s: int, e: int, now: Clock)
    requires 0 <= s && e < MinutesPerDay && IsRun(st.timeline, now.day, c, s, e)
    requires Get(st.timeline, now.day, c).value != ResetSelection
    requires Tick(st, now) == st
    ensures var r := OnApplyTimeEdit(st, Some(MinuteOf(s / MinutesPerHour, s % MinutesPerHour)),
                                     Some(MinuteOf(e / MinutesPerHour, e % MinutesPerHour)),
                                     Get(st.timeline, now.day, c).value, now);
            r.Ok? && r.value.timeline == st.timeline
  {
    RunEditRoundTrip(st, c, s, e, now);
    SplitJoin(s);
    SplitJoin(e);
  }

  // ---------------------------------------------------------------------------
  // Catalog handlers

  /** Deletion after confirmation: the records with the id, every minute on any
      day recorded for it, and a session running it all go; nothing of the
      running span is recorded first. */
  function Delete(st: State, id: Id): (r: State)
    ensures r.catalog == Remove(st.catalog, id)
    ensures forall d, m :: Get(r.timeline, d, m) ==
              if Get(st.timeline, d, m) == Some(id) then None else Get(st.timeline, d, m)
    ensures r.session.Idle? <==> st.session.Idle? || st.session.id == id
    ensures r.session.Running? ==> r.session == st.session
  {
    var session := if st.session.Running? && st.session.id == id then Idle else st.session;
    State(Remove(st.catalog, id), Purge(st.timeline, id), session)
  }

  /** The delete button: nothing happens unless the user confirms; otherwise
      the deletion, then the refresh. */
  function OnDelete(st: State, id: Id, confirmed: bool, now: Clock): (r: State)
    ensures !confirmed ==> r == st
    ensures confirmed ==> r.catalog == Remove(st.catalog, id) && !HasId(r.catalog, id)
    ensures confirmed ==> forall d, m :: Get(r.timeline, d, m) != Some(id)
    ensures confirmed ==> r.session.Running? ==> r.session.id != id && r.session == st.session
    ensures confirmed ==> r.session == if st.session.Running? && st.session.id == id then Idle else st.session
    ensures confirmed ==> forall d, m :: Get(st.timeline, d, m).Some? && Get(st.timeline, d, m) != Some(id) ==>
                            Get(r.timeline, d, m) == Get(st.timeline, d, m)
    ensures confirmed && r.session.Running? && HasId(r.catalog, r.session.id) ==>
              forall m :: r.session.start.minute <= m < now.minute ==> Get(r.timeline, now.day, m).Some?
    ensures confirmed ==> forall d, m :: Get(r.timeline, d, m).Some? && Get(r.timeline, d, m) != Get(st.timeline, d, m) ==>
                            && r.session.Running? && d == now.day && r.session.start.minute <= m < now.minute
                            && Get(r.timeline, d, m) == Some(r.session.id)
  {
    if !confirmed then st else Tick(Delete(st, id), now)
  }

  /** The add button. */
  function OnAdd(st: State, rawName: string, color: string, freshId: Id): (r: Result<State>)
    ensures Trim(rawName) == [] ==> r == Err(EmptyName)
    ensures Trim(rawName) != [] && HasName(st.catalog, Trim(rawName)) ==> r == Err(DuplicateName)
    ensures r.Ok? <==> Trim(rawName) != [] && !HasName(st.catalog, Trim(rawName))
    ensures r.Ok? ==> r.value.timeline == st.timeline && r.value.session == st.session
    ensures r.Ok? ==> |r.value.catalog| == |st.catalog| + 1 && r.value.catalog[..|st.catalog|] == st.catalog
    ensures r.Ok? ==> r.value.catalog[|st.catalog|] == Activity(freshId, Trim(rawName), color)
  {
    match Add(st.catalog, rawName, color, freshId)
    case Err(e) => Err(e)
    case Ok(c) => Ok(st.(catalog := c))
  }

  /** The save button of the edit dialog: the edit, then the refresh. */
  function OnEditSave(st: State, id: Id, rawName: string, color: string, now: Clock): (r: Result<State>)
    ensures !HasId(st.catalog, id) ==> r == Err(NotFound)
    ensures HasId(st.catalog, id) && Trim(rawName) == [] ==> r == Err(EmptyName)
    ensures HasId(st.catalog, id) && Trim(rawName) != [] && NameTakenByOther(st.catalog, Trim(rawName), id) ==>
              r == Err(DuplicateName)
    ensures r.Ok? <==> HasId(st.catalog, id) && Trim(rawName) != [] && !NameTakenByOther(st.catalog, Trim(rawName), id)
    ensures r.Ok? ==> r.value.session == st.session && |r.value.catalog| == |st.catalog|
    ensures r.Ok? ==> forall j :: 0 <= j < |st.catalog| ==>
                        r.value.catalog[j] ==
                          if IsFirstWithId(st.catalog, id, j) then Activity(id, Trim(rawName), color) else st.catalog[j]
    ensures r.Ok? ==> forall d, m :: Get(st.timeline, d, m).Some? ==> Get(r.value.timeline, d, m) == Get(st.timeline, d, m)
    ensures r.Ok? ==> forall d, m :: Get(st.timeline, d, m).None? && Get(r.value.timeline, d, m).Some? ==>
                        && st.session.Running? && d == now.day && st.session.start.minute <= m < now.minute
                        && Get(r.value.timeline, d, m) == Some(st.session.id)
    ensures r.Ok? && st.session.Running? && HasId(st.catalog, st.session.id) ==>
              forall m :: st.session.start.minute <= m < now.minute ==> Get(r.value.timeline, now.day, m).Some?
  {
    match Edit(st.catalog, id, rawName, color)
    case Err(e) => Err(e)
    case Ok(c) => Ok(Tick(st.(catalog := c), now))
  }

  // ---------------------------------------------------------------------------
  // Restore after reload

  /** Reload with a stored session snapshot (`Idle` when none was stored): a
      snapshot of a deleted activity or of another day is dropped without
      recording anything; a snapshot of today resumes and is refreshed. */
  function Restore(st: State, saved: Session, now: Clock): (r: State)
    ensures saved.Idle? ==> r == st
    ensures saved.Running? && !HasId(st.catalog, saved.id) ==> r == st.(session := Idle)
    ensures saved.Running? && HasId(st.catalog, saved.id) && saved.start.day != now.day ==>
              r == st.(session := Idle)
    ensures saved.Running? && HasId(st.catalog, saved.id) && saved.start.day == now.day ==>
              && r.session == saved && r.catalog == st.catalog
              && (forall d, m :: Get(st.timeline, d, m).Some? ==> Get(r.timeline, d, m) == Get(st.timeline, d, m))
              && (forall m :: saved.start.minute <= m < now.minute ==> Get(r.timeline, now.day, m).Some?)
              && (forall d, m :: Get(st.timeline, d, m).None? && Get(r.timeline, d, m).Some? ==>
                    d == now.day && saved.start.minute <= m < now.minute && Get(r.timeline, d, m) == Some(saved.id))
  {
    match saved
    case Idle => st
    case Running(id, start) =>
      if !HasId(st.catalog, id) then st.(session := Idle)
      else if start.day == now.day then Tick(st.(session := saved), now)
      else st.(session := Idle)
  }

  // ---------------------------------------------------------------------------
  // The invariant is kept by every handler

  lemma TickKeepsInv(st: State, now: Clock)
    requires Inv(st)
    ensures Inv(Tick(st, now))
  {
    var r := Tick(st, now);
    forall k | k in r.timeline ensures HasId(r.catalog, r.timeline[k]) {
      assert Get(r.timeline, k.0, k.1) == Some(r.timeline[k]);
      if k !in st.timeline {
        assert Get(st.timeline, k.0, k.1).None?;
      } else {
        assert Get(st.timeline, k.0, k.1) == Some(st.timeline[k]);
      }
    }
  }

  lemma OnToggleKeepsInv(st: State, id: Id, now: Clock)
    requires Inv(st) && HasId(st.catalog, id)
    ensures Inv(OnToggle(st, id, now))
  {
  }

  lemma OnApplyTimeEditKeepsInv(st: State, start: Option<int>, end: Option<int>, selected: string, now: Clock)
    requires Inv(st)
    requires selected == "" || selected == ResetSelection || HasId(st.catalog, selected)
    requires OnApplyTimeEdit(st, start, end, selected, now).Ok?
    ensures Inv(OnApplyTimeEdit(st, start, end, selected, now).value)
  {
    var edited := EditRange(st, start, end, selected, now).value;
    forall k | k in edited.timeline ensures HasId(edited.catalog, edited.timeline[k]) {
      assert Get(edited.timeline, k.0, k.1) == Some(edited.timeline[k]);
      if Get(st.timeline, k.0, k.1).Some? {
        assert Get(st.timeline, k.0, k.1) == Some(st.timeline[k]);
      }
    }
    assert Inv(edited);
    TickKeepsInv(edited, now);
  }

  lemma OnDeleteKeepsInv(st: State, id: Id, confirmed: bool, now: Clock)
    requires Inv(st)
    ensures Inv(OnDelete(st, id, confirmed, now))
  {
    if confirmed {
      var del := Delete(st, id);
      RemoveKeepsValid(st.catalog, id);
      forall k | k in del.timeline ensures HasId(del.catalog, del.timeline[k]) {
        var v := del.timeline[k];
        assert Get(del.timeline, k.0, k.1) == Some(v);
        assert Get(st.timeline, k.0, k.1) == Some(v) && v != id;
        RemoveKeepsOthers(st.catalog, id, v);
      }
      if del.session.Running? {
        RemoveKeepsOthers(st.catalog, id, del.session.id);
      }
      TickKeepsInv(del, now);
    }
  }

  /** Removing one id keeps every other id of the catalog. */
  lemma RemoveKeepsOthers(c: Catalog, id: Id, other: Id)
    requires HasId(c, other) && other != id
    ensures HasId(Remove(c, id), other)
  {
    var i :| 0 <= i < |c| && c[i].id == other;
    RemoveMembers(c, id);
    var j :| 0 <= j < |Remove(c, id)| && Remove(c, id)[j] == c[i];
  }

  lemma OnAddKeepsInv(st: State, rawName: string, color: string, freshId: Id)
    requires Inv(st) && !HasId(st.catalog, freshId)
    requires OnAdd(st, rawName, color, freshId).Ok?
    ensures Inv(OnAdd(st, rawName, color, freshId).value)
  {
    var c := st.catalog;
    var c' := Add(c, rawName, color, freshId).value;
    AddKeepsValid(c, rawName, color, freshId);
    forall v | HasId(c, v) ensures HasId(c', v) {
      var i :| 0 <= i < |c| && c[i].id == v;
      assert c'[i] == c[i];
    }
  }

  lemma OnEditSaveKeepsInv(st: State, id: Id, rawName: string, color: string, now: Clock)
    requires Inv(st)
    requires OnEditSave(st, id, rawName, color, now).Ok?
    ensures Inv(OnEditSave(st, id, rawName, color, now).value)
  {
    var c := st.catalog;
    var c' := Edit(c, id, rawName, color).value;
    EditKeepsValid(c, id, rawName, color);
    forall v | HasId(c, v) ensures HasId(c', v) {
      var i :| 0 <= i < |c| && c[i].id == v;
      assert c'[i].id == c[i].id;
    }
    TickKeepsInv(st.(catalog := c'), now);
  }

  lemma RestoreKeepsInv(st: State, saved: Session, now: Clock)
    requires Inv(st)
    ensures Inv(Restore(st, saved, now))
  {
    if saved.Running? && HasId(st.catalog, saved.id) && saved.start.day == now.day {
      TickKeepsInv(st.(session := saved), now);
    }
  }

  /** Under the invariant the day's totals add up to exactly the recorded
      minutes of the day, never more than a day. */
  lemma StatsOfValidState(st: State, today: Day)
    requires Inv(st)
    ensures SumCounts(st.timeline, today, IdsOf(st.catalog)) == AssignedBelow(st.timeline, today, MinutesPerDay)
    ensures AssignedBelow(st.timeline, today, MinutesPerDay) <= MinutesPerDay
  {
    forall m | 0 <= m < MinutesPerDay && Get(st.timeline, today, m).Some?
      ensures HasId(st.catalog, Get(st.timeline, today, m).value)
    {
      assert (today, m) in st.timeline;
    }
    StatsExact(st.timeline, today, st.catalog);
  }
}
