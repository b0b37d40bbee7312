# Day-timeline model of the Time-Visualization tracker

This project models the core of a single-page time tracker. The tracker has
three parts:

- an ordered **catalog** of named, coloured activities;
- a sparse **timeline** that records, for a (day, minute) key, the id of the
  activity done in that minute;
- a **live session**, which is either idle or running one activity since a
  start instant.

The page's event handlers are modelled as pure transitions over one immutable
state record, `Tracker.State(catalog, timeline, session)`:

- the activity button (start, stop, switch);
- the manual range editor;
- add, edit and delete of an activity;
- the restore of a stored session after a reload;
- the once-a-second progress-bar refresh. Its recording half is `Tracker.Tick`.

Every handler that in the page ends with a progress-bar refresh is modelled
as its own change followed by one `Tick` at the same clock.

Modules (one per component, all functional):

- `Basics` (basics.dfy): the `Option`/`Result` wrappers, the error kinds, and
  `Id`, a non-empty string. `Clock(day, minute)` is an instant as the page sees
  it. `MinuteOf` is the minute-of-day arithmetic.
- `DayTimeline` (timeline.dfy): point get/set, the range overwrite
  (`SetRange`, and the loop `WriteRange`), the fill-if-empty commit (`Fill`,
  and the loop `FillSpan`), the cascade of a deletion (`Purge`), and the
  same-id run search (`FindRun`).
- `ActivityCatalog` (catalog.dfy): ECMAScript `trim`, `Add`, `Edit` and
  `Remove`, and the catalog invariant `Valid`: distinct ids, distinct trimmed
  non-empty names.
- `LiveSession` (session.dfy): the two-state session and the toggle protocol.
- `Stats` (stats.dfy): the per-activity minute totals of a day (`ActivityTimes`)
  and the "nothing counted twice" lemmas.
- `Tracker` (tracker.dfy): the state record, the handlers, and the invariant
  `Inv`, which every handler keeps.

## Behaviour as written

Where a cleaner design and the code differ, the model follows the code. The
lemmas below make each difference explicit.

- **Stop and switch record nothing.** Only the tick records. A press of the
  activity button never changes the timeline (`Tracker.OnToggle`). A start
  followed by a stop with no tick in between leaves the state as it was
  (`Tracker.StartStopWithoutTick`). The span is recorded only when a tick at
  the stop clock came first (`Tracker.TickThenStopRecordsSpan`).
- **The tick records on the current day.** It fills from the session's start
  minute up to the current minute on the current day, whatever day the session
  started (`Tracker.Tick`).
- **A restored session from another day is dropped.** Nothing of it is
  recorded (`Tracker.Restore`).
- **Delete records nothing of the running span** before it clears the session
  (`Tracker.Delete`). Delete also has no "not found" case: removing an absent
  id changes nothing (`ActivityCatalog.RemoveAbsent`).
- **The range edit compares the start minute, not the current time.** It stops
  the session when the edited range covers the session's start minute. It does
  not check the session's day, and it records nothing of the session.
- **The trailing refresh of a range edit can undo a clear.** If a session that
  started before the range is still running, the refresh records the running
  activity again on the cleared minutes (`Tracker.ResetBehindSessionRefills`).
- **The last minute of the day is out of reach.** Time inputs go up to 23:59,
  so a manual edit never reaches minute 1439 (`Tracker.EditMissesLastMinute`).
- **New ids are not checked.** Add does not check that the generated id is
  unused (`ActivityCatalog.AddWithUsedIdDuplicates`). The invariant is kept only
  when the id is fresh (`Tracker.OnAddKeepsInv`).
- **Edit changes only the first record with the id.** This matters only if ids
  ever repeat.

## Model

| member | source | states |
|---|---|---|
| Basics.MinuteOf | script.js:712-716 | The minute of the day that the editor reads from an hour and a minute lies in [0, 1440). Dividing and reducing it by 60 gives back the hour and the minute. |
| DayTimeline.Get | script.js:779-782 | A minute reads as unassigned exactly when the timeline has no key for it. Otherwise it reads the id stored under its key. |
| DayTimeline.Set | script.js:785-792 | After a write, reading that (day, minute) gives the written id. A falsy id removes the key, so reading gives "unassigned". Every other key is unchanged. |
| DayTimeline.SetRange | script.js:745-752 | Every minute of [start, end) on the day reads the written value, or "unassigned" for a clear. Every key outside that range is unchanged, so an empty range writes nothing. |
| DayTimeline.WriteRange | script.js:746-752 | The per-minute write loop computes exactly the range overwrite. |
| DayTimeline.SetRangeIdempotent | script.js:745-752 | Applying the same range edit twice gives the same timeline as applying it once. |
| DayTimeline.Fill | script.js:244-252 | The fill keeps every recorded minute. It records the id on exactly the unrecorded minutes of [start, current) of the day and on nothing else. |
| DayTimeline.FillSpan | script.js:246-252 | The commit loop, which writes a minute only when nothing is recorded for it, computes exactly that fill. |
| DayTimeline.FillIdempotent | script.js:244-252 | Running the commit a second time with the same inputs changes nothing. |
| DayTimeline.FillEmpty | script.js:244 | When the start minute is not before the current minute, the commit does nothing. |
| DayTimeline.Purge | script.js:666-670 | Every key on any day whose id is the deleted one becomes unassigned. Every other key is unchanged. |
| DayTimeline.FindRun | script.js:113-135 | An unassigned clicked minute gives no run. Otherwise the result is a run [s, e) that contains the minute and stays inside [0, 1440) for an in-day click. Every minute of the run has the same id. It cannot be extended: minute s-1, when s > 0, and minute e, when e < 1440, have a different value. |
| DayTimeline.RunUnique | script.js:119-135 | Inside the day there is only one such run, so the scan's answer is the only possible one. |
| ActivityCatalog.Trim | script.js:483 | The trimmed name is a contiguous slice of the input. It neither starts nor ends with white space, and everything cut away is ECMAScript white space or a line terminator. |
| ActivityCatalog.TrimIdempotent | script.js:616 | Trimming an already trimmed name leaves it unchanged. |
| ActivityCatalog.TrimEmptyIffBlank | script.js:486-489 | A name is rejected as empty exactly when it consists of white space only. |
| ActivityCatalog.FindIndex | script.js:520-521 | The lookup fails exactly when no record has the id. Otherwise it returns the first record with that id. |
| ActivityCatalog.Add | script.js:482-505 | An empty trimmed name is rejected, and so is an exact duplicate name. Otherwise exactly one record (fresh id, trimmed name, colour) is appended and the earlier records are unchanged. |
| ActivityCatalog.Edit | script.js:616-632 | An unknown id, an empty trimmed name, or a name held by a different id is rejected. Otherwise only the first record with the id changes, to the trimmed name and new colour. Its id and position stay, and the length is unchanged. |
| ActivityCatalog.Remove | script.js:660 | No record left has the removed id, and the list never grows. |
| ActivityCatalog.RemoveMembers | script.js:660 | A record is left after the delete exactly when it was in the catalog and its id differs from the removed one. |
| ActivityCatalog.RemoveAppend | script.js:660 | Delete filters each part of a list on its own, so the kept records keep their order even when ids repeat. |
| ActivityCatalog.RemoveCutsOne | script.js:660 | With distinct ids, delete cuts exactly the one record out and keeps the order of the others. |
| ActivityCatalog.RemoveAbsent | script.js:660 | Deleting an id that no record has leaves the catalog unchanged. |
| ActivityCatalog.AddKeepsValid | script.js:486-505 | With a fresh id, add keeps ids distinct and names distinct, non-empty and trimmed. |
| ActivityCatalog.AddWithUsedIdDuplicates | script.js:498-505 | With an id already in use, add still succeeds, and the result has two records with that id. |
| ActivityCatalog.EditKeepsValid | script.js:616-632 | A successful edit keeps ids distinct and names distinct, non-empty and trimmed. |
| ActivityCatalog.RemoveKeepsValid | script.js:660 | Delete keeps the catalog valid. |
| LiveSession.Toggle | script.js:360-406 | The session becomes idle exactly when the pressed id is the one running. Otherwise the pressed activity runs from now: a start from idle, or a switch. |
| LiveSession.EditStops | script.js:729-731 | A range edit stops the session exactly when a session is running and the range [start, end) contains its start minute. |
| LiveSession.ToggleTwiceFromIdle | script.js:365-390 | Pressing the same button twice from idle ends idle. |
| LiveSession.SwitchKeepsRunning | script.js:392-406 | Pressing a different button while running starts the pressed activity from now. |
| Stats.ActivityTimes | script.js:428-442 | The totals have a counter for exactly the catalog ids. Each counter equals the number of minutes in [0, 1440) of the day recorded for that id. |
| Stats.IdsOfAgrees | script.js:432-434 | The catalog's id list holds exactly the catalog's ids, and it has no repeats exactly when the catalog's ids are distinct. |
| Stats.SumIsCountAmong | script.js:437-442 | For distinct ids, the sum of their totals equals the number of minutes recorded for one of them. |
| Stats.StatsBounded | script.js:432-442 | The totals of distinct ids add up to at most the recorded minutes of the day, and so to at most 1440. |
| Stats.StatsExact | script.js:432-442 | When every recorded minute of the day names a catalog activity, the totals add up to exactly the recorded minutes. |
| Tracker.Tick | script.js:237-260 | The tick changes neither the catalog nor the session and keeps every recorded minute. It records only the running catalog activity, only on today, and only in [start minute, current minute). All of those minutes are recorded afterwards. |
| Tracker.TickIdempotent | script.js:238-258 | A second tick at the same clock records nothing new. |
| Tracker.TickNoSpan | script.js:238-244 | When idle, or when the start minute is not before the current minute, the tick changes nothing. |
| Tracker.OnToggle | script.js:360-410 | A button press (with its refresh) never changes the timeline or the catalog. From idle it starts the pressed activity from now. On the running id it stops. On another id it switches, and the new activity runs from now. |
| Tracker.StartStopWithoutTick | script.js:365-409 | A start and then a stop with no tick between them leave the state exactly as it was. |
| Tracker.TickThenStopRecordsSpan | script.js:238-258 | A tick at the stop clock, then the stop, gives an idle session. The timeline is then the fill of the session's span on the stop day. |
| Tracker.Written | script.js:746-752 | The editor writes "unassigned" exactly for the `default-reset` selection, and the selected id otherwise. |
| Tracker.EditRange | script.js:696-752 | A missing time, no selected activity, or start > end is rejected, in that order. Otherwise the session becomes idle exactly when the range covers its start minute and is otherwise unchanged. Today's [start, end) gets the selection, or is cleared for `default-reset`. All other keys and the catalog are unchanged. |
| Tracker.OnApplyTimeEdit | script.js:696-759 | A missing time, no selection, or start > end is rejected, in that order. On success the catalog is unchanged, and the session stops exactly when the range covers its start minute. After the refresh, every minute of [start, end) today holds the selected activity. For `default-reset` each minute of the range is unassigned, unless the refresh recorded the still-running activity on it again (between its start minute and now). Every recorded minute outside that range keeps its value. A minute that changed otherwise holds the still-running activity, today, between its start minute and now. When that activity is in the catalog, the refresh records every minute of that span, so a cleared minute inside it holds the running activity again. |
| Tracker.RunEditRoundTrip | script.js:113-149 | Clicking a recorded minute prefills the editor with its in-day run and activity. The range write of that edit, after the hours-and-minutes round trip, leaves the timeline unchanged. |
| Tracker.RunApplyRoundTrip | script.js:113-149 | When the refresh has nothing left to record, applying the prefilled edit of an in-day run, refresh included, leaves the timeline unchanged. |
| Tracker.EmptyEditChangesNothing | script.js:718-752 | An edit with start equal to end leaves the whole state unchanged. |
| Tracker.EditMissesLastMinute | script.js:745-752 | An edit with times from the time inputs never changes minute 1439. |
| Tracker.EditDuringSession | script.js:727-759 | An edit after the session's start keeps the session running, and its range holds the chosen activity. The refresh records the running activity on the free minutes before the range. |
| Tracker.ResetBehindSessionRefills | script.js:745-759 | Clearing a range that lies after the start of a still-running session is undone by the refresh: the cleared minutes hold the running activity again. |
| Tracker.Delete | script.js:656-681 | Delete removes the records with the id and every minute recorded for it on any day. The session becomes idle exactly when it ran that id, and nothing of its span is recorded. |
| Tracker.OnDelete | script.js:656-691 | Without confirmation nothing changes. After a confirmed delete and refresh, no record, minute or session refers to the id. The session stops exactly when it ran that id and is otherwise unchanged. Every recorded minute of another activity keeps its value. Any other recorded minute that changed holds the still-running activity, today, between its start minute and now. When that activity is in the catalog, the refresh records every minute of that span. |
| Tracker.OnAdd | script.js:482-508 | An empty trimmed name or an exact duplicate name is rejected. Otherwise one record (fresh id, trimmed name, colour) is appended after the unchanged earlier records. The timeline and session are unchanged. |
| Tracker.OnEditSave | script.js:615-641 | An unknown id, an empty trimmed name, or a name held by a different id is rejected. On success only the first record with the id gets the new name and colour, and the session is unchanged. The refresh keeps every recorded minute and records only the running activity, today, between its start minute and now. When that activity is in the catalog, every minute of that span is recorded afterwards. |
| Tracker.Restore | script.js:157-206 | With no stored session, nothing changes. A stored activity that is no longer in the catalog gives idle. A stored session from another day gives idle, and the timeline is unchanged. A session from today resumes with its id and start. Its refresh keeps every recorded minute and records the elapsed span: every minute from the start minute up to now is recorded today. Each newly recorded minute lies in that span and holds the restored activity. |
| Tracker.TickKeepsInv | script.js:237-260 | The tick keeps the invariant: valid catalog, every recorded minute naming a catalog activity, a running session running one. |
| Tracker.OnToggleKeepsInv | script.js:360-410 | A button press on a catalog activity keeps the invariant. |
| Tracker.OnApplyTimeEditKeepsInv | script.js:696-759 | A range edit whose selection is a catalog id or the clear sentinel keeps the invariant. |
| Tracker.OnDeleteKeepsInv | script.js:656-691 | Delete keeps the invariant. |
| Tracker.OnAddKeepsInv | script.js:482-508 | Add with a fresh id keeps the invariant. |
| Tracker.OnEditSaveKeepsInv | script.js:615-641 | A successful edit keeps the invariant. |
| Tracker.RestoreKeepsInv | script.js:157-206 | Restore keeps the invariant. |
| Tracker.StatsOfValidState | script.js:428-442 | Under the invariant, the day's totals add up to exactly the recorded minutes of the day, and that is at most 1440. |

## Left out

- Rendering: progress-bar segments and colours, time markers, buttons, the
  select options, dialogs, `scrollIntoView`, and the display of the statistics
  (only the counts are modelled, not the non-zero filter or the hours/minutes
  text). These are pure DOM output.
- `alert` is replaced by the `Err` result. `confirm` becomes the `confirmed`
  argument of `Tracker.OnDelete`.
- Persistence: `localStorage`, JSON load and save, and the default catalog. The
  state is held in memory. The stored session snapshot is the `saved` argument
  of `Tracker.Restore`.
- Clock: `setInterval` and `Date`. An instant is `Clock(day, minute)`. The day
  is the page's UTC date string and the minute is the local minute of the day.
  The page reads them from separate `Date` calls (script.js:210 and 222 in the
  refresh, 723 and 724 in the range editor). The model takes them as
  independent inputs and does not model how they relate.
- Tracker.OnToggle: the press and its refresh share one clock. The page reads
  the time twice, so a minute boundary between the two reads would let that
  refresh record one minute.
- Tracker.OnToggle: requires the pressed id to be in the catalog. Only catalog
  buttons call it, and with an unknown id the page throws partway through.
- Ids: `Date.now().toString()` becomes the `freshId` argument of
  `ActivityCatalog.Add`.
- Floating point: the day-percentage text, the click-pixel-to-minute
  conversion, and the day-of-year header. The clicked minute is an integer
  argument of `DayTimeline.FindRun`.
- `HH:MM` formatting and parsing: times are integer minutes, and `None` stands
  for an empty time input.
- The prefilling of the time editor after a run search is modelled only by
  `Tracker.RunEditRoundTrip`. The page skips the prefill when the run's
  activity is no longer in the catalog, and that check is not modelled.
- Tracker.RunEditRoundTrip: requires the run to end before minute 1440. A run
  that reaches the end of the day is prefilled as `24:00`, and what a time
  input does with that value is browser behaviour.
- Strings: names and ids are Dafny strings of Unicode scalar values. The page
  compares and trims UTF-16 code units (`trim()` at script.js:483 and 616,
  `===` at 492 and 625). The two agree on well-formed text, but a lone
  surrogate in a name cannot be represented.
- The edit dialog: its lookup at open and its checks at save are modelled as
  one atomic step (`ActivityCatalog.Edit`).
