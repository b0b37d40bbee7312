/** The live session: either nothing is running, or one activity is running
    since a recorded start instant. */
module LiveSession {
  import opened Basics

  datatype Session = Idle | Running(id: Id, start: Clock)

  /** The activity button: start when idle, stop when the running activity is
      pressed again, switch (restart the clock) when another one is pressed.
      Nothing is recorded here; recording is the tick's job. */
  function Toggle(s: Session, id: Id, now: Clock): (r: Session)
    ensures r.Idle? <==> s.Running? && s.id == id
    ensures r.Running? ==> r == Running(id, now)
  {
    match s
    case Idle => Running(id, now)
    case Running(current, _) => if current == id then Idle else Running(id, now)
  }

  /** Pressing the same button twice starts and then stops that activity. */
  lemma ToggleTwiceFromIdle(id: Id, t0: Clock, t1: Clock)
    ensures Toggle(Toggle(Idle, id, t0), id, t1) == Idle
  {
  }

  /** Pressing a different button never leaves the tracker idle. */
  lemma SwitchKeepsRunning(s: Session, id: Id, now: Clock)
    requires s.Running? && s.id != id
    ensures Toggle(s, id, now) == Running(id, now)
  {
  }

  /** A manual range edit over [s, e) stops the session exactly when the range
      covers the session's start minute. */
  predicate EditStops(session: Session, s: int, e: int)
  {
    session.Running? && s <= session.start.minute < e
  }
}
