/** The session configuration record: lifetime, audit cadence and the activity kinds. */
module SessionConfig {
  import opened Wrappers

  /** Session lifetime granted by a login or an extension, in milliseconds: 30 minutes. */
  const TIMEOUT_DURATION: nat := 30 * 60 * 1000

  /** Period of the session audit, in milliseconds: 10 seconds. */
  const CHECK_INTERVAL: nat := 10000

  /** The kinds of user activity that keep a session alive. */
  datatype ActivityEvent = Click | Keypress | Scroll | Mousemove

  /** The activity kinds in the order the configuration lists them. */
  const ACTIVITY_EVENTS: seq<ActivityEvent> := [Click, Keypress, Scroll, Mousemove]

  /** The DOM event name each activity kind is listened for under. */
  function EventName(e: ActivityEvent): string {
    match e
    case Click => "click"
    case Keypress => "keypress"
    case Scroll => "scroll"
    case Mousemove => "mousemove"
  }

  /** The activity kind a DOM event name stands for, if it is one of the configured names. */
  function EventOfName(name: string): (r: Option<ActivityEvent>)
    ensures r.Some? ==> EventName(r.value) == name
  {
    if name == "click" then Some(Click)
    else if name == "keypress" then Some(Keypress)
    else if name == "scroll" then Some(Scroll)
    else if name == "mousemove" then Some(Mousemove)
    else None
  }

  lemma TimeoutIsThirtyMinutes()
    ensures TIMEOUT_DURATION == 1800000
  {
  }

  /** A session survives at least one full audit period after it is created or extended. */
  lemma IntervalWithinTimeout()
    ensures 0 < CHECK_INTERVAL < TIMEOUT_DURATION
  {
  }

  /** The configured list holds every activity kind, each exactly once. */
  lemma ActivityEventsExact(e: ActivityEvent)
    ensures e in ACTIVITY_EVENTS
    ensures |ACTIVITY_EVENTS| == 4
    ensures forall i, j :: 0 <= i < j < |ACTIVITY_EVENTS| ==> ACTIVITY_EVENTS[i] != ACTIVITY_EVENTS[j]
  {
  }

  /** The activity kinds are exactly the four configured names: every kind's name is read
      back as that kind, and no other name is an activity kind. */
  lemma EventNamesRoundTrip(e: ActivityEvent, name: string)
    ensures EventOfName(EventName(e)) == Some(e)
    ensures EventOfName(name).Some? <==> name in {"click", "keypress", "scroll", "mousemove"}
  {
  }
}
