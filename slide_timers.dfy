/**
 The hero slider's interval handles. `slideInterval` holds the handle of the
 last interval started; `startAutoSlide` starts a new interval without
 cancelling that one, and `stopAutoSlide` cancels only the handle it holds.
 Time itself is not modelled: only which intervals are live.
 */
module SlideTimers {

  /** Live interval handles, the one `slideInterval` holds (0 before the first start:
      browsers never return 0), and the handle the next `setInterval` returns. */
  datatype Timers = Timers(live: set<nat>, slideInterval: nat, nextHandle: nat)

  /** The events that start or stop the auto-slide: hovering in and out of the slider,
      the tab turning hidden or visible, and a manual control (prev, next, dot or arrow
      key), which stops, moves and starts again. */
  datatype Event = MouseEnter | MouseLeave | Hidden | Visible | Control

  const NONE_STARTED := Timers({}, 0, 1)

  /** Handles are issued in increasing order and every live or held handle was issued. */
  predicate WellFormed(t: Timers) {
    t.nextHandle > 0 && t.slideInterval < t.nextHandle &&
    forall h :: h in t.live ==> 0 < h < t.nextHandle
  }

  /** stopAutoSlide: `clearInterval(slideInterval)`. */
  function Stop(t: Timers): (u: Timers)
    ensures u.live == t.live - {t.slideInterval}
    ensures u.slideInterval == t.slideInterval && u.nextHandle == t.nextHandle
  {
    t.(live := t.live - {t.slideInterval})
  }

  /** startAutoSlide as written: `slideInterval = setInterval(...)`, with no
      `clearInterval` of the handle held before. */
  function StartAsWritten(t: Timers): (u: Timers)
    requires WellFormed(t)
    ensures WellFormed(u)
    ensures u.live == t.live + {t.nextHandle} && t.nextHandle !in t.live
    ensures u.slideInterval == t.nextHandle
  {
    Timers(t.live + {t.nextHandle}, t.nextHandle, t.nextHandle + 1)
  }

  /** startAutoSlide as intended: cancel the held interval before starting a new one. */
  function StartCancelling(t: Timers): (u: Timers)
    requires WellFormed(t)
    ensures WellFormed(u)
    ensures u.live == (t.live - {t.slideInterval}) + {u.slideInterval}
  {
    StartAsWritten(Stop(t))
  }

  function StepAsWritten(t: Timers, e: Event): (u: Timers)
    requires WellFormed(t)
    ensures WellFormed(u)
  {
    match e
    case MouseEnter => Stop(t)
    case Hidden => Stop(t)
    case MouseLeave => StartAsWritten(t)
    case Visible => StartAsWritten(t)
    case Control => StartAsWritten(Stop(t))
  }

  function StepCancelling(t: Timers, e: Event): (u: Timers)
    requires WellFormed(t)
    ensures WellFormed(u)
  {
    match e
    case MouseEnter => Stop(t)
    case Hidden => Stop(t)
    case MouseLeave => StartCancelling(t)
    case Visible => StartCancelling(t)
    case Control => StartCancelling(Stop(t))
  }

  /** The timers after initializeHeroSlider's own start and then the given events. */
  function RunAsWritten(t: Timers, events: seq<Event>): (u: Timers)
    requires WellFormed(t)
    ensures WellFormed(u)
    decreases |events|
  {
    if events == [] then t else RunAsWritten(StepAsWritten(t, events[0]), events[1..])
  }

  function RunCancelling(t: Timers, events: seq<Event>): (u: Timers)
    requires WellFormed(t)
    ensures WellFormed(u)
    decreases |events|
  {
    if events == [] then t else RunCancelling(StepCancelling(t, events[0]), events[1..])
  }

  /** At most one interval is live, and it is the one `slideInterval` holds. */
  predicate AtMostOneLive(t: Timers) {
    t.live <= {t.slideInterval}
  }

  /** As written: hovering over the slider, hiding the tab and showing it again while
      the pointer is still inside (which restarts the timer), and then leaving the
      slider starts a second interval beside the first. */
  lemma AsWrittenTwoIntervals()
    ensures var t := RunAsWritten(StartAsWritten(NONE_STARTED), [MouseEnter, Hidden, Visible, MouseLeave]);
      t.live == {2, 3}
    ensures var t := RunAsWritten(StartAsWritten(NONE_STARTED), [MouseEnter, Hidden, Visible, MouseLeave, MouseEnter]);
      t.live == {2}
  {
  }

  /** With cancel-before-start, any sequence of events keeps at most one interval live. */
  lemma {:induction false} CancellingKeepsOneLive(t: Timers, events: seq<Event>)
    requires WellFormed(t) && AtMostOneLive(t)
    ensures AtMostOneLive(RunCancelling(t, events))
    ensures |RunCancelling(t, events).live| <= 1
    decreases |events|
  {
    if events != [] {
      CancellingKeepsOneLive(StepCancelling(t, events[0]), events[1..]);
    } else {
      assert t.live == {} || t.live == {t.slideInterval};
    }
  }

  /** The slider's own first start leaves exactly one interval live, as written and
      with cancel-before-start alike. */
  lemma InitialStartOneLive()
    ensures StartAsWritten(NONE_STARTED).live == {1}
    ensures AtMostOneLive(StartCancelling(NONE_STARTED))
    ensures StartCancelling(NONE_STARTED).live == {1}
  {
  }
}
