/**
 The dynamic-island notification's stage machine: stage 0 is the bell,
 stage 1 the expanded title, stage 2 the full message with a Close button.

 The delayed move to stage 1 is an explicit timer event. Every timer the
 show effect schedules gets a fresh id; a timer whose effect has been
 cleaned up is cleared and its id never fires. Calling the parent's
 `closeNotification` is an emitted effect.
 */
module Notification {
  import opened Options

  /**
   The component's state: the `showNotification` prop it last rendered
   with, the `stage`, the timer still pending (if any), and the id the next
   scheduled timer will get.
   */
  datatype State = State(show: bool, stage: int, timer: Option<nat>, nextTimer: nat)

  datatype Event =
    | PropChange(show: bool)   // a render with this `showNotification`
    | TimerFired(id: nat)      // timer `id` elapses
    | Click                    // a click on the notification body
    | CloseButton              // a click on the Close button

  datatype Effect = CloseNotification

  datatype Outcome = Outcome(state: State, effects: seq<Effect>)

  /**
   What every reachable state satisfies: the stage is 0, 1 or 2; a hidden
   notification is at stage 0; a pending timer belongs to a shown
   notification still at stage 0, and was issued earlier.
   */
  predicate Valid(s: State)
  {
    && 0 <= s.stage <= 2
    && (!s.show ==> s.stage == 0)
    && (s.timer.Some? ==> s.show && s.stage == 0 && s.timer.value < s.nextTimer)
  }

  /**
   The first render: the effect runs once with the initial prop, leaving
   stage 0 and, when shown, one pending timer.
   */
  function Init(show: bool): (s: State)
    ensures Valid(s)
    ensures s.stage == 0 && s.show == show
    ensures s.timer.Some? <==> show
  {
    State(show, 0, if show then Some(0) else None, 1)
  }

  /** The show effect after its previous run was cleaned up (clearing that run's timer). */
  function Reshow(s: State, show: bool): (t: State)
    ensures t.stage == 0 && t.show == show && t.nextTimer == s.nextTimer + 1
    ensures t.timer.Some? <==> show
    ensures t.timer.Some? ==> t.timer.value == s.nextTimer
  {
    State(show, 0, if show then Some(s.nextTimer) else None, s.nextTimer + 1)
  }

  /**
   One event. A render re-runs the effect only when the prop changed. A
   pending timer moves to stage 1; a cleared one does nothing. A click
   expands stage 1 to 2, and in stage 2 resets to 0 and closes. The Close
   button exists only in stage 2; it resets and closes, and stops the click
   from reaching the body.
   */
  function Step(s: State, ev: Event): (o: Outcome)
    ensures Valid(s) ==> Valid(o.state)
    ensures |o.effects| <= 1
    ensures |o.effects| == 1 <==> (ev.Click? || ev.CloseButton?) && s.stage == 2
    ensures |o.effects| == 1 ==> o.state.stage == 0
  {
    match ev
    case PropChange(show) =>
      if show == s.show then Outcome(s, []) else Outcome(Reshow(s, show), [])
    case TimerFired(id) =>
      if s.timer == Some(id) then Outcome(s.(stage := 1, timer := None), []) else Outcome(s, [])
    case Click =>
      if s.stage == 1 then Outcome(s.(stage := 2), [])
      else if s.stage == 2 then Outcome(s.(stage := 0), [CloseNotification])
      else Outcome(s, [])
    case CloseButton =>
      if s.stage == 2 then Outcome(s.(stage := 0), [CloseNotification]) else Outcome(s, [])
  }

  /** The click table: 1 goes to 2 quietly, 2 goes to 0 with one close, and anything else stays put. */
  lemma ClickTransitions(s: State)
    requires Valid(s)
    ensures s.stage == 1 ==> Step(s, Click) == Outcome(s.(stage := 2), [])
    ensures s.stage == 2 ==> Step(s, Click) == Outcome(s.(stage := 0), [CloseNotification])
    ensures s.stage == 0 ==> Step(s, Click) == Outcome(s, [])
  {
  }

  /**
   The Close button in stage 2 behaves like the second click: stage 0 and
   exactly one close, not two, since the body never sees the click.
   */
  lemma CloseButtonClosesOnce(s: State)
    requires s.stage == 2
    ensures Step(s, CloseButton) == Step(s, Click)
    ensures Step(s, CloseButton).effects == [CloseNotification]
  {
  }

  /** Clicking a hidden notification does nothing: it is never left beyond stage 0. */
  lemma HiddenIgnoresClicks(s: State)
    requires Valid(s) && !s.show
    ensures Step(s, Click) == Outcome(s, [])
    ensures Step(s, CloseButton) == Outcome(s, [])
  {
  }

  /**
   Showing a hidden notification starts at the bell with a fresh timer, and
   that timer, when it fires, expands the notification.
   */
  lemma ShowThenTimerExpands(s: State)
    requires Valid(s) && !s.show
    ensures var t := Step(s, PropChange(true)).state;
      && t.stage == 0 && t.timer == Some(s.nextTimer)
      && Step(t, TimerFired(s.nextTimer)).state.stage == 1
  {
  }

  /**
   A timer scheduled before the prop changed was cleared by the cleanup:
   firing any id issued so far leaves the new state alone, so it never
   moves the stage to 1.
   */
  lemma StaleTimerIgnored(s: State, show: bool, id: nat)
    requires Valid(s) && show != s.show && id < s.nextTimer
    ensures var t := Step(s, PropChange(show)).state;
      Step(t, TimerFired(id)) == Outcome(t, [])
  {
  }

  /** Feeds the events in order, collecting the effects. */
  function Run(s: State, evs: seq<Event>): (o: Outcome)
    ensures |o.effects| <= |evs|
    ensures (forall i :: 0 <= i < |evs| ==> !evs[i].Click? && !evs[i].CloseButton?) ==> o.effects == []
    decreases |evs|
  {
    if |evs| == 0 then Outcome(s, [])
    else
      var o := Step(s, evs[0]);
      var rest := Run(o.state, evs[1..]);
      Outcome(rest.state, o.effects + rest.effects)
  }

  /** From any valid state, every run ends valid: in particular the stage stays 0, 1 or 2. */
  lemma {:induction false} RunValid(s: State, evs: seq<Event>)
    requires Valid(s)
    ensures Valid(Run(s, evs).state)
    decreases |evs|
  {
    if |evs| > 0 {
      RunValid(Step(s, evs[0]).state, evs[1..]);
    }
  }

  /** The number of timer events in a sequence of events. */
  function Timers(evs: seq<Event>): (n: nat)
    ensures n <= |evs|
    decreases |evs|
  {
    if |evs| == 0 then 0 else (if evs[0].TimerFired? then 1 else 0) + Timers(evs[1..])
  }

  function Expanded(s: State): nat
  {
    if s.stage > 0 then 1 else 0
  }

  /**
   The number of events of a run that actually expand the notification:
   timer events whose id is the one still pending when they arrive. A
   cleared timer firing does not count.
   */
  function Expansions(s: State, evs: seq<Event>): (n: nat)
    ensures n <= Timers(evs)
    decreases |evs|
  {
    if |evs| == 0 then 0
    else
      (if evs[0].TimerFired? && s.timer == Some(evs[0].id) then 1 else 0)
      + Expansions(Step(s, evs[0]).state, evs[1..])
  }

  /**
   Closing needs the full message, which needs the expanded title, which
   only the pending timer produces: the closes of a run, plus one if it ends
   expanded, are at most its effective timer expansions, plus one if it
   starts expanded. Hence also at most its timer events, plus one.
   */
  lemma {:induction false} ClosesNeedTimers(s: State, evs: seq<Event>)
    ensures |Run(s, evs).effects| + Expanded(Run(s, evs).state) <= Expanded(s) + Expansions(s, evs)
    ensures |Run(s, evs).effects| + Expanded(Run(s, evs).state) <= Expanded(s) + Timers(evs)
    decreases |evs|
  {
    if |evs| > 0 {
      var o := Step(s, evs[0]);
      ClosesNeedTimers(o.state, evs[1..]);
      assert |o.effects| + Expanded(o.state) <= Expanded(s) + (if evs[0].TimerFired? && s.timer == Some(evs[0].id) then 1 else 0);
    }
  }

  /** A cleared timer firing expands nothing, although it is a timer event. */
  lemma StaleTimerNotExpansion(s: State, id: nat)
    requires Valid(s) && s.timer != Some(id)
    ensures Run(s, [TimerFired(id)]).state == s
    ensures Expansions(s, [TimerFired(id)]) == 0 && Timers([TimerFired(id)]) == 1
  {
    assert [TimerFired(id)][1..] == [];
  }
}
