/**
 The interaction-to-sound router: which of the six sounds a pointer, mouse
 or touch event on the wrapped element plays, given the configured sound
 resources and the `disabled` flag, and the swipe gesture state kept
 between a `touchstart` and the following `touchend`.

 Playing a sound is a foreign call; here it is an emitted trigger, in the
 order the calls happen. Volume is passed through to the player and plays
 no part in which sounds are heard, so it is not modelled.
 */
module SoundRouter {
  import opened Options

  /** The six sounds a router can play. */
  datatype Trigger = Click | ClickDown | ClickOn | ClickOff | Hover | Swipe

  /**
   The router's configuration: the resource configured per trigger (an
   absent entry is an absent property) and the `disabled` flag.
   */
  datatype Config = Config(sounds: map<Trigger, string>, disabled: bool)

  /** A trigger is audible when the router is enabled and its resource is a non-empty string. */
  predicate Enabled(cfg: Config, t: Trigger)
  {
    !cfg.disabled && t in cfg.sounds && cfg.sounds[t] != ""
  }

  /**
   Asking for trigger `t`: the player for `t` is always present, but the
   sound library stays silent unless the trigger is enabled.
   */
  function Play(cfg: Config, t: Trigger): (played: seq<Trigger>)
    ensures |played| <= 1
    ensures forall u :: u in played <==> u == t && Enabled(cfg, t)
  {
    if Enabled(cfg, t) then [t] else []
  }

  /* ----------------------------------------------------- classification */

  /** The tags whose events are classified; events on any other element are ignored. */
  const InteractiveTags: set<string> := {"BUTTON", "A", "INPUT"}

  /** The event types the classification switch has a case for. */
  const ClassifiedKinds: set<string> := {"click", "mousedown", "touchstart", "mouseup", "touchend", "mouseenter"}

  /** The element an event is dispatched to: its tag name and, for a check box, whether it is checked. */
  datatype Target = Target(tagName: string, checked: bool)

  /**
   The switch in `handleInteraction`: a click, a press, a release
   (reporting the check box state) or a hover, on interactive tags only.
   */
  function Classify(kind: string, target: Target): (t: Option<Trigger>)
    ensures t.Some? ==> target.tagName in InteractiveTags && kind in ClassifiedKinds
    ensures t != Some(Swipe)
  {
    if target.tagName !in InteractiveTags then None
    else if kind == "click" then Some(Click)
    else if kind == "mousedown" || kind == "touchstart" then Some(ClickDown)
    else if kind == "mouseup" || kind == "touchend" then Some(if target.checked then ClickOn else ClickOff)
    else if kind == "mouseenter" then Some(Hover)
    else None
  }

  /** The classification table, row by row, for an interactive target. */
  lemma ClassificationTable(kind: string, target: Target)
    requires target.tagName in InteractiveTags
    ensures kind == "click" ==> Classify(kind, target) == Some(Click)
    ensures kind == "mousedown" || kind == "touchstart" ==> Classify(kind, target) == Some(ClickDown)
    ensures kind == "mouseenter" ==> Classify(kind, target) == Some(Hover)
    ensures kind !in ClassifiedKinds ==> Classify(kind, target) == None
  {
  }

  /** Every classified event type on every interactive tag yields a trigger. */
  lemma ClassifyTotalOnInteractive(kind: string, target: Target)
    requires target.tagName in InteractiveTags && kind in ClassifiedKinds
    ensures Classify(kind, target).Some?
  {
  }

  /**
   The two release events, `mouseup` and `touchend`, report the same sound,
   and it is the "on" sound exactly when the target is checked.
   */
  lemma ReleaseReportsChecked(target: Target)
    requires target.tagName in InteractiveTags
    ensures Classify("mouseup", target) == Classify("touchend", target)
    ensures Classify("mouseup", target) == Some(ClickOn) <==> target.checked
    ensures Classify("mouseup", target) == Some(ClickOff) <==> !target.checked
  {
  }

  /**
   `handleInteraction`: nothing when disabled, otherwise the classified
   trigger, if any, through the player.
   */
  function HandleInteraction(cfg: Config, kind: string, target: Target): (played: seq<Trigger>)
    ensures |played| <= 1
    ensures cfg.disabled ==> played == []
    ensures forall t :: t in played <==> Classify(kind, target) == Some(t) && Enabled(cfg, t)
  {
    if cfg.disabled then []
    else match Classify(kind, target)
      case None => []
      case Some(t) => Play(cfg, t)
  }

  /* -------------------------------------------------------------- swipe */

  /** The horizontal distance a touch must travel, strictly exceeded, to count as a swipe. */
  const SwipeThreshold: real := 50.0

  function Abs(x: real): real
  {
    if x < 0.0 then -x else x
  }

  /**
   `handleSwipe`: with a recorded start (an unrecorded one is `undefined`,
   and every comparison with the resulting `NaN` is false), a swipe sound
   when the distance exceeds the threshold and a swipe resource is set.
   */
  function HandleSwipe(cfg: Config, startX: Option<real>, endX: real): (played: seq<Trigger>)
    ensures played == [] || played == [Swipe]
    ensures played == [Swipe] <==> startX.Some? && Abs(startX.value - endX) > SwipeThreshold && Enabled(cfg, Swipe)
  {
    if cfg.disabled then []
    else if startX.Some? && Abs(startX.value - endX) > SwipeThreshold && Swipe in cfg.sounds && cfg.sounds[Swipe] != "" then
      Play(cfg, Swipe)
    else []
  }

  /** A swipe is detected the same way in both directions. */
  lemma SwipeDirectionIndependent(cfg: Config, a: real, b: real)
    ensures HandleSwipe(cfg, Some(a), b) == HandleSwipe(cfg, Some(b), a)
  {
    assert Abs(a - b) == Abs(b - a);
  }

  /** With a swipe sound configured: 51 pixels plays, exactly 50 does not, in either direction. */
  lemma SwipeThresholdExamples(cfg: Config)
    requires Enabled(cfg, Swipe)
    ensures HandleSwipe(cfg, Some(100.0), 151.0) == [Swipe]
    ensures HandleSwipe(cfg, Some(151.0), 100.0) == [Swipe]
    ensures HandleSwipe(cfg, Some(100.0), 150.0) == []
    ensures HandleSwipe(cfg, Some(100.0), 50.0) == []
  {
  }

  /* ------------------------------------------------------ gesture state */

  /** What the attached listeners share: the configuration and the recorded touch start. */
  datatype Listener = Listener(cfg: Config, startX: Option<real>)

  /** A DOM event reaching the element: its type, target and first-touch x coordinate. */
  datatype DomEvent = DomEvent(kind: string, target: Target, clientX: real)

  /**
   Inputs to the attached router: an event, or a re-render whose changed
   configuration detaches the listeners and attaches fresh ones.
   */
  datatype Input = Dom(event: DomEvent) | Reattach(cfg: Config)

  datatype Outcome = Outcome(listener: Listener, played: seq<Trigger>)

  /** The event types bound directly to `handleInteraction`. */
  const InteractionKinds: set<string> := {"click", "mousedown", "mouseup", "mouseenter"}

  /** Freshly attached listeners: the start coordinate is not yet recorded. */
  function Attach(cfg: Config): (l: Listener)
    ensures l.cfg == cfg && l.startX == None
  {
    Listener(cfg, None)
  }

  /**
   One input. `touchstart` only records the coordinate; `touchend` checks
   for a swipe and then classifies; other bound types classify; unbound
   types do nothing; a re-attachment starts a new gesture state.
   */
  function Step(l: Listener, inp: Input): (o: Outcome)
    ensures |o.played| <= 2
    ensures inp.Dom? ==> o.listener.cfg == l.cfg
    ensures inp.Dom? ==> forall i :: 0 <= i < |o.played| ==> Enabled(l.cfg, o.played[i])
    ensures inp.Dom? && inp.event.kind == "touchstart" ==> o.played == [] && o.listener.startX == Some(inp.event.clientX)
    ensures inp.Dom? && inp.event.kind != "touchstart" ==> o.listener.startX == l.startX
    ensures inp.Reattach? ==> o.played == [] && o.listener == Attach(inp.cfg)
    ensures ClickDown in o.played ==> inp.Dom? && inp.event.kind == "mousedown"
    ensures Swipe in o.played ==> inp.Dom? && inp.event.kind == "touchend"
    ensures inp.Dom? && (inp.event.kind in InteractionKinds || inp.event.kind == "touchend") ==>
      forall t :: t != Swipe ==> (t in o.played <==> Classify(inp.event.kind, inp.event.target) == Some(t) && Enabled(l.cfg, t))
    ensures inp.Dom? && inp.event.kind !in InteractionKinds && inp.event.kind != "touchend" ==> o.played == []
  {
    match inp
    case Reattach(cfg) => Outcome(Attach(cfg), [])
    case Dom(e) =>
      if e.kind in InteractionKinds then
        Outcome(l, HandleInteraction(l.cfg, e.kind, e.target))
      else if e.kind == "touchstart" then
        Outcome(l.(startX := Some(e.clientX)), [])
      else if e.kind == "touchend" then
        Outcome(l, HandleSwipe(l.cfg, l.startX, e.clientX) + HandleInteraction(l.cfg, e.kind, e.target))
      else
        Outcome(l, [])
  }

  /**
   A `touchend` plays the swipe sound first, if any, and besides it exactly
   the release sound the classification gives, when that sound is enabled.
   */
  lemma TouchEndOrder(l: Listener, e: DomEvent)
    requires e.kind == "touchend"
    ensures var played := Step(l, Dom(e)).played;
      && (forall i :: 0 < i < |played| ==> played[i] != Swipe)
      && (forall t :: t != Swipe ==> (t in played <==> Classify(e.kind, e.target) == Some(t) && Enabled(l.cfg, t)))
      && (Swipe in played <==> l.startX.Some? && Abs(l.startX.value - e.clientX) > SwipeThreshold && Enabled(l.cfg, Swipe))
  {
    var s := HandleSwipe(l.cfg, l.startX, e.clientX);
    var h := HandleInteraction(l.cfg, e.kind, e.target);
    assert Step(l, Dom(e)).played == s + h;
    assert Swipe !in h;
  }

  /**
   One `touchend` can play two sounds: a 100-pixel swipe over an unchecked
   button plays the swipe sound and then the "off" sound.
   */
  lemma TouchEndSwipeAndRelease(cfg: Config)
    requires Enabled(cfg, Swipe) && Enabled(cfg, ClickOff)
    ensures Step(Listener(cfg, Some(0.0)), Dom(DomEvent("touchend", Target("BUTTON", false), 100.0))).played == [Swipe, ClickOff]
  {
    var e := DomEvent("touchend", Target("BUTTON", false), 100.0);
    assert Classify(e.kind, e.target) == Some(ClickOff);
    assert HandleInteraction(cfg, e.kind, e.target) == [ClickOff];
  }

  /** A `touchend` right after the listeners are attached has no start to compare with. */
  lemma TouchEndWithoutStartNeverSwipes(cfg: Config, e: DomEvent)
    requires e.kind == "touchend"
    ensures Swipe !in Step(Attach(cfg), Dom(e)).played
  {
  }

  /** Feeds the inputs in order, collecting every sound played. */
  function Run(l: Listener, inps: seq<Input>): (o: Outcome)
    ensures |o.played| <= 2 * |inps|
    ensures (forall i :: 0 <= i < |inps| ==> inps[i].Dom?) ==> o.listener.cfg == l.cfg
    decreases |inps|
  {
    if |inps| == 0 then Outcome(l, [])
    else
      var o := Step(l, inps[0]);
      var rest := Run(o.listener, inps[1..]);
      Outcome(rest.listener, o.played + rest.played)
  }

  /** Every configuration a run passes through: the initial one, then each re-attachment's. */
  function Configs(cfg: Config, inps: seq<Input>): (cs: seq<Config>)
    ensures |cs| >= 1 && cs[0] == cfg
    decreases |inps|
  {
    if |inps| == 0 then [cfg]
    else if inps[0].Reattach? then [cfg] + Configs(inps[0].cfg, inps[1..])
    else [cfg] + Configs(cfg, inps[1..])
  }

  /** Some configuration among `cs` lets `t` be heard. */
  ghost predicate EnabledSomewhere(cs: seq<Config>, t: Trigger)
  {
    exists j :: 0 <= j < |cs| && Enabled(cs[j], t)
  }

  /**
   Over any run, every sound played was enabled by a configuration in force
   at some point: an empty or absent resource, or `disabled`, silences it
   for as long as that configuration lasts.
   */
  lemma {:induction false} RunPlaysOnlyEnabled(l: Listener, inps: seq<Input>)
    ensures forall i :: 0 <= i < |Run(l, inps).played| ==> EnabledSomewhere(Configs(l.cfg, inps), Run(l, inps).played[i])
    decreases |inps|
  {
    if |inps| > 0 {
      var o := Step(l, inps[0]);
      var rest := Run(o.listener, inps[1..]);
      var cs := Configs(l.cfg, inps);
      var tail := Configs(o.listener.cfg, inps[1..]);
      RunPlaysOnlyEnabled(o.listener, inps[1..]);
      assert cs == [l.cfg] + tail;
      forall i | 0 <= i < |Run(l, inps).played|
        ensures EnabledSomewhere(cs, Run(l, inps).played[i])
      {
        var played := Run(l, inps).played;
        if i < |o.played| {
          assert Enabled(cs[0], played[i]);
        } else {
          var k := i - |o.played|;
          assert played[i] == rest.played[k];
          var j :| 0 <= j < |tail| && Enabled(tail[j], rest.played[k]);
          assert cs[j + 1] == tail[j];
        }
      }
    }
  }

  /** While the configuration stays disabled, a run plays nothing at all. */
  lemma {:induction false} DisabledRunIsSilent(l: Listener, inps: seq<Input>)
    requires l.cfg.disabled
    requires forall i :: 0 <= i < |inps| && inps[i].Reattach? ==> inps[i].cfg.disabled
    ensures Run(l, inps).played == []
    decreases |inps|
  {
    if |inps| > 0 {
      var o := Step(l, inps[0]);
      assert o.played == [] by {
        if inps[0].Dom? {
          assert forall i :: 0 <= i < |o.played| ==> Enabled(l.cfg, o.played[i]);
        }
      }
      assert forall i :: 0 <= i < |inps[1..]| && inps[1..][i].Reattach? ==> inps[1..][i].cfg.disabled by {
        forall i | 0 <= i < |inps[1..]| && inps[1..][i].Reattach?
          ensures inps[1..][i].cfg.disabled
        {
          assert inps[1..][i] == inps[i + 1];
        }
      }
      DisabledRunIsSilent(o.listener, inps[1..]);
    }
  }

  /**
   The start coordinate survives every input but a `touchstart` or a
   re-attachment: after one `touchstart`, every later `touchend` compares
   against it, however many have come in between.
   */
  lemma {:induction false} StartPersists(l: Listener, inps: seq<Input>)
    requires forall i :: 0 <= i < |inps| ==> inps[i].Dom? && inps[i].event.kind != "touchstart"
    ensures Run(l, inps).listener == l
    decreases |inps|
  {
    if |inps| > 0 {
      var o := Step(l, inps[0]);
      assert o.listener == l;
      assert forall i :: 0 <= i < |inps[1..]| ==> inps[1..][i] == inps[i + 1];
      StartPersists(l, inps[1..]);
    }
  }

  predicate IsMouseDown(inp: Input)
  {
    inp.Dom? && inp.event.kind == "mousedown"
  }

  /**
   The `touchstart` case of the switch is never reached: a press is heard
   only from `mousedown`, on any run.
   */
  lemma {:induction false} ClickDownOnlyFromMouse(l: Listener, inps: seq<Input>)
    requires ClickDown in Run(l, inps).played
    ensures exists i :: 0 <= i < |inps| && IsMouseDown(inps[i])
    decreases |inps|
  {
    var o := Step(l, inps[0]);
    if ClickDown in o.played {
      assert inps[0].Dom? && inps[0].event.kind == "mousedown";
    } else {
      ClickDownOnlyFromMouse(o.listener, inps[1..]);
      var i :| 0 <= i < |inps[1..]| && IsMouseDown(inps[1..][i]);
      assert inps[i + 1] == inps[1..][i];
    }
  }
}
