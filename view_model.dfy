/**
 * What one menu panel does when the `view` key changes, as values: the
 * panel's inline style, the work it defers to timers and idle callbacks, and
 * its writes of `transitionInProgress` into the store.
 */
module ViewModel {
  import opened Wrappers
  import opened TextCase
  import opened StateStore

  /** The four inline style properties a panel sets; "" is an unset property. */
  datatype Style = Style(display: string, opacity: string, transform: string, transition: string)

  /** A freshly rendered panel has no inline style. */
  const Unstyled := Style("", "", "", "")

  /** A panel is shown unless its display is "none"; there is no other visibility field. */
  predicate Visible(s: Style): (shown: bool)
    ensures shown <==> s.display != "none"
    ensures s.display == "" ==> shown
  {
    s.display != "none"
  }

  /** The view a missing `view` value falls back to. */
  const DefaultView := "welcome"

  /** The panel is the active one when the view and its id match ignoring case. */
  predicate IsActive(view: Option<string>, id: string): (active: bool)
    ensures var v := view.GetOr(DefaultView);
      active <==> |v| == |id| && forall i :: 0 <= i < |v| ==> LowerChar(v[i]) == LowerChar(id[i])
    ensures view.None? ==> (active <==> EqualsIgnoringCase(DefaultView, id))
  {
    EqualsIgnoringCasePointwise(view.GetOr(DefaultView), id);
    EqualsIgnoringCase(view.GetOr(DefaultView), id)
  }

  /** The value of the `transition` key as the panel's switch reads it. */
  datatype Mode = Instant | Fade | SlideToLeft | SlideToRight {
    predicate Animated() {
      !Instant?
    }
  }

  /** Strict comparison against the three animated modes; anything else,
      including an absent key, selects the immediate switch. */
  function ModeOf(transition: Option<Value>): (m: Mode)
    ensures m == Fade <==> transition == Some(Text("fade"))
    ensures m == SlideToLeft <==> transition == Some(Text("slide-to-left"))
    ensures m == SlideToRight <==> transition == Some(Text("slide-to-right"))
  {
    if transition == Some(Text("fade")) then Fade
    else if transition == Some(Text("slide-to-left")) then SlideToLeft
    else if transition == Some(Text("slide-to-right")) then SlideToRight
    else Instant
  }

  const FadeMs: nat := 100
  const SlideMs: nat := 200
  /** `opacity ${duration}ms` with the fade duration. */
  const FadeCss := "opacity 100ms"
  /** `opacity ${duration}ms, transform ${duration}ms` with the slide duration. */
  const SlideCss := "opacity 200ms, transform 200ms"

  datatype Sign = Negative | Positive {
    function Flip(): Sign {
      if Negative? then Positive else Negative
    }
  }

  /** A horizontal offset of one full panel width. */
  function Offset(sign: Sign): string {
    if sign.Negative? then "translateX(-100%)" else "translateX(100%)"
  }

  /** Direction the outgoing panel leaves in. */
  function OutgoingSign(mode: Mode): Sign {
    if mode == SlideToRight then Negative else Positive
  }

  /** Side the incoming panel enters from. */
  function IncomingSign(mode: Mode): Sign {
    if mode == SlideToRight then Positive else Negative
  }

  /** When deferred work runs: after a `setTimeout` of `ms`, or in a
      `requestIdleCallback`. */
  datatype Delay = Timeout(ms: nat) | Idle

  /** The closures the panel defers, one constructor per closure in the source. */
  datatype Action =
    | HideAfterFade     // display := "none"
    | RevealForFade     // opacity := "0"; display := ""; then on idle: FadeInOnIdle
    | FadeInOnIdle      // fade to opacity "1"; transitionInProgress := false
    | HideAfterSlide    // display := "none"; transform := ""
    | SlideInOnIdle     // slide to offset 0 and opacity "1"; then after 200 ms: ClearAfterSlide
    | ClearAfterSlide   // transitionInProgress := false

  datatype Deferred = Deferred(delay: Delay, action: Action)

  /** What one step does: the new style, the work it schedules (in order) and
      the value it writes to `transitionInProgress`, if any. */
  datatype Effect = Effect(style: Style, scheduled: seq<Deferred>, flag: Option<bool>)

  /** The `useState(["view"], ...)` callback: the synchronous part of a panel's
      reaction to a new `view` value under the given transition mode. */
  function React(s: Style, id: string, view: Option<string>, mode: Mode): (r: Effect)
    ensures r.flag != Some(false)
    ensures r.flag == Some(true) <==> mode.Animated() && Visible(s) && !IsActive(view, id)
    ensures mode.Animated() && Visible(s) == IsActive(view, id) ==> r == Effect(s, [], None)
    ensures !mode.Animated() ==> r.scheduled == [] && (Visible(r.style) <==> IsActive(view, id))
  {
    var visible := Visible(s);
    var nowActive := IsActive(view, id);
    match mode
    case Fade =>
      if visible && !nowActive then
        Effect(s.(transition := FadeCss, opacity := "0"), [Deferred(Timeout(FadeMs), HideAfterFade)], Some(true))
      else if !visible && nowActive then
        Effect(s, [Deferred(Timeout(FadeMs), RevealForFade)], None)
      else
        Effect(s, [], None)
    case SlideToLeft | SlideToRight =>
      if visible && !nowActive then
        Effect(s.(transition := SlideCss, transform := Offset(OutgoingSign(mode)), opacity := "0"),
               [Deferred(Timeout(SlideMs), HideAfterSlide)], Some(true))
      else if !visible && nowActive then
        Effect(s.(transform := Offset(IncomingSign(mode)), opacity := "0", display := ""),
               [Deferred(Idle, SlideInOnIdle)], None)
      else
        Effect(s, [], None)
    case Instant =>
      Effect(s.(transition := "", opacity := if nowActive then "1" else "0",
                display := if nowActive then "" else "none"), [], None)
  }

  /** Running one deferred closure. */
  function Run(s: Style, a: Action): (r: Effect)
    ensures r.flag != Some(true)
    ensures r.flag == Some(false) <==> a == FadeInOnIdle || a == ClearAfterSlide
    ensures a == HideAfterFade || a == HideAfterSlide ==> !Visible(r.style)
    ensures a == RevealForFade ==> Visible(r.style)
    ensures |r.scheduled| <= 1
  {
    match a
    case HideAfterFade => Effect(s.(display := "none"), [], None)
    case RevealForFade => Effect(s.(opacity := "0", display := ""), [Deferred(Idle, FadeInOnIdle)], None)
    case FadeInOnIdle => Effect(s.(transition := FadeCss, opacity := "1"), [], Some(false))
    case HideAfterSlide => Effect(s.(display := "none", transform := ""), [], None)
    case SlideInOnIdle =>
      Effect(s.(transition := SlideCss, transform := "", opacity := "1"),
             [Deferred(Timeout(SlideMs), ClearAfterSlide)], None)
    case ClearAfterSlide => Effect(s, [], Some(false))
  }

  /** The boolean stored under `transitionInProgress`, if any. */
  function InProgress(state: map<string, Value>): Option<bool> {
    if InProgressKey in state && state[InProgressKey].Flag? then Some(state[InProgressKey].flag) else None
  }

  /** The store after a step's write of `transitionInProgress`. */
  function SetFlag(state: map<string, Value>, flag: Option<bool>): (r: map<string, Value>)
    ensures InProgress(r) == Overwrite(InProgress(state), flag)
    ensures forall k :: k != InProgressKey ==> Lookup(r, k) == Lookup(state, k)
  {
    match flag
    case None => state
    case Some(b) => Write(state, map[InProgressKey := Flag(b)])
  }

  /** The value of `transitionInProgress` after a step's write. */
  function Overwrite(current: Option<bool>, flag: Option<bool>): Option<bool> {
    if flag.Some? then flag else current
  }

  /** How many closures an action still runs, itself included. */
  function Weight(a: Action): nat {
    if a == RevealForFade || a == SlideInOnIdle then 2 else 1
  }

  function QueueWeight(q: seq<Deferred>): nat {
    if q == [] then 0 else Weight(q[0].action) + QueueWeight(q[1..])
  }

  lemma {:induction false} QueueWeightAppend(a: seq<Deferred>, b: seq<Deferred>)
    ensures QueueWeight(a + b) == QueueWeight(a) + QueueWeight(b)
  {
    if a != [] {
      assert (a + b)[1..] == a[1..] + b;
      QueueWeightAppend(a[1..], b);
    } else {
      assert a + b == b;
    }
  }

  /** Running a closure schedules strictly less work than it stood for. */
  lemma RunScheduledLighter(s: Style, a: Action)
    ensures QueueWeight(Run(s, a).scheduled) < Weight(a)
  {
  }

  /** A panel's style and flag once its pending work has all run. */
  datatype Settled = Settled(style: Style, flag: Option<bool>)

  /** Runs the pending closures first-in first-out until none is left; each
      closure's own scheduled work joins the back of the queue. */
  function Settle(s: Style, flag: Option<bool>, q: seq<Deferred>): Settled
    decreases QueueWeight(q)
  {
    if q == [] then Settled(s, flag)
    else
      var e := Run(s, q[0].action);
      QueueWeightAppend(q[1..], e.scheduled);
      RunScheduledLighter(s, q[0].action);
      Settle(e.style, Overwrite(flag, e.flag), q[1..] + e.scheduled)
  }

  /** Where a panel ends up after one `view` change once nothing else
      intervenes: its reaction followed by all the work that reaction defers. */
  function Outcome(s: Style, flag: Option<bool>, id: string, view: Option<string>, mode: Mode): Settled {
    var e := React(s, id, view, mode);
    Settle(e.style, Overwrite(flag, e.flag), e.scheduled)
  }

  // ---------------------------------------------------------------------------
  // Properties of the synchronous reaction

  /** The immediate switch: shown at full opacity iff active, hidden at zero
      opacity otherwise, no CSS transition, nothing deferred, no flag write. */
  lemma InstantSwitch(s: Style, id: string, view: Option<string>)
    ensures var e := React(s, id, view, Instant);
      e.scheduled == [] && e.flag == None && e.style.transition == "" &&
      e.style.transform == s.transform &&
      (IsActive(view, id) <==> e.style.display == "" && e.style.opacity == "1") &&
      (!IsActive(view, id) <==> e.style.display == "none" && e.style.opacity == "0")
  {
  }

  /** Any transition value other than the three animated ones, absent included,
      selects the immediate switch. */
  lemma ModeOfOtherValues(transition: Option<Value>)
    ensures ModeOf(transition) == Instant <==>
      transition !in {Some(Text("fade")), Some(Text("slide-to-left")), Some(Text("slide-to-right"))}
  {
  }

  /** Reacting twice to the same `view` in the immediate mode gives the same style. */
  lemma InstantIdempotent(s: Style, id: string, view: Option<string>)
    ensures var e := React(s, id, view, Instant);
      React(e.style, id, view, Instant) == e
  {
  }

  /** In an animated mode a panel already in the right state is left alone:
      no style change, nothing deferred, no store write. */
  lemma AnimatedSettledPanelUntouched(s: Style, id: string, view: Option<string>, mode: Mode)
    requires mode.Animated()
    requires Visible(s) == IsActive(view, id)
    ensures React(s, id, view, mode) == Effect(s, [], None)
  {
  }

  /** Fade, outgoing panel: the flag is raised and the fade starts at once;
      the panel stays displayed until a 100 ms closure hides it. */
  lemma FadeOutgoing(s: Style, id: string, view: Option<string>)
    requires Visible(s) && !IsActive(view, id)
    ensures var e := React(s, id, view, Fade);
      e.flag == Some(true) &&
      e.style == s.(transition := FadeCss, opacity := "0") && Visible(e.style) &&
      e.scheduled == [Deferred(Timeout(100), HideAfterFade)] &&
      Run(e.style, HideAfterFade) == Effect(e.style.(display := "none"), [], None)
  {
  }

  /** Fade, incoming panel: nothing changes at once; after 100 ms it is shown at
      zero opacity and an idle closure fades it in and clears the flag. */
  lemma FadeIncoming(s: Style, id: string, view: Option<string>)
    requires !Visible(s) && IsActive(view, id)
    ensures React(s, id, view, Fade) == Effect(s, [Deferred(Timeout(100), RevealForFade)], None)
    ensures var r := Run(s, RevealForFade);
      r.style == s.(opacity := "0", display := "") && r.flag == None &&
      r.scheduled == [Deferred(Idle, FadeInOnIdle)]
    ensures forall t: Style :: Run(t, FadeInOnIdle) == Effect(t.(transition := FadeCss, opacity := "1"), [], Some(false))
  {
  }

  /** The outgoing offset is -100% when sliding to the right and 100% when
      sliding to the left, and the incoming panel starts on the other side. */
  lemma SlideSigns(mode: Mode)
    requires mode == SlideToLeft || mode == SlideToRight
    ensures Offset(OutgoingSign(mode)) == (if mode == SlideToRight then "translateX(-100%)" else "translateX(100%)")
    ensures IncomingSign(mode) == OutgoingSign(mode).Flip()
    ensures Offset(IncomingSign(mode)) != Offset(OutgoingSign(mode))
  {
  }

  /** Slide, outgoing panel: flag raised, offset and fade start at once; a
      200 ms closure hides it and clears its offset. */
  lemma SlideOutgoing(s: Style, id: string, view: Option<string>, mode: Mode)
    requires mode == SlideToLeft || mode == SlideToRight
    requires Visible(s) && !IsActive(view, id)
    ensures var e := React(s, id, view, mode);
      e.flag == Some(true) &&
      e.style == s.(transition := SlideCss, transform := Offset(OutgoingSign(mode)), opacity := "0") &&
      e.scheduled == [Deferred(Timeout(200), HideAfterSlide)] &&
      Run(e.style, HideAfterSlide) == Effect(e.style.(display := "none", transform := ""), [], None)
  {
  }

  /** Slide, incoming panel: shown at once, offset to the other side at zero
      opacity; an idle closure slides it in, and the flag is cleared only by a
      further 200 ms closure. */
  lemma SlideIncoming(s: Style, id: string, view: Option<string>, mode: Mode)
    requires mode == SlideToLeft || mode == SlideToRight
    requires !Visible(s) && IsActive(view, id)
    ensures var e := React(s, id, view, mode);
      e.flag == None && Visible(e.style) &&
      e.style == s.(transform := Offset(IncomingSign(mode)), opacity := "0", display := "") &&
      e.scheduled == [Deferred(Idle, SlideInOnIdle)]
    ensures forall t: Style ::
      Run(t, SlideInOnIdle) == Effect(t.(transition := SlideCss, transform := "", opacity := "1"), [Deferred(Timeout(200), ClearAfterSlide)], None)
    ensures forall t: Style :: Run(t, ClearAfterSlide) == Effect(t, [], Some(false))
  {
  }

  // ---------------------------------------------------------------------------
  // Properties of a panel once its deferred work has run

  lemma FadeOutcomeOutgoing(s: Style, flag: Option<bool>, id: string, view: Option<string>)
    requires Visible(s) && !IsActive(view, id)
    ensures Outcome(s, flag, id, view, Fade) ==
      Settled(s.(transition := FadeCss, opacity := "0", display := "none"), Some(true))
  {
    var e := React(s, id, view, Fade);
    var f1 := Overwrite(flag, e.flag);
    var r := Run(e.style, HideAfterFade);
    assert e.scheduled[1..] + r.scheduled == [];
    assert Settle(e.style, f1, e.scheduled) == Settle(r.style, Overwrite(f1, r.flag), []);
  }

  lemma FadeOutcomeIncoming(s: Style, flag: Option<bool>, id: string, view: Option<string>)
    requires !Visible(s) && IsActive(view, id)
    ensures Outcome(s, flag, id, view, Fade) ==
      Settled(s.(transition := FadeCss, opacity := "1", display := ""), Some(false))
  {
    var e := React(s, id, view, Fade);
    var q1 := [Deferred(Idle, FadeInOnIdle)];
    var r1 := Run(s, RevealForFade);
    assert e.scheduled[1..] + r1.scheduled == q1;
    assert Settle(s, flag, e.scheduled) == Settle(r1.style, flag, q1);
    var r2 := Run(r1.style, FadeInOnIdle);
    assert q1[1..] + r2.scheduled == [];
    assert Settle(r1.style, flag, q1) == Settle(r2.style, Some(false), []);
  }

  lemma SlideOutcomeOutgoing(s: Style, flag: Option<bool>, id: string, view: Option<string>, mode: Mode)
    requires mode == SlideToLeft || mode == SlideToRight
    requires Visible(s) && !IsActive(view, id)
    ensures Outcome(s, flag, id, view, mode) ==
      Settled(s.(transition := SlideCss, transform := "", opacity := "0", display := "none"), Some(true))
  {
    var e := React(s, id, view, mode);
    var r := Run(e.style, HideAfterSlide);
    assert e.scheduled[1..] + r.scheduled == [];
    assert Settle(e.style, Some(true), e.scheduled) == Settle(r.style, Some(true), []);
  }

  lemma SlideOutcomeIncoming(s: Style, flag: Option<bool>, id: string, view: Option<string>, mode: Mode)
    requires mode == SlideToLeft || mode == SlideToRight
    requires !Visible(s) && IsActive(view, id)
    ensures Outcome(s, flag, id, view, mode) ==
      Settled(s.(transition := SlideCss, transform := "", opacity := "1", display := ""), Some(false))
  {
    SlideIncoming(s, id, view, mode);
    var e := React(s, id, view, mode);
    var s0 := s.(transform := Offset(IncomingSign(mode)), opacity := "0", display := "");
    assert e == Effect(s0, [Deferred(Idle, SlideInOnIdle)], None);
    var q1 := [Deferred(Timeout(SlideMs), ClearAfterSlide)];
    var r1 := Run(e.style, SlideInOnIdle);
    assert e.scheduled[1..] + r1.scheduled == q1;
    assert Settle(e.style, flag, e.scheduled) == Settle(r1.style, flag, q1);
    var r2 := Run(r1.style, ClearAfterSlide);
    assert q1[1..] + r2.scheduled == [];
    assert Settle(r1.style, flag, q1) == Settle(r2.style, Some(false), []);
  }

  /** In every mode, once the deferred work of one `view` change has run, the
      panel is shown exactly when it is the active one; an animated hand-off
      leaves the flag raised by the outgoing panel and lowered by the incoming
      one, and every other case leaves the flag as it was. */
  lemma OutcomeShowsExactlyActive(s: Style, flag: Option<bool>, id: string, view: Option<string>, mode: Mode)
    ensures var o := Outcome(s, flag, id, view, mode);
      (Visible(o.style) <==> IsActive(view, id)) &&
      (mode.Animated() && Visible(s) && !IsActive(view, id) ==> o.flag == Some(true)) &&
      (mode.Animated() && !Visible(s) && IsActive(view, id) ==> o.flag == Some(false)) &&
      (!mode.Animated() || Visible(s) == IsActive(view, id) ==> o.flag == flag)
  {
    var active := IsActive(view, id);
    if mode == Instant {
      assert React(s, id, view, mode).scheduled == [];
    } else if Visible(s) == active {
      assert React(s, id, view, mode) == Effect(s, [], None);
    } else if mode == Fade {
      if active {
        FadeOutcomeIncoming(s, flag, id, view);
      } else {
        FadeOutcomeOutgoing(s, flag, id, view);
      }
    } else {
      if active {
        SlideOutcomeIncoming(s, flag, id, view, mode);
      } else {
        SlideOutcomeOutgoing(s, flag, id, view, mode);
      }
    }
  }

  /** A fade hand-off between an outgoing panel `a` and an incoming panel `b`
      sharing one flag, with the closures firing in the order they were
      scheduled: the flag is raised at once, stays raised through the hide of
      `a` and the reveal of `b`, and is lowered only when `b` has faded in. */
  lemma FadeHandOff(sa: Style, ida: string, sb: Style, idb: string, view: Option<string>, flag: Option<bool>)
    requires Visible(sa) && !IsActive(view, ida)
    requires !Visible(sb) && IsActive(view, idb)
    ensures var ea := React(sa, ida, view, Fade);
      var eb := React(sb, idb, view, Fade);
      var f0 := Overwrite(Overwrite(flag, ea.flag), eb.flag);
      var a1 := Run(ea.style, ea.scheduled[0].action);
      var b1 := Run(eb.style, eb.scheduled[0].action);
      var b2 := Run(b1.style, b1.scheduled[0].action);
      f0 == Some(true) &&
      Overwrite(f0, a1.flag) == Some(true) && !Visible(a1.style) &&
      Overwrite(Overwrite(f0, a1.flag), b1.flag) == Some(true) && Visible(b1.style) && b1.style.opacity == "0" &&
      Overwrite(Overwrite(Overwrite(f0, a1.flag), b1.flag), b2.flag) == Some(false) && b2.style.opacity == "1" &&
      b2.scheduled == []
  {
    FadeOutgoing(sa, ida, view);
    FadeIncoming(sb, idb, view);
  }

  /** The tolerated race: a panel fading out that becomes active again before
      its 100 ms hide fires is left untouched by the second change (it still
      looks visible), and the stale hide then leaves the active panel hidden. */
  lemma StaleHideRace()
    ensures var s := Style("", "1", "", "");
      var out := React(s, "about", Some("welcome"), Fade);
      var back := React(out.style, "about", Some("about"), Fade);
      IsActive(Some("about"), "about") && back == Effect(out.style, [], None) &&
      out.scheduled == [Deferred(Timeout(FadeMs), HideAfterFade)] &&
      !Visible(Run(back.style, HideAfterFade).style)
  {
    var s := Style("", "1", "", "");
    assert !IsActive(Some("welcome"), "about") by {
      assert Lower("welcome")[0] != Lower("about")[0];
    }
    FadeOutgoing(s, "about", Some("welcome"));
    var out := React(s, "about", Some("welcome"), Fade);
    AnimatedSettledPanelUntouched(out.style, "about", Some("about"), Fade);
  }

  /** The mirror race: a hidden panel that is about to fade in and becomes
      inactive again before its 100 ms reveal fires is left untouched by the
      second change (it still looks hidden); the stale reveal then shows the
      inactive panel, and its idle closure lowers the flag. */
  lemma StaleReveal()
    ensures var s := Style("none", "0", "", "");
      var into := React(s, "about", Some("about"), Fade);
      var away := React(into.style, "about", Some("welcome"), Fade);
      var shown := Run(away.style, RevealForFade);
      var fadeIn := Run(shown.style, FadeInOnIdle);
      !IsActive(Some("welcome"), "about") &&
      into == Effect(s, [Deferred(Timeout(FadeMs), RevealForFade)], None) &&
      away == Effect(s, [], None) &&
      Visible(shown.style) && shown.scheduled == [Deferred(Idle, FadeInOnIdle)] &&
      Visible(fadeIn.style) && fadeIn.style.opacity == "1" && fadeIn.flag == Some(false)
  {
    var s := Style("none", "0", "", "");
    assert !IsActive(Some("welcome"), "about") by {
      assert Lower("welcome")[0] != Lower("about")[0];
    }
    assert IsActive(Some("about"), "about");
    FadeIncoming(s, "about", Some("about"));
    AnimatedSettledPanelUntouched(s, "about", Some("welcome"), Fade);
  }

  /** "Welcome" activates the panel registered as "welcome", and so does an
      absent `view`. */
  lemma ActiveIgnoresCase()
    ensures IsActive(Some("Welcome"), "welcome")
    ensures IsActive(None, "Welcome")
  {
    EqualsIgnoringCasePointwise("Welcome", "welcome");
    EqualsIgnoringCasePointwise("welcome", "Welcome");
  }
}
