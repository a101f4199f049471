/**
 * One menu panel as the source builds it: a rendered element whose inline
 * style the `view` subscription and its deferred closures change in place,
 * sharing one store with every other panel. Timers and idle callbacks are
 * entries in the panel's `pending` queue; `RunNext` is the event loop firing
 * the oldest one.
 */
module ViewIsland {
  import opened Wrappers
  import opened StateStore
  import opened ViewModel

  class View {
    const id: string
    const store: Store
    var style: Style
    var pending: seq<Deferred>

    /** The rendered panel before its subscription first runs. */
    constructor (id: string, store: Store)
      ensures this.id == id && this.store == store
      ensures style == Unstyled && pending == []
    {
      this.id := id;
      this.store := store;
      style := Unstyled;
      pending := [];
    }

    /** The subscription callback for a new `view` value: reads the current
        `transition` from the store and runs the matching branch of the switch. */
    method Notify(view: Option<string>)
      modifies this, store
      ensures var e := React(old(style), id, view, ModeOf(old(store.Read(TransitionKey))));
        style == e.style &&
        pending == old(pending) + e.scheduled &&
        store.state == SetFlag(old(store.state), e.flag)
    {
      var transition := store.Read(TransitionKey);
      var mode := ModeOf(transition);
      match mode {
        case Fade => NotifyFade(view);
        case SlideToLeft | SlideToRight => NotifySlide(view, mode);
        case Instant => NotifyInstant(view);
      }
    }

    /** The `fade` branch: changes what changes now and queues the rest. */
    method NotifyFade(view: Option<string>)
      modifies this, store
      ensures var e := React(old(style), id, view, Fade);
        style == e.style &&
        pending == old(pending) + e.scheduled &&
        store.state == SetFlag(old(store.state), e.flag)
    {
      var isVisible := style.display != "none";
      var nowActive := IsActive(view, id);
      ghost var e := React(style, id, view, Fade);
      if isVisible && !nowActive {
        assert e == Effect(style.(transition := FadeCss, opacity := "0"), [Deferred(Timeout(FadeMs), HideAfterFade)], Some(true));
        store.SetState(map[InProgressKey := Flag(true)]);
        style := style.(transition := FadeCss);
        style := style.(opacity := "0");
        pending := pending + [Deferred(Timeout(FadeMs), HideAfterFade)];
      } else if !isVisible && nowActive {
        assert e == Effect(style, [Deferred(Timeout(FadeMs), RevealForFade)], None);
        pending := pending + [Deferred(Timeout(FadeMs), RevealForFade)];
      } else {
        assert e == Effect(style, [], None);
      }
    }

    /** The `slide-to-left` / `slide-to-right` branch. */
    method NotifySlide(view: Option<string>, mode: Mode)
      requires mode == SlideToLeft || mode == SlideToRight
      modifies this, store
      ensures var e := React(old(style), id, view, mode);
        style == e.style &&
        pending == old(pending) + e.scheduled &&
        store.state == SetFlag(old(store.state), e.flag)
    {
      var isVisible := style.display != "none";
      var nowActive := IsActive(view, id);
      if isVisible && !nowActive {
        SlideOutgoing(style, id, view, mode);
        SlideOut(mode);
      } else if !isVisible && nowActive {
        SlideIncoming(style, id, view, mode);
        SlideIn(mode);
      } else {
        AnimatedSettledPanelUntouched(style, id, view, mode);
      }
    }

    /** The outgoing panel of a slide: raises the flag, starts the offset and
        the fade, and queues the 200 ms hide. */
    method SlideOut(mode: Mode)
      modifies this, store
      ensures style == old(style).(transition := SlideCss, transform := Offset(OutgoingSign(mode)), opacity := "0")
      ensures pending == old(pending) + [Deferred(Timeout(SlideMs), HideAfterSlide)]
      ensures store.state == SetFlag(old(store.state), Some(true))
    {
      store.SetState(map[InProgressKey := Flag(true)]);
      style := style.(transition := SlideCss);
      style := style.(transform := Offset(OutgoingSign(mode)));
      style := style.(opacity := "0");
      pending := pending + [Deferred(Timeout(SlideMs), HideAfterSlide)];
    }

    /** The incoming panel of a slide: shown at once on the far side at zero
        opacity, with the slide-in queued for an idle moment. */
    method SlideIn(mode: Mode)
      modifies this
      ensures style == old(style).(transform := Offset(IncomingSign(mode)), opacity := "0", display := "")
      ensures pending == old(pending) + [Deferred(Idle, SlideInOnIdle)]
    {
      style := style.(transform := Offset(IncomingSign(mode)));
      style := style.(opacity := "0");
      style := style.(display := "");
      pending := pending + [Deferred(Idle, SlideInOnIdle)];
    }

    /** The `default` branch: the immediate switch. */
    method NotifyInstant(view: Option<string>)
      modifies this
      ensures var e := React(old(style), id, view, Instant);
        style == e.style && pending == old(pending) + e.scheduled && e.flag == None
    {
      var nowActive := IsActive(view, id);
      style := style.(transition := "");
      style := style.(opacity := if nowActive then "1" else "0");
      style := style.(display := if nowActive then "" else "none");
    }

    /** The event loop with nothing else to do: fires this panel's pending
        closures, oldest first, until none is left. The panel ends where
        `Settle` says its queue leads. */
    method RunAll()
      modifies this, store
      ensures pending == []
      ensures Settled(style, InProgress(store.state)) == Settle(old(style), InProgress(old(store.state)), old(pending))
      ensures forall k :: k != InProgressKey ==> Lookup(store.state, k) == Lookup(old(store.state), k)
    {
      while pending != []
        invariant Settle(style, InProgress(store.state), pending) == Settle(old(style), InProgress(old(store.state)), old(pending))
        invariant forall k :: k != InProgressKey ==> Lookup(store.state, k) == Lookup(old(store.state), k)
        decreases QueueWeight(pending)
      {
        ghost var before := pending;
        ghost var s0 := style;
        ghost var e := Run(style, pending[0].action);
        var ran := RunNext();
        QueueWeightAppend(before[1..], e.scheduled);
        RunScheduledLighter(s0, before[0].action);
      }
    }

    /** A `view` change reaching a panel, followed by all the work it defers: the
        panel ends where `Outcome` says, so with nothing pending before, it is
        shown exactly when it is the active panel. */
    method NotifyThenRunAll(view: Option<string>)
      modifies this, store
      ensures pending == []
      ensures var e := React(old(style), id, view, ModeOf(old(store.Read(TransitionKey))));
        Settled(style, InProgress(store.state)) ==
        Settle(e.style, Overwrite(InProgress(old(store.state)), e.flag), old(pending) + e.scheduled)
      ensures forall k :: k != InProgressKey ==> Lookup(store.state, k) == Lookup(old(store.state), k)
      ensures old(pending) == [] ==>
        Settled(style, InProgress(store.state)) ==
        Outcome(old(style), InProgress(old(store.state)), id, view, ModeOf(old(store.Read(TransitionKey)))) &&
        (Visible(style) <==> IsActive(view, id))
    {
      ghost var mode := ModeOf(store.Read(TransitionKey));
      ghost var s0 := style;
      ghost var f0 := InProgress(store.state);
      ghost var q0 := pending;
      ghost var e := React(s0, id, view, mode);
      Notify(view);
      RunAll();
      if q0 == [] {
        assert q0 + e.scheduled == e.scheduled;
        OutcomeShowsExactlyActive(s0, f0, id, view, mode);
      }
    }

    /** Fires the oldest pending timer or idle callback, if there is one. */
    method RunNext() returns (ran: bool)
      modifies this, store
      ensures ran <==> old(pending) != []
      ensures !ran ==> style == old(style) && pending == old(pending) && store.state == old(store.state)
      ensures ran ==> var e := Run(old(style), old(pending)[0].action);
        style == e.style &&
        pending == old(pending)[1..] + e.scheduled &&
        store.state == SetFlag(old(store.state), e.flag)
    {
      if pending == [] {
        return false;
      }
      var next := pending[0];
      pending := pending[1..];
      match next.action {
        case HideAfterFade =>
          style := style.(display := "none");
        case RevealForFade =>
          style := style.(opacity := "0");
          style := style.(display := "");
          pending := pending + [Deferred(Idle, FadeInOnIdle)];
        case FadeInOnIdle =>
          style := style.(transition := FadeCss);
          style := style.(opacity := "1");
          store.SetState(map[InProgressKey := Flag(false)]);
        case HideAfterSlide =>
          style := style.(display := "none");
          style := style.(transform := "");
        case SlideInOnIdle =>
          style := style.(transition := SlideCss);
          style := style.(transform := "");
          style := style.(opacity := "1");
          pending := pending + [Deferred(Timeout(SlideMs), ClearAfterSlide)];
        case ClearAfterSlide =>
          store.SetState(map[InProgressKey := Flag(false)]);
      }
      return true;
    }
  }

  /** The `view` value the subscription hands its callback: a stored string,
      or nothing when the key was never written. */
  function ViewArgument(stored: Option<Value>): (r: Option<string>)
    ensures stored.Some? && stored.value.Text? <==> r.Some?
    ensures r.Some? ==> stored == Some(Text(r.value))
  {
    if stored.Some? && stored.value.Text? then Some(stored.value.text) else None
  }

  /** Renders a panel and subscribes it to `view`; subscribing runs the
      callback once at once with the current value. */
  method Mount(id: string, store: Store) returns (v: View)
    modifies store
    ensures fresh(v) && v.id == id && v.store == store
    ensures var e := React(Unstyled, id, ViewArgument(old(store.Read(ViewKey))), ModeOf(old(store.Read(TransitionKey))));
      v.style == e.style && v.pending == e.scheduled && store.state == SetFlag(old(store.state), e.flag)
  {
    v := new View(id, store);
    v.Notify(ViewArgument(store.Read(ViewKey)));
  }
}
