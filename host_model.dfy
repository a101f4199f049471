/**
 * The host page's menu controller as values: the last theme it sent, whether
 * the modal is open, the messages it has posted to the menu frame, and
 * whether the sidebar launcher is in the document. Each trigger the
 * controller listens for is a function from one such state to the next.
 */
module HostModel {
  import opened Wrappers

  /** Every message the controller posts, and every message it obeys, carries
      this namespace. */
  const Namespace := "notion-enhancer"

  datatype Theme = Light | Dark

  function ThemeName(t: Theme): string {
    if t == Dark then "dark" else "light"
  }

  /** The host's current theme, read from the classes on its `<body>`. */
  function CurrentTheme(bodyClasses: set<string>): (t: Theme)
    ensures t == Dark <==> "dark" in bodyClasses
    ensures t == Light <==> "dark" !in bodyClasses
  {
    if "dark" in bodyClasses then Dark else Light
  }

  /** A message posted to the menu frame. */
  datatype Msg = Msg(namespace: string, hotkey: string, theme: string, icon: string)

  /** The two settings read once at start-up and sent with every message. */
  datatype Config = Config(hotkey: string, icon: string)

  function ThemeMessage(cfg: Config, t: Theme): Msg {
    Msg(Namespace, cfg.hotkey, ThemeName(t), cfg.icon)
  }

  datatype Host = Host(lastTheme: Option<Theme>, open: bool, outbox: seq<Msg>, launcherInDocument: bool)

  /** The controller right after start-up: nothing sent, modal closed, and the
      launcher appended if the sidebar was there to receive it. */
  function Initial(sidebarPresent: bool): Host {
    Host(None, false, [], sidebarPresent)
  }

  /** `updateTheme(force)`: sends only on a change of light/dark since the
      last send (the first call always counts as a change), or when forced. */
  function UpdateTheme(h: Host, cfg: Config, bodyClasses: set<string>, force: bool): (r: Host)
    ensures r.lastTheme == Some(CurrentTheme(bodyClasses))
    ensures r.open == h.open && r.launcherInDocument == h.launcherInDocument
    ensures Some(CurrentTheme(bodyClasses)) != h.lastTheme || force <==>
      r.outbox == h.outbox + [ThemeMessage(cfg, CurrentTheme(bodyClasses))]
    ensures Some(CurrentTheme(bodyClasses)) == h.lastTheme && !force <==> r.outbox == h.outbox
  {
    var theme := CurrentTheme(bodyClasses);
    if Some(theme) != h.lastTheme || force then
      h.(lastTheme := Some(theme), outbox := h.outbox + [ThemeMessage(cfg, theme)])
    else
      h
  }

  /** `openMenu`: a forced theme message, then the modal is marked open. */
  function OpenMenu(h: Host, cfg: Config, bodyClasses: set<string>): (r: Host)
    ensures r.open
    ensures r.outbox == h.outbox + [ThemeMessage(cfg, CurrentTheme(bodyClasses))]
    ensures r.lastTheme == Some(CurrentTheme(bodyClasses))
    ensures r.launcherInDocument == h.launcherInDocument
  {
    UpdateTheme(h, cfg, bodyClasses, true).(open := true)
  }

  /** `closeMenu`: the modal's open mark is removed; nothing is sent. */
  function CloseMenu(h: Host): (r: Host)
    ensures !r.open
    ensures r.outbox == h.outbox && r.lastTheme == h.lastTheme
    ensures r.launcherInDocument == h.launcherInDocument
  {
    h.(open := false)
  }

  /** The `data` of a window `message` event, as far as the handler looks at
      it; a field that is missing, or data that is not an object, reads as None. */
  datatype MessageData = MessageData(namespace: Option<string>, action: Option<string>)

  predicate FromMenu(data: MessageData) {
    data.namespace == Some(Namespace)
  }

  /** The window `message` handler: foreign messages are dropped, then a
      "close-menu" action closes and an "open-menu" action opens. */
  function OnWindowMessage(h: Host, cfg: Config, bodyClasses: set<string>, data: MessageData): (r: Host)
    ensures !FromMenu(data) ==> r == h
    ensures FromMenu(data) && data.action == Some("close-menu") ==> r == CloseMenu(h)
    ensures FromMenu(data) && data.action == Some("open-menu") ==> r == OpenMenu(h, cfg, bodyClasses)
    ensures data.action !in {Some("close-menu"), Some("open-menu")} ==> r == h
  {
    if !FromMenu(data) then h
    else
      var closed := if data.action == Some("close-menu") then CloseMenu(h) else h;
      if data.action == Some("open-menu") then OpenMenu(closed, cfg, bodyClasses) else closed
  }

  /** The Escape key listener: closes the menu unless the focused element is an
      `<input>`. */
  function OnEscape(h: Host, activeNodeName: Option<string>): (r: Host)
    ensures activeNodeName == Some("INPUT") ==> r == h
    ensures activeNodeName != Some("INPUT") ==> r == CloseMenu(h)
  {
    if activeNodeName == Some("INPUT") then h else CloseMenu(h)
  }

  /** The `<body>` mutation listener: a theme resync, unforced, only while the
      modal is open. */
  function OnBodyMutation(h: Host, cfg: Config, bodyClasses: set<string>): (r: Host)
    ensures !h.open ==> r == h
    ensures h.open ==> r == UpdateTheme(h, cfg, bodyClasses, false)
  {
    if h.open then UpdateTheme(h, cfg, bodyClasses, false) else h
  }

  /** The sidebar mutation listener: the launcher is appended only when it is
      not in the document and the sidebar exists to receive it. */
  function OnSidebarMutation(h: Host, sidebarPresent: bool): (r: Host)
    ensures r.launcherInDocument <==> h.launcherInDocument || sidebarPresent
    ensures r == h.(launcherInDocument := r.launcherInDocument)
  {
    if h.launcherInDocument then h
    else if sidebarPresent then h.(launcherInDocument := true)
    else h
  }

  /** The message the host's inter-process channel may deliver: only
      "open-menu" does anything. */
  function OnChannelMessage(h: Host, cfg: Config, bodyClasses: set<string>, message: string): (r: Host)
    ensures message == "open-menu" ==> r == OpenMenu(h, cfg, bodyClasses)
    ensures message != "open-menu" ==> r == h
  {
    if message == "open-menu" then OpenMenu(h, cfg, bodyClasses) else h
  }

  /** Everything that can happen to the controller. `HostRerender` is the host
      application dropping the launcher when it regenerates its sidebar. */
  datatype Event =
    | LauncherClick(body: set<string>)
    | Hotkey(body: set<string>)
    | WindowFocus(body: set<string>)
    | FrameLoad(body: set<string>)
    | WindowMessage(body: set<string>, data: MessageData)
    | ChannelMessage(body: set<string>, message: string)
    | BodyMutation(body: set<string>)
    | EscapeKey(activeNodeName: Option<string>)
    | OverlayClick
    | SidebarMutation(sidebarPresent: bool)
    | HostRerender

  /** One event, dispatched to the listener the controller installed for it. */
  function Step(h: Host, cfg: Config, e: Event): (r: Host)
    ensures Extends(h, r, cfg)
    ensures e.LauncherClick? || e.Hotkey? ==> r.open
    ensures e.OverlayClick? ==> !r.open
    ensures e.HostRerender? ==> !r.launcherInDocument
    ensures e.EscapeKey? || e.OverlayClick? || e.SidebarMutation? || e.HostRerender? ==> r.outbox == h.outbox
  {
    match e
    case LauncherClick(body) => OpenMenu(h, cfg, body)
    case Hotkey(body) => OpenMenu(h, cfg, body)
    case WindowFocus(body) => UpdateTheme(h, cfg, body, true)
    case FrameLoad(body) => UpdateTheme(h, cfg, body, true)
    case WindowMessage(body, data) => OnWindowMessage(h, cfg, body, data)
    case ChannelMessage(body, message) => OnChannelMessage(h, cfg, body, message)
    case BodyMutation(body) => OnBodyMutation(h, cfg, body)
    case EscapeKey(node) => OnEscape(h, node)
    case OverlayClick => CloseMenu(h)
    case SidebarMutation(present) => OnSidebarMutation(h, present)
    case HostRerender => h.(launcherInDocument := false)
  }

  function RunEvents(h: Host, cfg: Config, es: seq<Event>): Host
    decreases |es|
  {
    if es == [] then h else RunEvents(Step(h, cfg, es[0]), cfg, es[1..])
  }

  // ---------------------------------------------------------------------------
  // Single-call properties

  /** Two unforced updates with no theme change in between send at most one
      message, and the second sends none. */
  lemma UpdateTwiceSendsAtMostOnce(h: Host, cfg: Config, body: set<string>)
    ensures var once := UpdateTheme(h, cfg, body, false);
      UpdateTheme(once, cfg, body, false) == once &&
      |once.outbox| <= |h.outbox| + 1
  {
  }

  /** Opening twice leaves the modal as open as opening once; the second open
      is forced, so it sends the same theme message again. */
  lemma OpenMenuTwice(h: Host, cfg: Config, body: set<string>)
    ensures var once := OpenMenu(h, cfg, body);
      var twice := OpenMenu(once, cfg, body);
      twice.open == once.open && twice.lastTheme == once.lastTheme &&
      twice.outbox == once.outbox + [once.outbox[|once.outbox| - 1]]
  {
  }

  lemma CloseMenuIdempotent(h: Host)
    ensures CloseMenu(CloseMenu(h)) == CloseMenu(h)
  {
  }

  /** Re-running the launcher guard right after it ran changes nothing: the
      launcher is never appended twice. */
  lemma SidebarGuardIdempotent(h: Host, sidebarPresent: bool)
    ensures var once := OnSidebarMutation(h, sidebarPresent);
      OnSidebarMutation(once, sidebarPresent) == once &&
      (h.launcherInDocument ==> once == h)
  {
  }

  // ---------------------------------------------------------------------------
  // Properties of any run of events

  /** What every posted message has in common, and how the remembered theme
      relates to what was posted: nothing is remembered before the first send,
      and afterwards the remembered theme is the one last sent. */
  ghost predicate Consistent(h: Host, cfg: Config) {
    (h.lastTheme.None? <==> h.outbox == []) &&
    (h.outbox != [] ==> h.outbox[|h.outbox| - 1] == ThemeMessage(cfg, h.lastTheme.value)) &&
    forall i :: 0 <= i < |h.outbox| ==>
      h.outbox[i].namespace == Namespace && h.outbox[i].hotkey == cfg.hotkey && h.outbox[i].icon == cfg.icon
  }

  /** One step either sends nothing and remembers the same theme, or appends
      one theme message and remembers the theme it carries. */
  predicate Extends(h: Host, r: Host, cfg: Config) {
    (r.outbox == h.outbox && r.lastTheme == h.lastTheme) ||
    (r.lastTheme.Some? && r.outbox == h.outbox + [ThemeMessage(cfg, r.lastTheme.value)])
  }

  lemma ExtendsConsistent(h: Host, r: Host, cfg: Config)
    requires Consistent(h, cfg) && Extends(h, r, cfg)
    ensures Consistent(r, cfg)
  {
  }

  lemma StepConsistent(h: Host, cfg: Config, e: Event)
    requires Consistent(h, cfg)
    ensures Consistent(Step(h, cfg, e), cfg)
  {
    ExtendsConsistent(h, Step(h, cfg, e), cfg);
  }

  lemma {:induction false} RunConsistent(h: Host, cfg: Config, es: seq<Event>)
    requires Consistent(h, cfg)
    ensures Consistent(RunEvents(h, cfg, es), cfg)
    decreases |es|
  {
    if es != [] {
      StepConsistent(h, cfg, es[0]);
      RunConsistent(Step(h, cfg, es[0]), cfg, es[1..]);
    }
  }

  /** Posted messages are never withdrawn or reordered: the outbox only grows
      at its end. */
  lemma {:induction false} RunExtendsOutbox(h: Host, cfg: Config, es: seq<Event>)
    ensures h.outbox <= RunEvents(h, cfg, es).outbox
    decreases |es|
  {
    if es != [] {
      var next := Step(h, cfg, es[0]);
      assert h.outbox <= next.outbox;
      RunExtendsOutbox(next, cfg, es[1..]);
    }
  }

  /** From start-up, whatever happens, every posted message is well formed and
      the last one carries the remembered theme. */
  lemma RunFromStartConsistent(sidebarPresent: bool, cfg: Config, es: seq<Event>)
    ensures Consistent(RunEvents(Initial(sidebarPresent), cfg, es), cfg)
  {
    RunConsistent(Initial(sidebarPresent), cfg, es);
  }

  // ---------------------------------------------------------------------------
  // Coalescing over a run of unforced updates

  /** Unforced updates against a succession of `<body>` states. */
  function UpdateEach(h: Host, cfg: Config, bodies: seq<set<string>>): Host
    decreases |bodies|
  {
    if bodies == [] then h else UpdateEach(UpdateTheme(h, cfg, bodies[0], false), cfg, bodies[1..])
  }

  /** The themes of a succession of `<body>` states that differ from the theme
      before them, starting from `last`. */
  function Changes(last: Option<Theme>, bodies: seq<set<string>>): seq<Theme>
    decreases |bodies|
  {
    if bodies == [] then []
    else
      var t := CurrentTheme(bodies[0]);
      (if Some(t) != last then [t] else []) + Changes(Some(t), bodies[1..])
  }

  function Messages(cfg: Config, ts: seq<Theme>): seq<Msg>
    decreases |ts|
  {
    if ts == [] then [] else [ThemeMessage(cfg, ts[0])] + Messages(cfg, ts[1..])
  }

  /** Unforced updates post exactly one message per change of theme, in order,
      and nothing for repaints that leave the theme as it was. */
  lemma {:induction false} UpdateEachCoalesces(h: Host, cfg: Config, bodies: seq<set<string>>)
    ensures UpdateEach(h, cfg, bodies).outbox == h.outbox + Messages(cfg, Changes(h.lastTheme, bodies))
    decreases |bodies|
  {
    if bodies != [] {
      var t := CurrentTheme(bodies[0]);
      var next := UpdateTheme(h, cfg, bodies[0], false);
      var head := if Some(t) != h.lastTheme then [t] else [];
      var rest := Changes(Some(t), bodies[1..]);
      UpdateEachCoalesces(next, cfg, bodies[1..]);
      MessagesAppend(cfg, head, rest);
      assert Changes(h.lastTheme, bodies) == head + rest;
      assert next.outbox == h.outbox + Messages(cfg, head);
    }
  }

  lemma {:induction false} MessagesAppend(cfg: Config, a: seq<Theme>, b: seq<Theme>)
    ensures Messages(cfg, a + b) == Messages(cfg, a) + Messages(cfg, b)
    decreases |a|
  {
    if a == [] {
      assert a + b == b;
    } else {
      assert (a + b)[1..] == a[1..] + b;
      MessagesAppend(cfg, a[1..], b);
    }
  }

  /** A run of repaints that never changes the remembered theme sends nothing. */
  lemma {:induction false} SteadyThemeSendsNothing(h: Host, cfg: Config, bodies: seq<set<string>>)
    requires h.lastTheme.Some?
    requires forall i :: 0 <= i < |bodies| ==> CurrentTheme(bodies[i]) == h.lastTheme.value
    ensures UpdateEach(h, cfg, bodies).outbox == h.outbox
    decreases |bodies|
  {
    if bodies != [] {
      SteadyThemeSendsNothing(UpdateTheme(h, cfg, bodies[0], false), cfg, bodies[1..]);
    }
  }

  // ---------------------------------------------------------------------------
  // The sidebar launcher's badge

  /** The badge count: 1 when an update is available, otherwise 0. */
  function Notifications(updateAvailable: bool): (n: nat)
    ensures n == 1 <==> updateAvailable
    ensures n == 0 <==> !updateAvailable
  {
    if updateAvailable then 1 else 0
  }

  /** The badge is hidden unless the count is positive. */
  predicate BadgeHidden(notifications: int): (hidden: bool)
    ensures hidden <==> notifications <= 0
  {
    !(notifications > 0)
  }

  lemma BadgeShownIffUpdate(updateAvailable: bool)
    ensures BadgeHidden(Notifications(updateAvailable)) <==> !updateAvailable
    ensures BadgeHidden(Notifications(updateAvailable)) <==> Notifications(updateAvailable) == 0
    ensures Notifications(updateAvailable) == 1 <==> updateAvailable
  {
  }
}
